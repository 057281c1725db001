/*
 * The label part of the network storage: how an indexed buffer of result ids
 * is written to a labels node (one property per slot, named by the slot's
 * decimal number, plus the eviction order and the buffer limit) and how the
 * node is read back into a buffer.
 *
 * A node's single-valued string properties are a map from property name to
 * value; the multi-valued `evictionOrder` and the long `bufferLimit` are
 * separate fields (their names are not numbers, so the parser's filter never
 * confuses them with slots). The order in which the repository enumerates the
 * properties is a parameter `names`.
 */
module LabelStorage {
  import opened Wrappers
  import opened Seqs
  import opened LruBuffer
  import opened Decimal
  import JavaArith
  import Sorting

  const EvictionOrderProperty: string := "evictionOrder"
  const BufferLimitProperty: string := "bufferLimit"

  datatype LabelsNode = LabelsNode(
    props: map<string, string>,
    evictionOrder: Option<seq<string>>,
    bufferLimit: Option<int>)

  // ---------------------------------------------------------------------------
  // Property names that are numbers
  // ---------------------------------------------------------------------------

  /** `Integer.parseInt` accepts the name. */
  predicate IsNumeric(k: string) {
    ParseInt(k).Some?
  }

  /** The number a numeric name stands for (0 for the others, which are filtered out first). */
  function NumericKey(k: string): int {
    match ParseInt(k)
    case Some(v) => v
    case None => 0
  }

  /** The name is the one `Integer.toString` gives its number (no sign, no leading zeros). */
  predicate Canonical(k: string) {
    IsNumeric(k) && k == IntToString(NumericKey(k))
  }

  /** The name of one of the slots 0 .. n-1. */
  predicate IsSlotName(k: string, n: int) {
    Canonical(k) && 0 <= NumericKey(k) < n
  }

  /** A plain decimal rendering of a natural number, of any size (`Integer.toString` of a counter that does not wrap). */
  predicate IsDecimal(k: string) {
    1 <= |k| && AllDigits(k) && k == NatToString(DigitsValue(k))
  }

  lemma CanonicalName(v: int)
    requires JavaArith.IsInt(v)
    ensures Canonical(IntToString(v)) && NumericKey(IntToString(v)) == v
  {
    ParseIntToString(v);
  }

  /** Two canonical names with the same number are the same name. */
  lemma CanonicalInjective(k1: string, k2: string)
    requires Canonical(k1) && Canonical(k2) && NumericKey(k1) == NumericKey(k2)
    ensures k1 == k2
  {
  }

  /**
   * The shape of a labels node as the serialiser leaves it: every numeric name
   * is canonical, non-negative, and all the smaller slot names are present.
   */
  predicate Shaped(props: map<string, string>) {
    forall k :: k in props && IsNumeric(k) ==>
      && Canonical(k)
      && 0 <= NumericKey(k)
      && (forall v :: 0 <= v < NumericKey(k) ==> IntToString(v) in props)
  }

  // ---------------------------------------------------------------------------
  // storeToJcr: the labels, the stale slot names, the eviction order, the limit
  // ---------------------------------------------------------------------------

  /** The property name a contained key is stored under: its slot, in decimal. */
  function SlotName(b: IndexedBuffer<string>, k: string): (name: string)
    requires Valid(b) && Contains(b, k)
    ensures IsSlotName(name, Size(b)) && NumericKey(name) == IndexOf(b, k)
  {
    CanonicalName(IndexOf(b, k));
    IntToString(IndexOf(b, k))
  }

  lemma SlotNameInjective(b: IndexedBuffer<string>, k1: string, k2: string)
    requires Valid(b) && Contains(b, k1) && Contains(b, k2)
    requires SlotName(b, k1) == SlotName(b, k2)
    ensures k1 == k2
  {
    IndexOfInjective(b, k1, k2);
  }

  /**
   * The first loop of `storeToJcr`: each key in `ks` is written under its slot
   * name; names that are not slot names are left alone.
   */
  function WriteLabels(props: map<string, string>, b: IndexedBuffer<string>, ks: seq<string>): (r: map<string, string>)
    requires Valid(b) && forall i :: 0 <= i < |ks| ==> Contains(b, ks[i])
    ensures forall i :: 0 <= i < |ks| ==> SlotName(b, ks[i]) in r && r[SlotName(b, ks[i])] == ks[i]
    ensures forall k :: k in r ==> k in props || IsSlotName(k, Size(b))
    ensures forall k :: k in props && !IsSlotName(k, Size(b)) ==> k in r && r[k] == props[k]
    decreases |ks|
  {
    if |ks| == 0 then props
    else
      var init := ks[..|ks| - 1];
      var prev := WriteLabels(props, b, init);
      var k := ks[|ks| - 1];
      var name := SlotName(b, k);
      WriteLabelStep(b, ks, init, prev);
      prev[name := k]
  }

  /** Writing the last key of `ks` keeps the labels written for the keys before it. */
  lemma WriteLabelStep(b: IndexedBuffer<string>, ks: seq<string>, init: seq<string>, prev: map<string, string>)
    requires Valid(b) && |ks| > 0 && init == ks[..|ks| - 1]
    requires forall i :: 0 <= i < |ks| ==> Contains(b, ks[i])
    requires forall i :: 0 <= i < |init| ==> SlotName(b, init[i]) in prev && prev[SlotName(b, init[i])] == init[i]
    ensures var r := prev[SlotName(b, ks[|ks| - 1]) := ks[|ks| - 1]];
      forall i :: 0 <= i < |ks| ==> SlotName(b, ks[i]) in r && r[SlotName(b, ks[i])] == ks[i]
  {
    var k := ks[|ks| - 1];
    var r := prev[SlotName(b, k) := k];
    forall i | 0 <= i < |ks| ensures SlotName(b, ks[i]) in r && r[SlotName(b, ks[i])] == ks[i] {
      if i < |ks| - 1 {
        assert init[i] == ks[i];
        if SlotName(b, ks[i]) == SlotName(b, k) {
          SlotNameInjective(b, ks[i], k);
        }
      }
    }
  }

  /** Every canonical name numbered `i` or more has all the names `i` .. its number - 1 beside it. */
  predicate Contiguous(props: map<string, string>, i: nat) {
    forall k :: k in props && Canonical(k) && NumericKey(k) >= i ==>
      forall v :: i <= v < NumericKey(k) ==> IntToString(v) in props
  }

  lemma ContiguousStep(props: map<string, string>, i: nat)
    requires Contiguous(props, i)
    ensures Contiguous(props - {IntToString(i)}, i + 1)
  {
    var rest := props - {IntToString(i)};
    forall k, v | k in rest && Canonical(k) && NumericKey(k) >= i + 1 && i + 1 <= v < NumericKey(k)
      ensures IntToString(v) in rest
    {
      assert IntToString(v) in props;
      if IntToString(v) == IntToString(i) {
        IntToStringInjective(v, i);
      }
    }
  }

  lemma ContiguousStop(props: map<string, string>, i: nat)
    requires Contiguous(props, i) && IntToString(i) !in props
    ensures forall k :: k in props && Canonical(k) ==> NumericKey(k) < i
  {
    forall k | k in props && Canonical(k)
      ensures NumericKey(k) < i
    {
    }
  }

  /**
   * The second loop of `storeToJcr`: from slot name `i` upwards, remove slot
   * names while they are present. Only decimal names numbered `i` or more can
   * go; on a contiguous node no canonical name numbered `i` or more is left.
   */
  function DropStale(props: map<string, string>, i: nat): (r: map<string, string>)
    ensures forall k :: k in r ==> k in props && r[k] == props[k]
    ensures forall k :: k in props && !(IsDecimal(k) && DigitsValue(k) >= i) ==> k in r
    ensures Contiguous(props, i) ==> forall k :: k in r && Canonical(k) ==> NumericKey(k) < i
    decreases |props|
  {
    var name := IntToString(i);
    if name in props then
      ParseIntToString(i);
      assert Contiguous(props, i) ==> Contiguous(props - {name}, i + 1) by {
        if Contiguous(props, i) {
          ContiguousStep(props, i);
        }
      }
      DropStale(props - {name}, i + 1)
    else
      assert Contiguous(props, i) ==> forall k :: k in props && Canonical(k) ==> NumericKey(k) < i by {
        if Contiguous(props, i) {
          ContiguousStop(props, i);
        }
      }
      props
  }

  lemma OrderContained(b: IndexedBuffer<string>)
    ensures forall i :: 0 <= i < |Order(b)| ==> Contains(b, Order(b)[i])
  {
    forall i | 0 <= i < |Order(b)| ensures Contains(b, Order(b)[i]) {
      ContainsIsInOrder(b, Order(b)[i]);
    }
  }

  /** The string properties after `storeToJcr`: labels written, stale slot names removed. */
  function StoredProps(props: map<string, string>, b: IndexedBuffer<string>): map<string, string>
    requires Valid(b)
  {
    OrderContained(b);
    DropStale(WriteLabels(props, b, Order(b)), Size(b))
  }

  /** After storing, slot `s` holds the label in slot `s`. */
  lemma StoredSlot(props: map<string, string>, b: IndexedBuffer<string>, s: nat)
    requires Valid(b) && s < Size(b)
    ensures IntToString(s) in StoredProps(props, b)
    ensures StoredProps(props, b)[IntToString(s)] == LabelsBySlot(b)[s]
  {
    var order := Order(b);
    OrderContained(b);
    var written := WriteLabels(props, b, order);
    var k := LabelsBySlot(b)[s];
    assert IndexOf(b, k) == s;
    ContainsIsInOrder(b, k);
    var i :| 0 <= i < |order| && order[i] == k;
    var name := SlotName(b, order[i]);
    assert name == IntToString(s);
    assert name in written && written[name] == k;
    CanonicalName(s);
    assert name in DropStale(written, Size(b));
  }

  lemma StoredPropsFacts(props: map<string, string>, b: IndexedBuffer<string>)
    requires Valid(b)
    ensures forall s :: 0 <= s < Size(b) ==>
      IntToString(s) in StoredProps(props, b) && StoredProps(props, b)[IntToString(s)] == LabelsBySlot(b)[s]
    ensures forall k :: k in StoredProps(props, b) ==> k in props || IsSlotName(k, Size(b))
    ensures forall k :: k in props && !IsDecimal(k) ==> k in StoredProps(props, b) && StoredProps(props, b)[k] == props[k]
  {
    forall s | 0 <= s < Size(b)
      ensures IntToString(s) in StoredProps(props, b) && StoredProps(props, b)[IntToString(s)] == LabelsBySlot(b)[s]
    {
      StoredSlot(props, b, s);
    }
    OrderContained(b);
    var written := WriteLabels(props, b, Order(b));
    assert StoredProps(props, b) == DropStale(written, Size(b));
    forall k | k in props && !IsDecimal(k)
      ensures k in StoredProps(props, b) && StoredProps(props, b)[k] == props[k]
    {
      assert k in written;
    }
  }

  /**
   * `storeToJcr` on the labels node: the slot properties, the stale slot names
   * removed, the eviction order (least recent first) and the limit.
   */
  function Serialise(node: LabelsNode, b: IndexedBuffer<string>): (r: LabelsNode)
    requires Valid(b)
    ensures r.evictionOrder == Some(Order(b)) && r.bufferLimit == Some(b.limit as int)
    ensures forall s :: 0 <= s < Size(b) ==>
      IntToString(s) in r.props && r.props[IntToString(s)] == LabelsBySlot(b)[s]
    ensures forall k :: k in r.props ==> k in node.props || IsSlotName(k, Size(b))
    ensures forall k :: k in node.props && !IsDecimal(k) ==> k in r.props && r.props[k] == node.props[k]
  {
    StoredPropsFacts(node.props, b);
    LabelsNode(StoredProps(node.props, b), Some(Order(b)), Some(b.limit))
  }

  /** Serialising keeps a node in shape, and leaves no numeric name beyond the buffer's size. */
  lemma SerialiseShaped(node: LabelsNode, b: IndexedBuffer<string>)
    requires Valid(b) && Shaped(node.props)
    ensures Shaped(Serialise(node, b).props)
    ensures forall k :: k in Serialise(node, b).props && IsNumeric(k) ==> IsSlotName(k, Size(b))
  {
    var n := Size(b);
    var order := Order(b);
    OrderContained(b);
    var written := WriteLabels(node.props, b, order);
    forall k, v | k in written && Canonical(k) && NumericKey(k) >= n && n <= v < NumericKey(k)
      ensures IntToString(v) in written
    {
      assert k in node.props;
      assert IntToString(v) in node.props;
      CanonicalName(v);
    }
    assert Contiguous(written, n);
    var r := Serialise(node, b).props;
    assert r == StoredProps(node.props, b) == DropStale(written, n);
    forall k | k in r && IsNumeric(k)
      ensures IsSlotName(k, n)
    {
      assert k in written;
    }
  }

  // ---------------------------------------------------------------------------
  // getLabels
  // ---------------------------------------------------------------------------

  /** The filter of `getLabels`: the names `Integer.parseInt` accepts, in enumeration order. */
  function NumericNames(names: seq<string>): (r: seq<string>)
    ensures forall k :: k in r <==> k in names && IsNumeric(k)
    ensures Distinct(names) ==> Distinct(r)
    ensures forall i :: 0 <= i < |r| ==> IsNumeric(r[i])
  {
    if |names| == 0 then []
    else
      var rest := NumericNames(names[1..]);
      assert forall k :: k in names[1..] ==> k in names;
      if IsNumeric(names[0]) then [names[0]] + rest else rest
  }

  /** The filter keeps the enumeration order: filtering a concatenation concatenates the filtered parts. */
  lemma {:induction false} NumericNamesAppend(a: seq<string>, b: seq<string>)
    ensures NumericNames(a + b) == NumericNames(a) + NumericNames(b)
    decreases |a|
  {
    if |a| > 0 {
      TailOfAppend(a, b);
      NumericNamesCons(a + b);
      NumericNamesCons(a);
      NumericNamesAppend(a[1..], b);
      ConcatAssoc(if IsNumeric(a[0]) then [a[0]] else [], NumericNames(a[1..]), NumericNames(b));
    } else {
      assert a + b == b;
    }
  }

  /** The filter takes the first name, if numeric, in front of the filtered rest. */
  lemma NumericNamesCons(names: seq<string>)
    requires |names| > 0
    ensures NumericNames(names) == (if IsNumeric(names[0]) then [names[0]] else []) + NumericNames(names[1..])
  {
  }

  /** A single name is kept exactly when it is numeric. */
  lemma NumericNamesSingle(x: string)
    ensures NumericNames([x]) == (if IsNumeric(x) then [x] else [])
  {
    assert [x][1..] == [];
  }

  /** The numeric names sorted by their number, keeping enumeration order among equal numbers. */
  function SortedNames(names: seq<string>): (r: seq<string>)
    ensures Sorting.SortedBy(r, NumericKey)
    ensures multiset(r) == multiset(NumericNames(names))
    ensures forall k :: k in r <==> k in names && IsNumeric(k)
    ensures Distinct(names) ==> Distinct(r)
    ensures forall v :: Sorting.WithKey(r, NumericKey, v) == Sorting.WithKey(NumericNames(names), NumericKey, v)
  {
    var numeric := NumericNames(names);
    var r := Sorting.SortBy(numeric, NumericKey);
    assert forall k :: k in r <==> k in multiset(r);
    assert Distinct(names) ==> Distinct(r) by {
      if Distinct(names) {
        DistinctPermutation(numeric, r);
      }
    }
    r
  }

  /** The labels in the order of their property numbers. */
  function ParsedLabels(node: LabelsNode, names: seq<string>): (labels: seq<string>)
    requires forall k :: k in names ==> k in node.props
    ensures |labels| == |SortedNames(names)|
    ensures forall i :: 0 <= i < |labels| ==> labels[i] == node.props[SortedNames(names)[i]]
  {
    var sorted := SortedNames(names);
    seq(|sorted|, i requires 0 <= i < |sorted| => node.props[sorted[i]])
  }

  /**
   * `getLabels`: the labels ordered by property number, the eviction order
   * (empty when absent) and the limit narrowed to an `int`, rebuilt into a
   * buffer. A missing limit, or one that narrows to less than 1, is an error.
   */
  function Parse(node: LabelsNode, names: seq<string>): (r: Result<IndexedBuffer<string>, string>)
    requires Distinct(names) && forall k :: k in names <==> k in node.props
    ensures r.Failure? <==> node.bufferLimit.None? || JavaArith.WrapInt(node.bufferLimit.value) < 1
    ensures r.Success? ==> WellFormed(r.value) && r.value.limit == JavaArith.WrapInt(node.bufferLimit.value)
    ensures r.Success? && Distinct(ParsedLabels(node, names)) && |ParsedLabels(node, names)| <= r.value.limit ==>
      && Valid(r.value)
      && forall i :: 0 <= i < |SortedNames(names)| ==> SlotOf(r.value, ParsedLabels(node, names)[i]) == Some(i)
  {
    var labels := ParsedLabels(node, names);
    var evictionOrder := node.evictionOrder.GetOr([]);
    match node.bufferLimit
    case None => Failure("property bufferLimit not found")
    case Some(limit) =>
      var bufferLimit := JavaArith.WrapInt(limit);
      if bufferLimit < 1 then Failure("buffer limit must be greater than 0")
      else
        Success(FromSnapshot(bufferLimit, labels, evictionOrder))
  }

  // ---------------------------------------------------------------------------
  // Round trip
  // ---------------------------------------------------------------------------

  /** Names of slots below `n` sorted by number, each slot named once: the sort is strict. */
  predicate SortedSlotNames(s: seq<string>, n: int) {
    && Sorting.SortedBy(s, NumericKey)
    && Distinct(s)
    && (forall i :: 0 <= i < |s| ==> IsSlotName(s[i], n))
  }

  lemma StrictlyIncreasing(s: seq<string>, n: int, i: int, j: int)
    requires SortedSlotNames(s, n) && 0 <= i < j < |s|
    ensures NumericKey(s[i]) < NumericKey(s[j])
  {
  }

  /** The i-th of the sorted slot names is numbered at least i. */
  lemma {:induction false} SlotNamesAtLeast(s: seq<string>, n: int, i: int)
    requires SortedSlotNames(s, n) && 0 <= i < |s|
    ensures NumericKey(s[i]) >= i
    decreases i
  {
    if i > 0 {
      SlotNamesAtLeast(s, n, i - 1);
      StrictlyIncreasing(s, n, i - 1, i);
    }
  }

  /** When every slot name below `n` occurs, the i-th sorted one is slot i. */
  lemma {:induction false} SlotNamesAt(s: seq<string>, n: int, i: int)
    requires SortedSlotNames(s, n)
    requires forall v :: 0 <= v < n ==> IntToString(v) in s
    requires 0 <= i < n <= JavaArith.MaxInt
    ensures i < |s| && NumericKey(s[i]) == i
    decreases i
  {
    CanonicalName(i);
    var p :| 0 <= p < |s| && s[p] == IntToString(i);
    if i > 0 {
      SlotNamesAt(s, n, i - 1);
      assert forall j :: 0 <= j < i - 1 ==> NumericKey(s[j]) <= NumericKey(s[i - 1]);
      assert p >= i;
      StrictlyIncreasing(s, n, i - 1, i);
    }
    if i < p {
      assert NumericKey(s[i]) <= NumericKey(s[p]);
    }
  }

  /** Sorted slot names that cover 0 .. n-1 are exactly "0", "1", ..., in that order. */
  lemma SlotNamesExactly(s: seq<string>, n: int)
    requires SortedSlotNames(s, n)
    requires forall v :: 0 <= v < n ==> IntToString(v) in s
    requires 0 <= n <= JavaArith.MaxInt
    ensures |s| == n && forall i :: 0 <= i < n ==> s[i] == IntToString(i)
  {
    if n > 0 {
      SlotNamesAt(s, n, n - 1);
    }
    if |s| > n {
      SlotNamesAtLeast(s, n, n);
    }
    forall i | 0 <= i < n ensures s[i] == IntToString(i) {
      SlotNamesAt(s, n, i);
    }
  }

  /**
   * Reading back what was stored gives the same buffer: the same keys in the
   * same slots, the same recency order and the same limit, whatever order the
   * repository enumerates the properties in, provided the node was in shape
   * (as every node the serialiser writes is).
   */
  lemma {:induction false} StoreThenLoad(node: LabelsNode, b: IndexedBuffer<string>, names: seq<string>)
    requires Valid(b) && Shaped(node.props)
    requires Distinct(names) && forall k :: k in names <==> k in Serialise(node, b).props
    ensures Parse(Serialise(node, b), names) == Success(b)
  {
    StoredLabels(node, b, names);
    SnapshotRoundTrip(b);
  }

  lemma StoredLabels(node: LabelsNode, b: IndexedBuffer<string>, names: seq<string>)
    requires Valid(b) && Shaped(node.props)
    requires Distinct(names) && forall k :: k in names <==> k in Serialise(node, b).props
    ensures ParsedLabels(Serialise(node, b), names) == LabelsBySlot(b)
  {
    StoredNamesSorted(node, b, names);
  }

  /** The numeric names of a stored node, sorted, are the slot names in slot order. */
  lemma StoredNamesSorted(node: LabelsNode, b: IndexedBuffer<string>, names: seq<string>)
    requires Valid(b) && Shaped(node.props)
    requires Distinct(names) && forall k :: k in names <==> k in Serialise(node, b).props
    ensures |SortedNames(names)| == Size(b)
    ensures forall i :: 0 <= i < Size(b) ==> SortedNames(names)[i] == IntToString(i)
  {
    var stored := Serialise(node, b);
    var n := Size(b);
    SerialiseShaped(node, b);
    var sorted := SortedNames(names);
    forall i | 0 <= i < |sorted| ensures IsSlotName(sorted[i], n) {
      assert sorted[i] in names;
    }
    forall v | 0 <= v < n ensures IntToString(v) in sorted {
      CanonicalName(v);
      assert IntToString(v) in stored.props;
    }
    SlotNamesExactly(sorted, n);
  }

  // ---------------------------------------------------------------------------
  // Other facts about getLabels
  // ---------------------------------------------------------------------------

  lemma ExampleNames()
    ensures NumericKey("10") == 10 && NumericKey("9") == 9
    ensures NumericNames(["10", "9", EvictionOrderProperty]) == ["10", "9"]
  {
    assert ParseInt("10") == Some(10) by {
      assert AllDigits("10") && "10"[..1] == "1" && "1"[..0] == "";
      assert DigitsValue("1") == 1;
      assert DigitsValue("10") == 10;
    }
    assert ParseInt("9") == Some(9);
    assert ParseInt(EvictionOrderProperty) == None;
    var names := ["10", "9", EvictionOrderProperty];
    assert names[1..] == ["9", EvictionOrderProperty];
    assert names[1..][1..] == [EvictionOrderProperty];
    assert names[1..][1..][1..] == [];
    assert NumericNames(names[1..][1..]) == [];
    assert NumericNames(names[1..]) == ["9"];
  }

  /** Property "10" sorts after property "9": labels are ordered by number, not by name. */
  lemma NumericOrderExample()
    ensures SortedNames(["10", "9", EvictionOrderProperty]) == ["9", "10"]
  {
    ExampleNames();
    var r := SortedNames(["10", "9", EvictionOrderProperty]);
    assert multiset(r) == multiset(["10", "9"]);
    assert |r| == 2;
    assert r[0] in multiset(r) && r[1] in multiset(r);
    assert Distinct(r);
    assert NumericKey(r[0]) <= NumericKey(r[1]);
  }

  /**
   * A property whose name is not a number, wherever the repository enumerates
   * it, changes nothing in what is read back.
   */
  lemma ParseIgnoresOtherProperties(node: LabelsNode, names: seq<string>, p: nat, k: string, v: string)
    requires Distinct(names) && forall x :: x in names <==> x in node.props
    requires p <= |names| && !IsNumeric(k) && k !in node.props
    ensures Distinct(names[..p] + [k] + names[p..])
    ensures forall x :: x in names[..p] + [k] + names[p..] <==> x in node.props[k := v]
    ensures Parse(node.(props := node.props[k := v]), names[..p] + [k] + names[p..]) == Parse(node, names)
  {
    var extended := names[..p] + [k] + names[p..];
    InsertedNameDistinct(names, p, k);
    assert NumericNames(extended) == NumericNames(names) by {
      NumericNamesSkip(names[..p], k, names[p..]);
      assert names[..p] + names[p..] == names;
    }
    assert SortedNames(extended) == SortedNames(names);
    var node2 := node.(props := node.props[k := v]);
    assert ParsedLabels(node2, extended) == ParsedLabels(node, names);
  }

  /** Inserting a new name into an enumeration keeps it repetition-free. */
  lemma InsertedNameDistinct(names: seq<string>, p: nat, k: string)
    requires Distinct(names) && p <= |names| && k !in names
    ensures Distinct(names[..p] + [k] + names[p..])
    ensures forall x :: x in names[..p] + [k] + names[p..] <==> x in names || x == k
  {
    var extended := names[..p] + [k] + names[p..];
    assert names == names[..p] + names[p..];
    forall i, j | 0 <= i < j < |extended| ensures extended[i] != extended[j] {
      if i < p && j > p {
        assert extended[j] == names[j - 1];
      } else if i > p {
        assert extended[i] == names[i - 1] && extended[j] == names[j - 1];
      }
    }
  }

  /** The filter drops a non-numeric name wherever it stands. */
  lemma {:induction false} NumericNamesSkip(a: seq<string>, k: string, c: seq<string>)
    requires !IsNumeric(k)
    ensures NumericNames(a + [k] + c) == NumericNames(a + c)
    decreases |a|
  {
    if |a| == 0 {
      assert (a + [k] + c)[0] == k && (a + [k] + c)[1..] == c && a + c == c;
    } else {
      assert (a + [k] + c)[0] == a[0] && (a + [k] + c)[1..] == a[1..] + [k] + c;
      assert (a + c)[0] == a[0] && (a + c)[1..] == a[1..] + c;
      NumericNamesSkip(a[1..], k, c);
    }
  }

  /**
   * Without a stored eviction order the recency order is the slot order: the
   * first label is the next one to be evicted.
   */
  lemma MissingEvictionOrder(node: LabelsNode, names: seq<string>)
    requires Distinct(names) && forall x :: x in names <==> x in node.props
    requires node.evictionOrder.None? && node.bufferLimit.Some?
    requires 1 <= JavaArith.WrapInt(node.bufferLimit.value)
    requires Distinct(ParsedLabels(node, names))
    requires |ParsedLabels(node, names)| <= JavaArith.WrapInt(node.bufferLimit.value)
    ensures Parse(node, names).Success?
    ensures Order(Parse(node, names).value) == ParsedLabels(node, names)
  {
    var labels := ParsedLabels(node, names);
    PutLabelsIndexed(JavaArith.WrapInt(node.bufferLimit.value), labels);
  }
}
