/**
 * `IndexedBuffer`: a fixed-capacity map from keys to stable slots with
 * least-recently-used eviction, built on an Apache `LRUMap`.
 *
 * The buffer is a sequence of (key, slot) entries listed from least to most
 * recently used, which is the iteration order of the underlying `LRUMap`
 * (both `asList` and `evictionOrder` walk it). Slots are handed out
 * 0, 1, 2, ... until the buffer is full; after that the least recently used
 * key is evicted and its slot goes to the new key.
 */
module LruBuffer {
  import opened Wrappers
  import opened Seqs
  import JavaArith

  datatype IndexedBuffer<K> = IndexedBuffer(limit: nat, entries: seq<(K, nat)>)

  /** What `add` returns: the new buffer and the slot that was recycled, if any. */
  datatype AddResult<K> = AddResult(buffer: IndexedBuffer<K>, evicted: Option<nat>)

  // ---------------------------------------------------------------------------
  // Sequence helpers

  /** `s` with the element at `i` taken out. */
  function Without<T>(s: seq<T>, i: nat): (r: seq<T>)
    requires i < |s|
    ensures |r| == |s| - 1
    ensures forall j :: 0 <= j < i ==> r[j] == s[j]
    ensures forall j :: i <= j < |r| ==> r[j] == s[j + 1]
  {
    s[..i] + s[i + 1..]
  }

  function Keys<K>(e: seq<(K, nat)>): seq<K> {
    seq(|e|, i requires 0 <= i < |e| => e[i].0)
  }

  predicate DistinctKeys<K(==)>(e: seq<(K, nat)>) {
    forall i, j :: 0 <= i < j < |e| ==> e[i].0 != e[j].0
  }

  predicate DistinctSlots<K>(e: seq<(K, nat)>) {
    forall i, j :: 0 <= i < j < |e| ==> e[i].1 != e[j].1
  }

  function SlotSet<K>(e: seq<(K, nat)>): set<nat> {
    set i | 0 <= i < |e| :: e[i].1
  }

  /** The slots in use are exactly 0 .. n-1. */
  predicate SlotsExactly<K>(e: seq<(K, nat)>, n: nat) {
    && (forall s :: s in SlotSet(e) ==> s < n)
    && (forall s: nat :: s < n ==> s in SlotSet(e))
  }

  /** Index of the entry for `k`, or -1: the hash lookup of the `LRUMap`. */
  function Position<K(==)>(e: seq<(K, nat)>, k: K): (p: int)
    ensures -1 <= p < |e|
    ensures 0 <= p ==> e[p].0 == k
    ensures p == -1 <==> forall j :: 0 <= j < |e| ==> e[j].0 != k
    ensures DistinctKeys(e) ==> forall j :: 0 <= j < |e| && e[j].0 == k ==> p == j
  {
    if |e| == 0 then -1
    else if e[0].0 == k then 0
    else
      var p := Position(e[1..], k);
      if p < 0 then -1 else p + 1
  }

  // ---------------------------------------------------------------------------
  // Invariants

  /** What the `LRUMap` guarantees by itself: a positive `int` capacity, never exceeded, and unique keys. */
  predicate WellFormed<K(==)>(b: IndexedBuffer<K>) {
    && 1 <= b.limit <= JavaArith.MaxInt
    && |b.entries| <= b.limit
    && DistinctKeys(b.entries)
  }

  /** The buffer invariant: in addition, the slots in use are exactly 0 .. size-1, each once. */
  predicate Valid<K(==)>(b: IndexedBuffer<K>) {
    && WellFormed(b)
    && DistinctSlots(b.entries)
    && SlotsExactly(b.entries, |b.entries|)
  }

  // ---------------------------------------------------------------------------
  // Queries (none of them changes recency)

  /** `new IndexedBuffer<>(limit)`. */
  function Empty<K>(limit: nat): IndexedBuffer<K> {
    IndexedBuffer(limit, [])
  }

  /** `size()`. */
  function Size<K>(b: IndexedBuffer<K>): nat {
    |b.entries|
  }

  /** `asList()` and `evictionOrder()`: the keys from least to most recently used. */
  function Order<K>(b: IndexedBuffer<K>): seq<K> {
    Keys(b.entries)
  }

  /** `contains(k)`. */
  predicate Contains<K(==)>(b: IndexedBuffer<K>, k: K) {
    Position(b.entries, k) >= 0
  }

  /** The slot of `k`, if present. */
  function SlotOf<K(==)>(b: IndexedBuffer<K>, k: K): Option<nat> {
    var p := Position(b.entries, k);
    if p < 0 then None else Some(b.entries[p].1)
  }

  /** `indexOf(k)`: the slot of `k`, or -1 when `k` is absent. */
  function IndexOf<K(==)>(b: IndexedBuffer<K>, k: K): (r: int)
    ensures r == -1 <==> !Contains(b, k)
    ensures r >= 0 ==> exists j :: 0 <= j < |b.entries| && b.entries[j] == (k, r)
    ensures Valid(b) ==> -1 <= r < Size(b)
  {
    match SlotOf(b, k)
    case Some(s) =>
      assert s in SlotSet(b.entries);
      s
    case None => -1
  }

  lemma SlotOfAt<K>(b: IndexedBuffer<K>, j: int)
    requires DistinctKeys(b.entries) && 0 <= j < |b.entries|
    ensures SlotOf(b, b.entries[j].0) == Some(b.entries[j].1)
  {
  }

  lemma SlotOfAbsent<K>(b: IndexedBuffer<K>, k: K)
    requires forall j :: 0 <= j < |b.entries| ==> b.entries[j].0 != k
    ensures SlotOf(b, k) == None && !Contains(b, k)
  {
  }

  /** Distinct keys of a valid buffer have distinct slots. */
  lemma IndexOfInjective<K>(b: IndexedBuffer<K>, k1: K, k2: K)
    requires Valid(b) && Contains(b, k1) && Contains(b, k2)
    requires IndexOf(b, k1) == IndexOf(b, k2)
    ensures k1 == k2
  {
    var p1 := Position(b.entries, k1);
    var p2 := Position(b.entries, k2);
    assert b.entries[p1].1 == b.entries[p2].1;
  }

  lemma ContainsIsInOrder<K>(b: IndexedBuffer<K>, k: K)
    ensures Contains(b, k) <==> k in Order(b)
  {
    if k in Order(b) {
      var j :| 0 <= j < |Order(b)| && Order(b)[j] == k;
      assert b.entries[j].0 == k;
    }
    if Contains(b, k) {
      assert Order(b)[Position(b.entries, k)] == k;
    }
  }

  // ---------------------------------------------------------------------------
  // LRUMap primitives

  /** `LRUMap.get(k)`, used by `touch`: a present key becomes most recently used; nothing else changes. */
  function Touch<K(==)>(b: IndexedBuffer<K>, k: K): (r: IndexedBuffer<K>)
    ensures r.limit == b.limit && Size(r) == Size(b)
  {
    var p := Position(b.entries, k);
    if p < 0 then b else b.(entries := Without(b.entries, p) + [b.entries[p]])
  }

  /**
   * `LRUMap.put(k, v)`: a present key gets the new value and becomes most
   * recently used; an absent key is appended, evicting the least recently
   * used entry first when the map is full.
   */
  function Put<K(==)>(b: IndexedBuffer<K>, k: K, v: nat): (r: IndexedBuffer<K>)
    requires WellFormed(b)
    ensures WellFormed(r) && r.limit == b.limit
    ensures !Contains(b, k) && |b.entries| < b.limit ==> r.entries == b.entries + [(k, v)]
  {
    var e := b.entries;
    var p := Position(e, k);
    var r :=
      if p >= 0 then b.(entries := Without(e, p) + [(k, v)])
      else if |e| >= b.limit then b.(entries := e[1..] + [(k, v)])
      else b.(entries := e + [(k, v)]);
    assert forall j :: 0 <= j < |r.entries| - 1 ==> r.entries[j] in e;
    r
  }

  // ---------------------------------------------------------------------------
  // IndexedBuffer operations

  /**
   * `add(item)`, as written: no membership check. Below capacity the item
   * takes slot `size()`; at capacity the least recently used key is removed
   * and the item takes its slot, which is returned.
   */
  function Add<K(==)>(b: IndexedBuffer<K>, item: K): (r: AddResult<K>)
    requires WellFormed(b)
    ensures WellFormed(r.buffer) && r.buffer.limit == b.limit
    ensures r.evicted.None? <==> Size(b) < b.limit
  {
    if |b.entries| < b.limit then AddResult(Put(b, item, |b.entries|), None)
    else
      var lru := b.entries[0].0;
      var slot := b.entries[0].1;
      var removed := b.(entries := Without(b.entries, Position(b.entries, lru)));
      AddResult(Put(removed, item, slot), Some(slot))
  }

  /** Below capacity, adding a new item gives it slot `size()`, grows the buffer by one and evicts nothing. */
  lemma AddBelowCapacity<K>(b: IndexedBuffer<K>, item: K)
    requires Valid(b) && !Contains(b, item) && Size(b) < b.limit
    ensures Add(b, item).evicted == None
    ensures SlotOf(Add(b, item).buffer, item) == Some(Size(b))
    ensures Size(Add(b, item).buffer) == Size(b) + 1
    ensures Order(Add(b, item).buffer) == Order(b) + [item]
    ensures forall k :: k != item ==> SlotOf(Add(b, item).buffer, k) == SlotOf(b, k)
  {
    var r := Add(b, item).buffer;
    assert r.entries == b.entries + [(item, Size(b))];
    SlotOfAt(r, Size(b));
    forall k | k != item ensures SlotOf(r, k) == SlotOf(b, k) {
      var p := Position(b.entries, k);
      if p >= 0 {
        SlotOfAt(b, p);
        SlotOfAt(r, p);
      } else {
        SlotOfAbsent(r, k);
      }
    }
  }

  /**
   * At capacity, adding a new item evicts the least recently used key and
   * hands its slot to the item; the size and every other key's slot stay.
   */
  /** One instance of `AddBelowCapacity`: any other key keeps its slot. */
  lemma AddBelowCapacityKeeps<K>(b: IndexedBuffer<K>, item: K, k: K)
    requires Valid(b) && !Contains(b, item) && Size(b) < b.limit
    ensures k != item ==> SlotOf(Add(b, item).buffer, k) == SlotOf(b, k)
  {
    AddBelowCapacity(b, item);
  }

  lemma AddAtCapacity<K>(b: IndexedBuffer<K>, item: K)
    requires Valid(b) && !Contains(b, item) && Size(b) == b.limit
    ensures Add(b, item).evicted == SlotOf(b, Order(b)[0])
    ensures SlotOf(Add(b, item).buffer, item) == Add(b, item).evicted
    ensures !Contains(Add(b, item).buffer, Order(b)[0])
    ensures Size(Add(b, item).buffer) == Size(b)
    ensures Order(Add(b, item).buffer) == Order(b)[1..] + [item]
    ensures forall k :: k != item && k != Order(b)[0] ==> SlotOf(Add(b, item).buffer, k) == SlotOf(b, k)
  {
    var e := b.entries;
    var r := Add(b, item).buffer;
    assert Position(e, e[0].0) == 0;
    var removed := b.(entries := Without(e, 0));
    assert !Contains(removed, item) by {
      forall j | 0 <= j < |removed.entries| ensures removed.entries[j].0 != item {
        assert removed.entries[j] == e[j + 1];
      }
    }
    assert r.entries == e[1..] + [(item, e[0].1)];
    SlotOfAt(b, 0);
    SlotOfAt(r, |r.entries| - 1);
    forall j | 0 <= j < |r.entries| ensures r.entries[j].0 != e[0].0 {
      if j < |r.entries| - 1 {
        assert r.entries[j] == e[j + 1];
      }
    }
    forall k | k != item && k != e[0].0 ensures SlotOf(r, k) == SlotOf(b, k) {
      var p := Position(e, k);
      if p >= 0 {
        assert p > 0;
        SlotOfAt(b, p);
        assert r.entries[p - 1] == e[p];
        SlotOfAt(r, p - 1);
      } else {
        SlotOfAbsent(r, k);
      }
    }
  }

  lemma SlotSetAppend<K>(e: seq<(K, nat)>, x: (K, nat))
    ensures SlotSet(e + [x]) == SlotSet(e) + {x.1}
  {
    var r := e + [x];
    forall s | s in SlotSet(r) ensures s in SlotSet(e) + {x.1} {
      var j :| 0 <= j < |r| && r[j].1 == s;
      if j < |e| {
        assert e[j].1 == s;
      }
    }
    forall s | s in SlotSet(e) + {x.1} ensures s in SlotSet(r) {
      if s == x.1 {
        assert r[|e|].1 == s;
      } else {
        var j :| 0 <= j < |e| && e[j].1 == s;
        assert r[j] == e[j];
      }
    }
  }

  lemma SlotSetWithout<K>(e: seq<(K, nat)>, p: nat)
    requires p < |e|
    ensures SlotSet(Without(e, p)) + {e[p].1} == SlotSet(e)
  {
    var w := Without(e, p);
    forall s | s in SlotSet(w) ensures s in SlotSet(e) {
      var j :| 0 <= j < |w| && w[j].1 == s;
      if j < p {
        assert e[j].1 == s;
      } else {
        assert e[j + 1].1 == s;
      }
    }
    assert e[p].1 in SlotSet(e);
    forall s | s in SlotSet(e) && s != e[p].1 ensures s in SlotSet(w) {
      var j :| 0 <= j < |e| && e[j].1 == s;
      if j < p {
        assert w[j].1 == s;
      } else {
        assert j > p && w[j - 1].1 == s;
      }
    }
  }

  /** Two key-unique entry lists holding the same (key, slot) pairs give every key the same slot. */
  lemma SameEntriesSameSlots<K>(b: IndexedBuffer<K>, r: IndexedBuffer<K>)
    requires DistinctKeys(b.entries) && DistinctKeys(r.entries)
    requires forall x :: x in b.entries <==> x in r.entries
    ensures forall k :: SlotOf(r, k) == SlotOf(b, k)
  {
    forall k ensures SlotOf(r, k) == SlotOf(b, k) {
      var p := Position(b.entries, k);
      if p >= 0 {
        SlotOfAt(b, p);
        assert b.entries[p] in r.entries;
        var q :| 0 <= q < |r.entries| && r.entries[q] == b.entries[p];
        SlotOfAt(r, q);
      } else {
        forall j | 0 <= j < |r.entries| ensures r.entries[j].0 != k {
          assert r.entries[j] in b.entries;
        }
        SlotOfAbsent(r, k);
      }
    }
  }

  /** `add` of an absent item keeps keys unique, the size within the limit and the slots exactly 0 .. size-1. */
  lemma AddPreservesValid<K>(b: IndexedBuffer<K>, item: K)
    requires Valid(b) && !Contains(b, item)
    ensures Valid(Add(b, item).buffer)
  {
    if Size(b) < b.limit {
      AddBelowLimitValid(b, item);
    } else {
      AddAtLimitValid(b, item);
    }
  }

  lemma AddBelowLimitValid<K>(b: IndexedBuffer<K>, item: K)
    requires Valid(b) && !Contains(b, item) && Size(b) < b.limit
    ensures Valid(Add(b, item).buffer)
  {
    var e := b.entries;
    assert Add(b, item).buffer.entries == e + [(item, |e|)];
    SlotSetAppend(e, (item, |e|));
    assert |e| !in SlotSet(e);
  }

  lemma AddAtLimitValid<K>(b: IndexedBuffer<K>, item: K)
    requires Valid(b) && !Contains(b, item) && Size(b) == b.limit
    ensures Valid(Add(b, item).buffer)
  {
    var e := b.entries;
    var r := Add(b, item).buffer;
    assert Position(e, e[0].0) == 0;
    var removed := b.(entries := Without(e, 0));
    assert !Contains(removed, item) by {
      forall j | 0 <= j < |removed.entries| ensures removed.entries[j].0 != item {
        assert removed.entries[j] == e[j + 1];
      }
    }
    var w := Without(e, 0);
    assert r.entries == w + [(item, e[0].1)];
    SlotSetAppend(w, (item, e[0].1));
    SlotSetWithout(e, 0);
    assert DistinctSlots(r.entries) by {
      forall i, j | 0 <= i < j < |r.entries| ensures r.entries[i].1 != r.entries[j].1 {
        assert r.entries[i] == e[i + 1];
        if j < |r.entries| - 1 {
          assert r.entries[j] == e[j + 1];
        }
      }
    }
  }

  /** The entries after `touch(k)` of a present key: the old entry at position `j` of the result. */
  function TouchSource(p: nat, n: nat, j: nat): nat {
    if j == n - 1 then p else if j < p then j else j + 1
  }

  lemma TouchEntries<K>(b: IndexedBuffer<K>, k: K)
    requires Contains(b, k)
    ensures forall j :: 0 <= j < |b.entries| ==>
      TouchSource(Position(b.entries, k), |b.entries|, j) < |b.entries| &&
      Touch(b, k).entries[j] == b.entries[TouchSource(Position(b.entries, k), |b.entries|, j)]
  {
  }

  lemma TouchKeepsEntries<K>(b: IndexedBuffer<K>, k: K)
    requires Contains(b, k)
    ensures DistinctKeys(b.entries) ==> DistinctKeys(Touch(b, k).entries)
    ensures DistinctSlots(b.entries) ==> DistinctSlots(Touch(b, k).entries)
    ensures forall x :: x in b.entries <==> x in Touch(b, k).entries
  {
    TouchKeepsKeys(b, k);
    TouchKeepsSlots(b, k);
    TouchKeepsMembers(b, k);
  }

  lemma TouchKeepsKeys<K>(b: IndexedBuffer<K>, k: K)
    requires Contains(b, k)
    ensures DistinctKeys(b.entries) ==> DistinctKeys(Touch(b, k).entries)
  {
    var e := b.entries;
    var p := Position(e, k);
    var r := Touch(b, k).entries;
    TouchEntries(b, k);
    if DistinctKeys(e) {
      forall i, j | 0 <= i < j < |r| ensures r[i].0 != r[j].0 {
        assert TouchSource(p, |e|, i) != TouchSource(p, |e|, j);
      }
    }
  }

  lemma TouchKeepsSlots<K>(b: IndexedBuffer<K>, k: K)
    requires Contains(b, k)
    ensures DistinctSlots(b.entries) ==> DistinctSlots(Touch(b, k).entries)
  {
    var e := b.entries;
    var p := Position(e, k);
    var r := Touch(b, k).entries;
    TouchEntries(b, k);
    if DistinctSlots(e) {
      forall i, j | 0 <= i < j < |r| ensures r[i].1 != r[j].1 {
        assert TouchSource(p, |e|, i) != TouchSource(p, |e|, j);
      }
    }
  }

  lemma TouchKeepsMembers<K>(b: IndexedBuffer<K>, k: K)
    requires Contains(b, k)
    ensures forall x :: x in b.entries <==> x in Touch(b, k).entries
  {
    var e := b.entries;
    var p := Position(e, k);
    var r := Touch(b, k).entries;
    TouchEntries(b, k);
    forall x | x in e ensures x in r {
      var i :| 0 <= i < |e| && e[i] == x;
      var j := if i == p then |e| - 1 else if i < p then i else i - 1;
      assert TouchSource(p, |e|, j) == i;
    }
  }

  lemma TouchWellFormed<K>(b: IndexedBuffer<K>, k: K)
    ensures WellFormed(b) ==> WellFormed(Touch(b, k))
  {
    if Contains(b, k) {
      TouchKeepsEntries(b, k);
    }
  }

  /** `touch(k)`: a present key moves to most recently used, no slot changes; an absent key changes nothing. */
  lemma TouchMovesToMostRecent<K>(b: IndexedBuffer<K>, k: K)
    requires Valid(b)
    ensures Valid(Touch(b, k))
    ensures forall x :: SlotOf(Touch(b, k), x) == SlotOf(b, x)
    ensures Contains(b, k) ==> Order(Touch(b, k)) == Without(Order(b), Position(b.entries, k)) + [k]
    ensures !Contains(b, k) ==> Touch(b, k) == b
  {
    var e := b.entries;
    var p := Position(e, k);
    if p >= 0 {
      var r := Touch(b, k);
      TouchKeepsEntries(b, k);
      SlotSetAppend(Without(e, p), e[p]);
      SlotSetWithout(e, p);
      assert SlotSet(r.entries) == SlotSet(e);
      SameEntriesSameSlots(b, r);
    }
  }

  /** `addAll(items)`: `add` for each item in turn, with no membership check. */
  function AddAll<K(==)>(b: IndexedBuffer<K>, items: seq<K>): (r: IndexedBuffer<K>)
    requires WellFormed(b)
    ensures WellFormed(r) && r.limit == b.limit
    decreases |items|
  {
    if |items| == 0 then b else AddAll(Add(b, items[0]).buffer, items[1..])
  }

  /**
   * Distinct items added to an empty buffer with room for all of them get
   * slots 0, 1, 2, ... in insertion order.
   */
  lemma {:induction false} AddAllAssignsSequentialSlots<K>(limit: nat, items: seq<K>)
    requires 1 <= limit <= JavaArith.MaxInt && |items| <= limit && Distinct(items)
    ensures Valid(AddAll(Empty(limit), items))
    ensures Order(AddAll(Empty(limit), items)) == items
    ensures forall i :: 0 <= i < |items| ==> SlotOf(AddAll(Empty(limit), items), items[i]) == Some(i)
  {
    AddAllFrom(Empty(limit), items);
  }

  lemma {:induction false} AddAllFrom<K>(b: IndexedBuffer<K>, items: seq<K>)
    requires Valid(b) && Size(b) + |items| <= b.limit && Distinct(items)
    requires forall i :: 0 <= i < |items| ==> !Contains(b, items[i])
    ensures Valid(AddAll(b, items))
    ensures Order(AddAll(b, items)) == Order(b) + items
    ensures forall j :: 0 <= j < Size(b) ==> SlotOf(AddAll(b, items), Order(b)[j]) == SlotOf(b, Order(b)[j])
    ensures forall i :: 0 <= i < |items| ==> SlotOf(AddAll(b, items), items[i]) == Some(Size(b) + i)
    decreases |items|
  {
    if |items| > 0 {
      var b1 := Add(b, items[0]).buffer;
      AddAllFirst(b, items);
      AddAllFrom(b1, items[1..]);
      AddAllStep(b, b1, AddAll(b1, items[1..]), items);
    }
  }

  /** The first item of `AddAllFrom`: the buffer after it meets the lemma's requirements for the rest. */
  lemma AddAllFirst<K>(b: IndexedBuffer<K>, items: seq<K>)
    requires Valid(b) && Size(b) + |items| <= b.limit && Distinct(items) && |items| > 0
    requires forall i :: 0 <= i < |items| ==> !Contains(b, items[i])
    ensures var b1 := Add(b, items[0]).buffer;
      && Valid(b1) && Size(b1) == Size(b) + 1 && b1.limit == b.limit
      && Order(b1) == Order(b) + [items[0]] && SlotOf(b1, items[0]) == Some(Size(b))
      && (forall j :: 0 <= j < Size(b) ==> SlotOf(b1, Order(b)[j]) == SlotOf(b, Order(b)[j]))
      && Distinct(items[1..])
      && (forall i :: 0 <= i < |items| - 1 ==> !Contains(b1, items[1..][i]))
  {
    var x := items[0];
    var rest := items[1..];
    var b1 := Add(b, x).buffer;
    assert Valid(b1) && Size(b1) == Size(b) + 1 && Order(b1) == Order(b) + [x] && SlotOf(b1, x) == Some(Size(b)) by {
      AddBelowCapacity(b, x);
      AddPreservesValid(b, x);
    }
    forall i | 0 <= i < |rest| ensures !Contains(b1, rest[i]) {
      assert rest[i] == items[i + 1] && rest[i] != x;
      AddBelowCapacityKeeps(b, x, rest[i]);
    }
    assert Distinct(rest);
    forall j | 0 <= j < Size(b) ensures SlotOf(b1, Order(b)[j]) == SlotOf(b, Order(b)[j]) {
      assert Order(b)[j] != x by {
        ContainsIsInOrder(b, x);
      }
      AddBelowCapacityKeeps(b, x, Order(b)[j]);
    }
  }

  /** The inductive step of `AddAllFrom`, stated over the buffers alone. */
  lemma AddAllStep<K>(b: IndexedBuffer<K>, b1: IndexedBuffer<K>, r: IndexedBuffer<K>, items: seq<K>)
    requires |items| > 0
    requires Size(b1) == Size(b) + 1 && Order(b1) == Order(b) + [items[0]] && SlotOf(b1, items[0]) == Some(Size(b))
    requires forall j :: 0 <= j < Size(b) ==> SlotOf(b1, Order(b)[j]) == SlotOf(b, Order(b)[j])
    requires Order(r) == Order(b1) + items[1..]
    requires forall j :: 0 <= j < Size(b1) ==> SlotOf(r, Order(b1)[j]) == SlotOf(b1, Order(b1)[j])
    requires forall i :: 0 <= i < |items| - 1 ==> SlotOf(r, items[1..][i]) == Some(Size(b1) + i)
    ensures Order(r) == Order(b) + items
    ensures forall j :: 0 <= j < Size(b) ==> SlotOf(r, Order(b)[j]) == SlotOf(b, Order(b)[j])
    ensures forall i :: 0 <= i < |items| ==> SlotOf(r, items[i]) == Some(Size(b) + i)
  {
    var rest := items[1..];
    assert Order(b) + items == Order(b1) + rest;
    forall j | 0 <= j < Size(b) ensures SlotOf(r, Order(b)[j]) == SlotOf(b, Order(b)[j]) {
      assert Order(b1)[j] == Order(b)[j];
    }
    forall i | 0 <= i < |items| ensures SlotOf(r, items[i]) == Some(Size(b) + i) {
      if i > 0 {
        assert rest[i - 1] == items[i];
      } else {
        assert Order(b1)[Size(b)] == items[0];
      }
    }
  }

  /** `add` behind the caller's `contains` filter: a no-op on a key already present, so the buffer invariant holds for every item. */
  function Insert<K(==)>(b: IndexedBuffer<K>, item: K): (r: AddResult<K>)
    requires WellFormed(b)
    ensures WellFormed(r.buffer) && r.buffer.limit == b.limit
    ensures Contains(r.buffer, item)
    ensures Valid(b) ==> Valid(r.buffer)
    ensures Contains(b, item) ==> r == AddResult(b, None)
    ensures !Contains(b, item) ==> r == Add(b, item)
  {
    if Contains(b, item) then AddResult(b, None)
    else
      var r := Add(b, item);
      var e := r.buffer.entries;
      assert e[|e| - 1].0 == item;
      if Valid(b) then AddPreservesValid(b, item); r else r
  }

  /**
   * `add` as written on a key that is already present, below capacity: the
   * key moves to slot `size()` while the size stays, so the slots are no
   * longer 0 .. size-1.
   */
  lemma AddPresentBreaksSlots<K>(b: IndexedBuffer<K>, item: K)
    requires Valid(b) && Contains(b, item) && Size(b) < b.limit
    ensures !Valid(Add(b, item).buffer)
    ensures Size(Add(b, item).buffer) == Size(b)
    ensures SlotOf(Add(b, item).buffer, item) == Some(Size(b))
  {
    var r := Add(b, item).buffer;
    var p := Position(b.entries, item);
    assert r.entries == Without(b.entries, p) + [(item, Size(b))];
    assert r.entries[|r.entries| - 1].1 in SlotSet(r.entries);
    SlotOfAt(r, |r.entries| - 1);
  }

  /** A concrete instance of the above: adding "a" twice to a buffer of capacity 2. */
  lemma AddTwiceExample()
    ensures Valid(Add(Empty<string>(2), "a").buffer)
    ensures !Valid(Add(Add(Empty<string>(2), "a").buffer, "a").buffer)
  {
    var b := Add(Empty<string>(2), "a").buffer;
    assert b.entries == [("a", 0)];
    assert b.entries[0].1 in SlotSet(b.entries);
    AddPresentBreaksSlots(b, "a");
  }

  /** Touching the first and then the second-oldest key of a five-key buffer. */
  lemma TouchTwoExample(b0: IndexedBuffer<string>)
    requires Valid(b0) && Order(b0) == ["alpha", "bravo", "charlie", "delta", "echo"]
    ensures Valid(Touch(Touch(b0, "alpha"), "charlie"))
    ensures Order(Touch(Touch(b0, "alpha"), "charlie")) == ["bravo", "delta", "echo", "alpha", "charlie"]
    ensures forall x :: SlotOf(Touch(Touch(b0, "alpha"), "charlie"), x) == SlotOf(b0, x)
  {
    assert Order(b0)[0] == "alpha";
    TouchMovesToMostRecent(b0, "alpha");
    var ta := Touch(b0, "alpha");
    assert Order(ta) == ["bravo", "charlie", "delta", "echo", "alpha"];
    assert Order(ta)[1] == "charlie";
    assert Position(ta.entries, "charlie") == 1;
    TouchMovesToMostRecent(ta, "charlie");
  }

  /** Adding two new keys to a full buffer of five whose two least recent keys are "bravo" and "delta". */
  lemma AddTwoExample(b1: IndexedBuffer<string>)
    requires Valid(b1) && b1.limit == 5
    requires Order(b1) == ["bravo", "delta", "echo", "alpha", "charlie"]
    ensures var b := AddAll(b1, ["foxtrot", "golf"]);
      && SlotOf(b, "foxtrot") == SlotOf(b1, "bravo") && SlotOf(b, "golf") == SlotOf(b1, "delta")
      && SlotOf(b, "alpha") == SlotOf(b1, "alpha") && SlotOf(b, "charlie") == SlotOf(b1, "charlie")
      && !Contains(b, "bravo") && !Contains(b, "delta")
  {
    AddAllTwo(b1, "foxtrot", "golf");
    EvictBravoExample(b1);
    EvictDeltaExample(Add(b1, "foxtrot").buffer);
  }

  /** The first add of `AddTwoExample`: "foxtrot" takes the slot of "bravo". */
  lemma EvictBravoExample(b1: IndexedBuffer<string>)
    requires Valid(b1) && b1.limit == 5
    requires Order(b1) == ["bravo", "delta", "echo", "alpha", "charlie"]
    ensures var b2 := Add(b1, "foxtrot").buffer;
      && Valid(b2) && b2.limit == 5 && Order(b2) == ["delta", "echo", "alpha", "charlie", "foxtrot"]
      && SlotOf(b2, "foxtrot") == SlotOf(b1, "bravo") && SlotOf(b2, "delta") == SlotOf(b1, "delta")
      && SlotOf(b2, "alpha") == SlotOf(b1, "alpha") && SlotOf(b2, "charlie") == SlotOf(b1, "charlie")
  {
    ContainsIsInOrder(b1, "foxtrot");
    AddAtCapacityFacts(b1, "foxtrot");
    AddAtCapacityKeeps(b1, "foxtrot", "delta");
    AddAtCapacityKeeps(b1, "foxtrot", "alpha");
    AddAtCapacityKeeps(b1, "foxtrot", "charlie");
  }

  /** The second add of `AddTwoExample`: "golf" takes the slot of "delta". */
  lemma EvictDeltaExample(b2: IndexedBuffer<string>)
    requires Valid(b2) && b2.limit == 5
    requires Order(b2) == ["delta", "echo", "alpha", "charlie", "foxtrot"]
    ensures var b := Add(b2, "golf").buffer;
      && SlotOf(b, "golf") == SlotOf(b2, "delta") && SlotOf(b, "foxtrot") == SlotOf(b2, "foxtrot")
      && SlotOf(b, "alpha") == SlotOf(b2, "alpha") && SlotOf(b, "charlie") == SlotOf(b2, "charlie")
      && !Contains(b, "bravo") && !Contains(b, "delta")
  {
    ContainsIsInOrder(b2, "golf");
    EvictDeltaGone(b2);
    AddAtCapacityKeeps(b2, "golf", "foxtrot");
    AddAtCapacityKeeps(b2, "golf", "alpha");
    AddAtCapacityKeeps(b2, "golf", "charlie");
  }

  /** After the second add neither evicted key is present. */
  lemma EvictDeltaGone(b2: IndexedBuffer<string>)
    requires Valid(b2) && b2.limit == 5
    requires Order(b2) == ["delta", "echo", "alpha", "charlie", "foxtrot"]
    ensures !Contains(b2, "golf")
    ensures SlotOf(Add(b2, "golf").buffer, "golf") == SlotOf(b2, "delta")
    ensures !Contains(Add(b2, "golf").buffer, "bravo") && !Contains(Add(b2, "golf").buffer, "delta")
  {
    ContainsIsInOrder(b2, "golf");
    ContainsIsInOrder(b2, "bravo");
    AddAtCapacityFacts(b2, "golf");
    AddAtCapacityKeeps(b2, "golf", "bravo");
  }

  /** Adding two items one after the other. */
  lemma AddAllTwo<K>(b: IndexedBuffer<K>, x: K, y: K)
    requires WellFormed(b)
    ensures AddAll(b, [x, y]) == Add(Add(b, x).buffer, y).buffer
  {
    var b1 := Add(b, x).buffer;
    assert AddAll(b, [x, y]) == AddAll(b1, [y]) by {
      assert [x, y][1..] == [y];
    }
    assert AddAll(b1, [y]) == AddAll(Add(b1, y).buffer, []) by {
      assert [y][1..] == [];
    }
  }

  /** `AddAtCapacity` and `AddPreservesValid` without the clause about the other keys. */
  lemma AddAtCapacityFacts<K>(b: IndexedBuffer<K>, item: K)
    requires Valid(b) && !Contains(b, item) && Size(b) == b.limit
    ensures Valid(Add(b, item).buffer)
    ensures SlotOf(Add(b, item).buffer, item) == SlotOf(b, Order(b)[0])
    ensures !Contains(Add(b, item).buffer, Order(b)[0])
    ensures Order(Add(b, item).buffer) == Order(b)[1..] + [item]
  {
    AddAtCapacity(b, item);
    AddPreservesValid(b, item);
  }

  /** One instance of the last clause of `AddAtCapacity`. */
  lemma AddAtCapacityKeeps<K>(b: IndexedBuffer<K>, item: K, k: K)
    requires Valid(b) && !Contains(b, item) && Size(b) == b.limit
    ensures k != item && k != Order(b)[0] ==> SlotOf(Add(b, item).buffer, k) == SlotOf(b, k)
    ensures !Contains(b, k) ==> !Contains(Add(b, item).buffer, k) || k == item
  {
    AddAtCapacity(b, item);
    if !Contains(b, k) && k != item {
      SlotOfAbsent(b, k);
    }
  }

  /**
   * Five items in a buffer of five, the first and third touched, then two
   * more added: the two untouched oldest items lose their slots to the new
   * ones, and the touched items keep theirs.
   */
  lemma LeastRecentlyUsedExample()
    ensures
      var b0 := AddAll(Empty<string>(5), ["alpha", "bravo", "charlie", "delta", "echo"]);
      var b1 := Touch(Touch(b0, "alpha"), "charlie");
      && WellFormed(b1)
      && (var b := AddAll(b1, ["foxtrot", "golf"]);
          && IndexOf(b, "alpha") == 0 && IndexOf(b, "foxtrot") == 1
          && IndexOf(b, "charlie") == 2 && IndexOf(b, "golf") == 3
          && !Contains(b, "bravo") && !Contains(b, "delta"))
  {
    var b0 := AddAll(Empty<string>(5), ["alpha", "bravo", "charlie", "delta", "echo"]);
    FiveAddedExample();
    var b1 := Touch(Touch(b0, "alpha"), "charlie");
    TouchTwoExample(b0);
    TouchTwoKeeps(b0, "alpha");
    TouchTwoKeeps(b0, "bravo");
    TouchTwoKeeps(b0, "charlie");
    TouchTwoKeeps(b0, "delta");
    AddTwoExample(b1);
  }

  /** The five items of `LeastRecentlyUsedExample` take slots 0 to 4 in order. */
  lemma FiveAddedExample()
    ensures var b0 := AddAll(Empty<string>(5), ["alpha", "bravo", "charlie", "delta", "echo"]);
      && Valid(b0) && b0.limit == 5 && Order(b0) == ["alpha", "bravo", "charlie", "delta", "echo"]
      && SlotOf(b0, "alpha") == Some(0) && SlotOf(b0, "bravo") == Some(1)
      && SlotOf(b0, "charlie") == Some(2) && SlotOf(b0, "delta") == Some(3)
  {
    var items := ["alpha", "bravo", "charlie", "delta", "echo"];
    AddAllAssignsSequentialSlots(5, items);
    assert items[0] == "alpha" && items[1] == "bravo" && items[2] == "charlie" && items[3] == "delta";
  }

  /** One instance of the last clause of `TouchTwoExample`. */
  lemma TouchTwoKeeps(b0: IndexedBuffer<string>, x: string)
    requires Valid(b0) && Order(b0) == ["alpha", "bravo", "charlie", "delta", "echo"]
    ensures SlotOf(Touch(Touch(b0, "alpha"), "charlie"), x) == SlotOf(b0, x)
  {
    TouchTwoExample(b0);
  }

  // ---------------------------------------------------------------------------
  // Rebuilding a buffer from a stored snapshot

  /** The labels paired with their positions: what `put(labels[i], i)` for each `i` yields when nothing is evicted. */
  function Indexed<K>(labels: seq<K>): seq<(K, nat)> {
    seq(|labels|, i requires 0 <= i < |labels| => (labels[i], i as nat))
  }

  /** The loop of the snapshot constructor: `put(labels[i], i)` for i = 0, 1, ... on a fresh map. */
  function PutLabels<K(==)>(limit: nat, labels: seq<K>): (r: IndexedBuffer<K>)
    requires 1 <= limit <= JavaArith.MaxInt
    ensures WellFormed(r) && r.limit == limit
    decreases |labels|
  {
    if |labels| == 0 then Empty(limit)
    else Put(PutLabels(limit, labels[..|labels| - 1]), labels[|labels| - 1], |labels| - 1)
  }

  /** Touching each key in turn, as `evictionOrder.forEach(map::get)` does. */
  function TouchAll<K(==)>(b: IndexedBuffer<K>, ks: seq<K>): (r: IndexedBuffer<K>)
    ensures r.limit == b.limit && Size(r) == Size(b)
    ensures WellFormed(b) ==> WellFormed(r)
    decreases |ks|
  {
    if |ks| == 0 then b
    else
      var prev := TouchAll(b, ks[..|ks| - 1]);
      TouchWellFormed(prev, ks[|ks| - 1]);
      Touch(prev, ks[|ks| - 1])
  }

  /**
   * The snapshot constructor `IndexedBuffer(limit, labels, evictionOrder)`:
   * the labels take slots 0, 1, ... in list order, then every key of the
   * eviction order is touched so that the last one becomes most recently used.
   */
  function FromSnapshot<K(==)>(limit: nat, labels: seq<K>, evictionOrder: seq<K>): (r: IndexedBuffer<K>)
    requires 1 <= limit <= JavaArith.MaxInt
    ensures WellFormed(r) && r.limit == limit
    ensures Distinct(labels) && |labels| <= limit ==>
      Valid(r) && forall i :: 0 <= i < |labels| ==> SlotOf(r, labels[i]) == Some(i)
  {
    var c := PutLabels(limit, labels);
    var r := TouchAll(c, evictionOrder);
    if Distinct(labels) && |labels| <= limit then
      PutLabelsIndexed(limit, labels);
      TouchAllKeepsSlots(c, evictionOrder);
      forall i | 0 <= i < |labels| ensures SlotOf(r, labels[i]) == Some(i) {
        SlotOfAt(c, i);
      }
      r
    else r
  }

  lemma IndexedValid<K>(limit: nat, labels: seq<K>)
    requires 1 <= limit <= JavaArith.MaxInt && |labels| <= limit && Distinct(labels)
    ensures Valid(IndexedBuffer(limit, Indexed(labels)))
  {
    var e := Indexed(labels);
    forall s: nat | s < |e| ensures s in SlotSet(e) {
      assert e[s].1 == s;
    }
  }

  /** Distinct labels that fit are stored in list order with slots 0 .. n-1. */
  lemma {:induction false} PutLabelsIndexed<K>(limit: nat, labels: seq<K>)
    requires 1 <= limit <= JavaArith.MaxInt && |labels| <= limit && Distinct(labels)
    ensures PutLabels(limit, labels).entries == Indexed(labels)
    ensures Valid(PutLabels(limit, labels))
    decreases |labels|
  {
    var n := |labels|;
    if n > 0 {
      assert Distinct(labels[..n - 1]);
      PutLabelsIndexed(limit, labels[..n - 1]);
      PutLabelsLast(limit, labels);
    }
    IndexedValid(limit, labels);
  }

  /** The last `put` appends the last label with the next slot, once the others are stored in order. */
  lemma PutLabelsLast<K>(limit: nat, labels: seq<K>)
    requires 1 <= limit <= JavaArith.MaxInt && 0 < |labels| <= limit && Distinct(labels)
    requires PutLabels(limit, labels[..|labels| - 1]).entries == Indexed(labels[..|labels| - 1])
    ensures PutLabels(limit, labels).entries == Indexed(labels)
  {
    var n := |labels|;
    var prev := PutLabels(limit, labels[..n - 1]);
    IndexedAbsent(prev, labels);
    IndexedSnoc(labels);
  }

  /** A buffer holding the earlier labels in order does not hold the last one. */
  lemma IndexedAbsent<K>(b: IndexedBuffer<K>, labels: seq<K>)
    requires 0 < |labels| && Distinct(labels) && b.entries == Indexed(labels[..|labels| - 1])
    ensures SlotOf(b, labels[|labels| - 1]) == None && !Contains(b, labels[|labels| - 1])
  {
    forall j | 0 <= j < |b.entries| ensures b.entries[j].0 != labels[|labels| - 1] {
      assert b.entries[j].0 == labels[j];
    }
    SlotOfAbsent(b, labels[|labels| - 1]);
  }

  /** Indexing a list indexes its prefix and gives the last label the next slot. */
  lemma IndexedSnoc<K>(labels: seq<K>)
    requires 0 < |labels|
    ensures Indexed(labels) == Indexed(labels[..|labels| - 1]) + [(labels[|labels| - 1], |labels| - 1)]
  {
  }

  lemma {:induction false} TouchAllKeepsSlots<K>(b: IndexedBuffer<K>, ks: seq<K>)
    requires Valid(b)
    ensures Valid(TouchAll(b, ks))
    ensures forall x :: SlotOf(TouchAll(b, ks), x) == SlotOf(b, x)
    decreases |ks|
  {
    if |ks| > 0 {
      var prev := TouchAll(b, ks[..|ks| - 1]);
      TouchAllKeepsSlots(b, ks[..|ks| - 1]);
      TouchMovesToMostRecent(prev, ks[|ks| - 1]);
    }
  }

  /** Touching keeps keys unique and changes no key's slot; it needs no more than unique keys. */
  lemma {:induction false} TouchAllKeepsKeys<K>(b: IndexedBuffer<K>, ks: seq<K>)
    requires DistinctKeys(b.entries)
    ensures DistinctKeys(TouchAll(b, ks).entries)
    ensures forall x :: SlotOf(TouchAll(b, ks), x) == SlotOf(b, x)
    decreases |ks|
  {
    if |ks| > 0 {
      var prev := TouchAll(b, ks[..|ks| - 1]);
      var k := ks[|ks| - 1];
      TouchAllKeepsKeys(b, ks[..|ks| - 1]);
      if Contains(prev, k) {
        TouchKeepsEntries(prev, k);
        SameEntriesSameSlots(prev, Touch(prev, k));
      }
      assert TouchAll(b, ks) == Touch(prev, k);
    }
  }

  /**
   * Touching a key that is not among the last `q` entries shifts those
   * entries down by one and puts the key's own entry last.
   */
  lemma TouchShiftsTail<K>(t: IndexedBuffer<K>, k: K, q: nat)
    requires Contains(t, k) && q < |t.entries|
    requires forall j :: |t.entries| - q <= j < |t.entries| ==> t.entries[j].0 != k
    ensures forall j :: |t.entries| - q <= j < |t.entries| ==> Touch(t, k).entries[j - 1] == t.entries[j]
    ensures Touch(t, k).entries[|t.entries| - 1] == t.entries[Position(t.entries, k)]
  {
    var n := |t.entries|;
    var p := Position(t.entries, k);
    TouchEntries(t, k);
    assert p < n - q;
    forall j | n - q <= j < n ensures Touch(t, k).entries[j - 1] == t.entries[j] {
      assert TouchSource(p, n, j - 1) == j;
    }
  }

  /** One more touch extends the line-up of most recently used entries by the touched key. */
  lemma LinesUpStep<K>(b: IndexedBuffer<K>, ks: seq<K>, init: seq<K>, t: IndexedBuffer<K>, r: IndexedBuffer<K>)
    requires Distinct(ks) && 1 <= |ks| <= Size(b) && init == ks[..|ks| - 1]
    requires DistinctKeys(t.entries) && |t.entries| == Size(b) && SlotOf(t, ks[|ks| - 1]) == SlotOf(b, ks[|ks| - 1])
    requires Contains(b, ks[|ks| - 1]) && r == Touch(t, ks[|ks| - 1])
    requires forall i :: 0 <= i < |init| ==>
      SlotOf(b, init[i]).Some? && t.entries[Size(b) - |init| + i] == (init[i], SlotOf(b, init[i]).value)
    ensures forall i :: 0 <= i < |ks| ==>
      SlotOf(b, ks[i]).Some? && r.entries[Size(b) - |ks| + i] == (ks[i], SlotOf(b, ks[i]).value)
  {
    var n := Size(b);
    var k := ks[|ks| - 1];
    LinesUpTailFree(b, t, ks, init, n);
    assert Contains(t, k);
    TouchShiftsTail(t, k, |ks| - 1);
    SlotOfAt(t, Position(t.entries, k));
    assert r.entries[n - 1] == (k, SlotOf(b, k).value);
    LinesUpAssemble(b, t, r, ks, init, n);
  }

  /** A key not yet touched is not among the entries lined up so far. */
  lemma LinesUpTailFree<K>(b: IndexedBuffer<K>, t: IndexedBuffer<K>, ks: seq<K>, init: seq<K>, n: nat)
    requires |t.entries| == n && 1 <= |ks| <= n && Distinct(ks) && init == ks[..|ks| - 1]
    requires forall i :: 0 <= i < |init| ==>
      SlotOf(b, init[i]).Some? && t.entries[n - |init| + i] == (init[i], SlotOf(b, init[i]).value)
    ensures forall j :: n - |init| <= j < n ==> t.entries[j].0 != ks[|ks| - 1]
  {
    forall j | n - |init| <= j < n ensures t.entries[j].0 != ks[|ks| - 1] {
      var i := j - (n - |init|);
      assert t.entries[n - |init| + i] == (init[i], SlotOf(b, init[i]).value);
      assert init[i] == ks[i];
    }
  }

  /** The line-up after one more touch, from where the earlier entries moved and what came last. */
  lemma LinesUpAssemble<K>(b: IndexedBuffer<K>, t: IndexedBuffer<K>, r: IndexedBuffer<K>, ks: seq<K>, init: seq<K>, n: nat)
    requires |t.entries| == n && |r.entries| == n && 1 <= |ks| <= n && init == ks[..|ks| - 1]
    requires forall i :: 0 <= i < |init| ==>
      SlotOf(b, init[i]).Some? && t.entries[n - |init| + i] == (init[i], SlotOf(b, init[i]).value)
    requires forall j :: n - |init| <= j < n ==> r.entries[j - 1] == t.entries[j]
    requires SlotOf(b, ks[|ks| - 1]).Some? && r.entries[n - 1] == (ks[|ks| - 1], SlotOf(b, ks[|ks| - 1]).value)
    ensures forall i :: 0 <= i < |ks| ==>
      SlotOf(b, ks[i]).Some? && r.entries[n - |ks| + i] == (ks[i], SlotOf(b, ks[i]).value)
  {
    forall i | 0 <= i < |ks| ensures SlotOf(b, ks[i]).Some? && r.entries[n - |ks| + i] == (ks[i], SlotOf(b, ks[i]).value) {
      if i < |ks| - 1 {
        var j := n - |init| + i;
        assert r.entries[j - 1] == t.entries[j];
        assert init[i] == ks[i];
      }
    }
  }

  /**
   * Touching distinct present keys in turn lines them up, in that order, as
   * the most recently used entries, each with its own slot.
   */
  lemma {:induction false} TouchAllLinesUp<K>(b: IndexedBuffer<K>, ks: seq<K>)
    requires DistinctKeys(b.entries) && Distinct(ks) && |ks| <= Size(b)
    requires forall i :: 0 <= i < |ks| ==> Contains(b, ks[i])
    ensures forall i :: 0 <= i < |ks| ==>
      SlotOf(b, ks[i]).Some? &&
      TouchAll(b, ks).entries[Size(b) - |ks| + i] == (ks[i], SlotOf(b, ks[i]).value)
    decreases |ks|
  {
    if |ks| > 0 {
      var init := ks[..|ks| - 1];
      assert Distinct(init) && forall i :: 0 <= i < |init| ==> Contains(b, init[i]);
      TouchAllLinesUp(b, init);
      TouchAllKeepsKeys(b, init);
      assert TouchAll(b, ks) == Touch(TouchAll(b, init), ks[|ks| - 1]);
      LinesUpStep(b, ks, init, TouchAll(b, init), TouchAll(b, ks));
    }
  }

  /** First index holding slot `s`, or -1. */
  function SlotPosition<K>(e: seq<(K, nat)>, s: nat): (j: int)
    ensures -1 <= j < |e|
    ensures 0 <= j ==> e[j].1 == s
    ensures j == -1 <==> forall i :: 0 <= i < |e| ==> e[i].1 != s
  {
    if |e| == 0 then -1
    else if e[0].1 == s then 0
    else
      var j := SlotPosition(e[1..], s);
      if j < 0 then -1 else j + 1
  }

  /** The key stored in slot `s` of a valid buffer. */
  function KeyAtSlot<K(==)>(b: IndexedBuffer<K>, s: nat): (k: K)
    requires Valid(b) && s < Size(b)
    ensures SlotOf(b, k) == Some(s)
  {
    assert s in SlotSet(b.entries);
    var j := SlotPosition(b.entries, s);
    SlotOfAt(b, j);
    b.entries[j].0
  }

  /** The keys listed by slot: what a snapshot stores as its labels. */
  function LabelsBySlot<K(==)>(b: IndexedBuffer<K>): (labels: seq<K>)
    requires Valid(b)
    ensures |labels| == Size(b) && Distinct(labels)
    ensures forall s :: 0 <= s < |labels| ==> SlotOf(b, labels[s]) == Some(s)
  {
    var labels := seq(Size(b), s requires 0 <= s < Size(b) => KeyAtSlot(b, s));
    assert forall s :: 0 <= s < |labels| ==> SlotOf(b, labels[s]) == Some(s);
    labels
  }

  /** Listing a valid buffer's labels by slot gives back exactly its (key, slot) pairs. */
  lemma LabelsBySlotSameEntries<K>(b: IndexedBuffer<K>)
    requires Valid(b)
    ensures forall x :: x in b.entries <==> x in Indexed(LabelsBySlot(b))
  {
    var e := b.entries;
    var labels := LabelsBySlot(b);
    var c := Indexed(labels);
    forall x | x in e ensures x in c {
      var j :| 0 <= j < |e| && e[j] == x;
      assert x.1 in SlotSet(e);
      SlotOfAt(b, j);
      assert c[x.1] == (labels[x.1], x.1);
    }
    forall x | x in c ensures x in e {
      var s :| 0 <= s < |c| && c[s] == x;
      assert SlotOf(b, labels[s]) == Some(s);
      var j := Position(e, labels[s]);
      assert e[j] == x;
    }
  }

  /** Entries listing each key of `b`, in recency order, with its slot are `b`'s own entries. */
  lemma OrderWithSlots<K>(b: IndexedBuffer<K>, r: seq<(K, nat)>)
    requires DistinctKeys(b.entries) && |r| == Size(b)
    requires forall i :: 0 <= i < |r| ==> SlotOf(b, Order(b)[i]).Some? && r[i] == (Order(b)[i], SlotOf(b, Order(b)[i]).value)
    ensures r == b.entries
  {
    forall i | 0 <= i < |r| ensures r[i] == b.entries[i] {
      SlotOfAt(b, i);
    }
  }

  /**
   * A snapshot taken as labels-by-slot plus eviction order rebuilds the very
   * same buffer: same capacity, same slots, same recency order.
   */
  lemma SnapshotRoundTrip<K>(b: IndexedBuffer<K>)
    requires Valid(b)
    ensures FromSnapshot(b.limit, LabelsBySlot(b), Order(b)) == b
  {
    var labels := LabelsBySlot(b);
    var c := PutLabels(b.limit, labels);
    var ks := Order(b);
    assert DistinctKeys(c.entries) && Size(c) == |ks| by {
      PutLabelsIndexed(b.limit, labels);
    }
    SnapshotSlots(b);
    TouchAllLinesUpAll(c, ks);
    SnapshotEntries(b, c, TouchAll(c, ks));
    assert FromSnapshot(b.limit, labels, ks) == TouchAll(c, ks);
  }

  /** The labels put back by slot give every key of `b` the slot it had. */
  lemma SnapshotSlots<K>(b: IndexedBuffer<K>)
    requires Valid(b)
    ensures forall i :: 0 <= i < Size(b) ==>
      && Contains(PutLabels(b.limit, LabelsBySlot(b)), Order(b)[i])
      && SlotOf(PutLabels(b.limit, LabelsBySlot(b)), Order(b)[i]) == SlotOf(b, Order(b)[i])
  {
    var c := PutLabels(b.limit, LabelsBySlot(b));
    PutLabelsIndexed(b.limit, LabelsBySlot(b));
    LabelsBySlotSameEntries(b);
    SameEntriesSameSlots(b, c);
    forall i | 0 <= i < Size(b) ensures Contains(c, Order(b)[i]) {
      SlotOfAt(b, i);
    }
  }

  /** Touching every key of a buffer in turn lines up all its entries in that order. */
  lemma TouchAllLinesUpAll<K>(b: IndexedBuffer<K>, ks: seq<K>)
    requires DistinctKeys(b.entries) && Distinct(ks) && |ks| == Size(b)
    requires forall i :: 0 <= i < |ks| ==> Contains(b, ks[i])
    ensures forall i :: 0 <= i < |ks| ==>
      SlotOf(b, ks[i]).Some? && TouchAll(b, ks).entries[i] == (ks[i], SlotOf(b, ks[i]).value)
  {
    TouchAllLinesUp(b, ks);
    forall i | 0 <= i < |ks| ensures SlotOf(b, ks[i]).Some? && TouchAll(b, ks).entries[i] == (ks[i], SlotOf(b, ks[i]).value) {
      assert Size(b) - |ks| + i == i;
    }
  }

  /** Entries listing `b`'s keys in recency order, each with the slot it has in `b`, are `b`'s entries. */
  lemma SnapshotEntries<K>(b: IndexedBuffer<K>, c: IndexedBuffer<K>, r: IndexedBuffer<K>)
    requires DistinctKeys(b.entries) && |r.entries| == Size(b)
    requires forall i :: 0 <= i < Size(b) ==> SlotOf(c, Order(b)[i]) == SlotOf(b, Order(b)[i])
    requires forall i :: 0 <= i < Size(b) ==>
      SlotOf(c, Order(b)[i]).Some? && r.entries[i] == (Order(b)[i], SlotOf(c, Order(b)[i]).value)
    ensures r.entries == b.entries
  {
    OrderWithSlots(b, r.entries);
  }
}
