/**
 * `NeuralNetworkResultRanker`: the glue between the label buffer and the
 * neural network.
 *
 * The network is an opaque value. The model keeps only the part the ranker
 * touches directly, the flat parameter vector of the output layer, in which
 * the 100 weights feeding output unit `u` sit at indices
 * [100 * u, 100 * (u + 1)). Training and inference are foreign calls and
 * are passed in as functions. Scores are integers, and the one-hot float
 * vectors are integer vectors of zeros and ones.
 */
module ResultRanker {
  import opened Wrappers
  import opened Seqs
  import opened LruBuffer
  import JavaArith
  import Sorting

  const AsciiChars: nat := 128
  const InputDigits: nat := 20
  const InputChannels: nat := InputDigits * AsciiChars
  const LastHiddenUnits: nat := 100
  /** `PeriscopeResultRankerModule.DEFAULT_OUTPUT_UNITS`. */
  const DefaultOutputUnits: int := 10000

  /** The network: the output layer's parameters plus everything else, which the ranker never reads. */
  datatype Network = Network(outputParams: seq<int>, hiddenParams: seq<int>)

  /** `RankingNetworkStorageStrategy.RankingInfo`: what is loaded and persisted (the user is left out). */
  datatype RankingInfo = RankingInfo(network: Network, labels: IndexedBuffer<string>)

  datatype Ranker = Ranker(network: Network, labels: IndexedBuffer<string>, outputUnits: nat)

  /**
   * The foreign calls: `StringUtils.stripAccents`, `MultiLayerNetwork.fit`
   * (None when it throws `IllegalArgumentException`) and
   * `MultiLayerNetwork.output` (one score per output unit).
   */
  datatype Foreign = Foreign(
    stripAccents: string -> string,
    fit: (Network, seq<int>, seq<int>) -> Option<Network>,
    output: (Network, seq<int>) -> seq<int>)

  /**
   * `fit` trains the weights in place: a network it returns has as many
   * output-layer parameters as the one it was given.
   */
  ghost predicate FitKeepsShape(f: Foreign) {
    forall n, input, target :: f.fit(n, input, target).Some? ==>
      |f.fit(n, input, target).value.outputParams| == |n.outputParams|
  }

  /** What `trainRanking` leaves behind: the new state and what it hands to `storage.persist`, if anything. */
  datatype Trained = Trained(ranker: Ranker, persisted: Option<RankingInfo>)

  /** The output layer has room for a weight block per output unit. */
  predicate Shaped(n: Network, outputUnits: nat) {
    LastHiddenUnits * outputUnits <= |n.outputParams|
  }

  /** The ranker invariant: a valid buffer whose capacity is the number of output units. */
  predicate Inv(s: Ranker) {
    && Valid(s.labels)
    && s.labels.limit == s.outputUnits
    && Shaped(s.network, s.outputUnits)
  }

  // ---------------------------------------------------------------------------
  // Weight blocks

  /** The weights feeding output unit `u`. */
  function Block(n: Network, u: nat): seq<int>
    requires LastHiddenUnits * (u + 1) <= |n.outputParams|
  {
    n.outputParams[LastHiddenUnits * u .. LastHiddenUnits * (u + 1)]
  }

  predicate AllZero(s: seq<int>) {
    forall i :: 0 <= i < |s| ==> s[i] == 0
  }

  /** `params.put(0, i, 0)` for every `i` in [lo, hi). */
  function ZeroRange(p: seq<int>, lo: nat, hi: nat): (r: seq<int>)
    requires lo <= hi <= |p|
    ensures |r| == |p|
    ensures forall i :: 0 <= i < |p| ==> r[i] == (if lo <= i < hi then 0 else p[i])
    decreases hi - lo
  {
    if lo == hi then p else ZeroRange(p[lo := 0], lo + 1, hi)
  }

  /** `resetForOutputUnit(u)`: the block of unit `u` becomes zero, every other parameter stays. */
  function ResetForOutputUnit(n: Network, u: nat): (r: Network)
    requires LastHiddenUnits * (u + 1) <= |n.outputParams|
    ensures |r.outputParams| == |n.outputParams| && r.hiddenParams == n.hiddenParams
    ensures AllZero(Block(r, u))
    ensures forall i :: 0 <= i < |n.outputParams| && !(LastHiddenUnits * u <= i < LastHiddenUnits * (u + 1)) ==>
      r.outputParams[i] == n.outputParams[i]
  {
    n.(outputParams := ZeroRange(n.outputParams, LastHiddenUnits * u, LastHiddenUnits * (u + 1)))
  }

  /** Resetting one unit leaves the block of every other unit as it was. */
  lemma ResetKeepsOtherBlocks(n: Network, u: nat, v: nat)
    requires LastHiddenUnits * (u + 1) <= |n.outputParams| && LastHiddenUnits * (v + 1) <= |n.outputParams|
    requires u != v
    ensures Block(ResetForOutputUnit(n, u), v) == Block(n, v)
  {
    var r := ResetForOutputUnit(n, u);
    forall i | 0 <= i < LastHiddenUnits ensures Block(r, v)[i] == Block(n, v)[i] {
      assert r.outputParams[LastHiddenUnits * v + i] == n.outputParams[LastHiddenUnits * v + i];
    }
  }

  // ---------------------------------------------------------------------------
  // addResults

  /** The slot of a label, as an output unit: `resultTexts.indexOf`. */
  function Unit(s: Ranker, k: string): (u: nat)
    requires Inv(s) && Contains(s.labels, k)
    ensures u < Size(s.labels) && LastHiddenUnits * (u + 1) <= |s.network.outputParams|
  {
    IndexOf(s.labels, k)
  }

  /** At capacity, the slot `add` hands back is the one of the least recently used label. */
  lemma EvictedIsLeastRecent(s: Ranker, id: string)
    requires Inv(s) && !Contains(s.labels, id) && Size(s.labels) == s.outputUnits
    ensures Contains(s.labels, Order(s.labels)[0])
    ensures Add(s.labels, id).evicted == Some(Unit(s, Order(s.labels)[0]))
  {
    AddAtCapacity(s.labels, id);
    SlotOfAt(s.labels, 0);
  }

  lemma AddResultBelowCapacity(s: Ranker, id: string)
    requires Inv(s) && !Contains(s.labels, id) && Size(s.labels) < s.outputUnits
    ensures var r := s.(labels := Add(s.labels, id).buffer);
      && Inv(r) && Contains(r.labels, id)
      && Unit(r, id) == Size(s.labels) && Size(r.labels) == Size(s.labels) + 1
      && forall k :: Contains(s.labels, k) ==> Contains(r.labels, k) && Unit(r, k) == Unit(s, k)
  {
    AddBelowCapacity(s.labels, id);
    AddPreservesValid(s.labels, id);
    var r := s.(labels := Add(s.labels, id).buffer);
    forall k | Contains(s.labels, k) ensures Contains(r.labels, k) && Unit(r, k) == Unit(s, k) {
      assert k != id;
      assert SlotOf(r.labels, k) == SlotOf(s.labels, k);
    }
  }

  lemma AddResultAtCapacity(s: Ranker, id: string)
    requires Inv(s) && !Contains(s.labels, id) && Size(s.labels) == s.outputUnits
    ensures Contains(s.labels, Order(s.labels)[0])
    ensures var lru := Order(s.labels)[0];
      var r := s.(labels := Add(s.labels, id).buffer, network := ResetForOutputUnit(s.network, Unit(s, lru)));
      && Inv(r) && Contains(r.labels, id) && !Contains(r.labels, lru)
      && Unit(r, id) == Unit(s, lru) && Size(r.labels) == Size(s.labels)
      && forall k :: k != id && Contains(r.labels, k) ==>
        && Contains(s.labels, k)
        && Unit(r, k) == Unit(s, k)
        && Block(r.network, Unit(r, k)) == Block(s.network, Unit(s, k))
  {
    EvictedIsLeastRecent(s, id);
    AddAtCapacity(s.labels, id);
    AddPreservesValid(s.labels, id);
    var lru := Order(s.labels)[0];
    var u := Unit(s, lru);
    var r := s.(labels := Add(s.labels, id).buffer, network := ResetForOutputUnit(s.network, u));
    forall k | k != id && Contains(r.labels, k)
      ensures Contains(s.labels, k) && Unit(r, k) == Unit(s, k)
      ensures Block(r.network, Unit(r, k)) == Block(s.network, Unit(s, k))
    {
      assert k != lru;
      assert SlotOf(r.labels, k) == SlotOf(s.labels, k);
      var p := Position(s.labels.entries, k);
      assert p != 0;
      SlotOfAt(s.labels, p);
      SlotOfAt(s.labels, 0);
      ResetKeepsOtherBlocks(s.network, u, Unit(s, k));
    }
  }

  /**
   * One element of the `addResults` stream: a known id is filtered out; a new
   * one is added to the buffer, and the slot `add` hands back, if any, has
   * its weight block reset.
   */
  function AddResult(s: Ranker, id: string): (r: Ranker)
    requires Inv(s)
    ensures Inv(r) && r.outputUnits == s.outputUnits
    ensures Contains(r.labels, id) && Size(s.labels) <= Size(r.labels)
    ensures Contains(s.labels, id) ==> r == s
    ensures !Contains(s.labels, id) && Size(s.labels) < s.outputUnits ==>
      r.network == s.network && Unit(r, id) == Size(s.labels) && Size(r.labels) == Size(s.labels) + 1
    ensures Size(s.labels) < s.outputUnits ==>
      r.network == s.network && forall k :: Contains(s.labels, k) ==> Contains(r.labels, k) && Unit(r, k) == Unit(s, k)
    ensures !Contains(s.labels, id) && Size(s.labels) == s.outputUnits ==>
      var lru := Order(s.labels)[0];
      && Contains(s.labels, lru) && !Contains(r.labels, lru)
      && Unit(r, id) == Unit(s, lru)
      && r.network == ResetForOutputUnit(s.network, Unit(s, lru))
    ensures forall k :: k != id && Contains(r.labels, k) ==>
      && Contains(s.labels, k)
      && Unit(r, k) == Unit(s, k)
      && Block(r.network, Unit(r, k)) == Block(s.network, Unit(s, k))
  {
    if Contains(s.labels, id) then s
    else
      var a := Insert(s.labels, id);
      match a.evicted
      case None =>
        AddResultBelowCapacity(s, id);
        s.(labels := a.buffer)
      case Some(u) =>
        EvictedIsLeastRecent(s, id);
        AddResultAtCapacity(s, id);
        s.(labels := a.buffer, network := ResetForOutputUnit(s.network, u))
  }

  /** `addResults(results)`, on the ids the results map to, in stream order. */
  function AddResults(s: Ranker, ids: seq<string>): (r: Ranker)
    requires Inv(s)
    ensures Inv(r) && r.outputUnits == s.outputUnits
    decreases |ids|
  {
    if |ids| == 0 then s else AddResults(AddResult(s, ids[0]), ids[1..])
  }

  lemma {:induction false} AddResultsAppend(s: Ranker, a: seq<string>, b: seq<string>)
    requires Inv(s)
    ensures AddResults(s, a + b) == AddResults(AddResults(s, a), b)
    decreases |a|
  {
    if |a| > 0 {
      assert (a + b)[0] == a[0] && (a + b)[1..] == a[1..] + b;
      AddResultsAppend(AddResult(s, a[0]), a[1..], b);
    } else {
      assert a + b == b;
    }
  }

  /** Results whose ids are all known already change nothing: no slot, no size, no weight. */
  lemma {:induction false} AddResultsKnownIsNoOp(s: Ranker, ids: seq<string>)
    requires Inv(s)
    requires forall i :: 0 <= i < |ids| ==> Contains(s.labels, ids[i])
    ensures AddResults(s, ids) == s
    decreases |ids|
  {
    if |ids| > 0 {
      assert AddResult(s, ids[0]) == s;
      AddResultsKnownIsNoOp(s, ids[1..]);
    }
  }

  /** The stream filters element by element, so an id repeated right after itself is inserted once. */
  lemma AddResultsRepeatedId(s: Ranker, ids: seq<string>, x: string)
    requires Inv(s)
    ensures AddResults(s, ids + [x, x]) == AddResults(s, ids + [x])
  {
    AddResultsAppend(s, ids, [x, x]);
    AddResultsAppend(s, ids, [x]);
    var t := AddResults(s, ids);
    var t1 := AddResult(t, x);
    assert AddResults(t, [x, x]) == AddResults(t1, [x]);
    assert AddResults(t1, [x]) == AddResults(t1, []);
  }

  /** Repeating an id that is still in the buffer when its turn comes changes nothing. */
  lemma AddResultsRepeatContained(s: Ranker, ids: seq<string>, x: string)
    requires Inv(s) && Contains(AddResults(s, ids).labels, x)
    ensures AddResults(s, ids + [x]) == AddResults(s, ids)
  {
    AddResultsAppend(s, ids, [x]);
    var t := AddResults(s, ids);
    assert AddResults(t, [x]) == AddResults(AddResult(t, x), []) by {
      assert [x][1..] == [];
    }
  }

  /**
   * A repeat of an id that was evicted in between is inserted again: with a
   * single output unit the batch x, y, x evicts x for y and then y for x.
   */
  lemma AddResultsRepeatAfterEviction(s: Ranker, x: string, y: string)
    requires Inv(s) && s.outputUnits == 1 && x != y
    ensures Contains(AddResults(s, [x, y, x]).labels, x)
    ensures !Contains(AddResults(s, [x, y, x]).labels, y)
  {
    var s1 := AddResult(s, x);
    OneSlotReplace(s1, x, y);
    var s2 := AddResult(s1, y);
    OneSlotReplace(s2, y, x);
    AddResultsUnfold(s, x, [y, x]);
    AddResultsUnfold(s1, y, [x]);
    AddResultsUnfold(s2, x, []);
  }

  /** A batch is its first id followed by the rest of the batch. */
  lemma AddResultsUnfold(s: Ranker, id: string, rest: seq<string>)
    requires Inv(s)
    ensures AddResults(s, [id] + rest) == AddResults(AddResult(s, id), rest)
  {
    assert ([id] + rest)[0] == id && ([id] + rest)[1..] == rest;
  }

  /** With a single output unit, adding a new id evicts the one held. */
  lemma OneSlotReplace(s: Ranker, k: string, id: string)
    requires Inv(s) && s.outputUnits == 1 && Contains(s.labels, k) && k != id
    ensures !Contains(AddResult(s, id).labels, k)
  {
    OneSlotOrder(s, k);
    assert !Contains(s.labels, id) by {
      ContainsIsInOrder(s.labels, id);
    }
  }

  /** With a single output unit, a buffer holding `k` holds nothing else. */
  lemma OneSlotOrder(s: Ranker, k: string)
    requires Inv(s) && s.outputUnits == 1 && Contains(s.labels, k)
    ensures Order(s.labels) == [k] && Size(s.labels) == 1
  {
    ContainsIsInOrder(s.labels, k);
  }

  /**
   * A label that was in the buffer and is not among the added ids either
   * keeps its slot and its weights, or is gone: its slot is reset only when
   * it is evicted.
   */
  lemma {:induction false} AddResultsKeepsOthers(s: Ranker, ids: seq<string>, k: string)
    requires Inv(s) && k !in ids
    ensures Contains(AddResults(s, ids).labels, k) ==>
      && Contains(s.labels, k)
      && Unit(AddResults(s, ids), k) == Unit(s, k)
      && Block(AddResults(s, ids).network, Unit(s, k)) == Block(s.network, Unit(s, k))
    decreases |ids|
  {
    if |ids| > 0 {
      var s1 := AddResult(s, ids[0]);
      assert k != ids[0] && k !in ids[1..];
      AddResultsKeepsOthers(s1, ids[1..], k);
    }
  }

  /** New labels placed on a unit that was held when the batch started (one below the starting size) have all-zero weights. */
  ghost predicate RecycledAreZero(s0: Ranker, s: Ranker)
    requires Inv(s)
  {
    forall k :: Contains(s.labels, k) && !Contains(s0.labels, k) && Unit(s, k) < Size(s0.labels) ==>
      AllZero(Block(s.network, Unit(s, k)))
  }

  lemma AddResultKeepsRecycledZero(s0: Ranker, s: Ranker, id: string)
    requires Inv(s) && Size(s0.labels) <= Size(s.labels) && RecycledAreZero(s0, s)
    ensures Size(s0.labels) <= Size(AddResult(s, id).labels) && RecycledAreZero(s0, AddResult(s, id))
  {
    var r := AddResult(s, id);
    forall k | Contains(r.labels, k) && !Contains(s0.labels, k) && Unit(r, k) < Size(s0.labels)
      ensures AllZero(Block(r.network, Unit(r, k)))
    {
      if k != id {
        assert Unit(r, k) == Unit(s, k);
      }
    }
  }

  lemma {:induction false} AddResultsKeepRecycledZero(s0: Ranker, s: Ranker, ids: seq<string>)
    requires Inv(s) && Size(s0.labels) <= Size(s.labels) && RecycledAreZero(s0, s)
    ensures RecycledAreZero(s0, AddResults(s, ids))
    decreases |ids|
  {
    if |ids| > 0 {
      AddResultKeepsRecycledZero(s0, s, ids[0]);
      AddResultsKeepRecycledZero(s0, AddResult(s, ids[0]), ids[1..]);
    }
  }

  /**
   * After `addResults`, every label that is new and sits on a unit that was
   * held when the batch started begins from all-zero weights: each eviction reset exactly the slot it
   * handed over.
   */
  lemma AddResultsRecycledSlotsStartAtZero(s: Ranker, ids: seq<string>)
    requires Inv(s)
    ensures RecycledAreZero(s, AddResults(s, ids))
  {
    AddResultsKeepRecycledZero(s, s, ids);
  }

  /** While there is room for every id, nothing is evicted, no weight changes and every id ends up in the buffer. */
  lemma {:induction false} AddResultsBelowCapacity(s: Ranker, ids: seq<string>)
    requires Inv(s) && Size(s.labels) + |ids| <= s.outputUnits
    ensures AddResults(s, ids).network == s.network
    ensures forall k :: Contains(s.labels, k) ==>
      Contains(AddResults(s, ids).labels, k) && Unit(AddResults(s, ids), k) == Unit(s, k)
    ensures forall i :: 0 <= i < |ids| ==> Contains(AddResults(s, ids).labels, ids[i])
    decreases |ids|
  {
    if |ids| > 0 {
      var s1 := AddResult(s, ids[0]);
      AddResultsBelowCapacity(s1, ids[1..]);
      var r := AddResults(s, ids);
      assert r == AddResults(s1, ids[1..]);
      forall i | 0 <= i < |ids| ensures Contains(r.labels, ids[i]) {
        if i > 0 {
          assert ids[i] == ids[1..][i - 1];
        }
      }
    }
  }

  // ---------------------------------------------------------------------------
  // Encodings

  /** Whether the one-hot input has a 1 at channel `j` for the (accent-stripped) query `q`. */
  predicate QueryBit(q: string, j: nat) {
    var digit := j / AsciiChars;
    digit < InputDigits && digit < |q| && (q[digit] as int) % AsciiChars == j % AsciiChars
  }

  /** The one-hot vector of the first `i` characters: the loop of `inputToArray` after `i` rounds. */
  function EncodeDigits(q: string, i: nat): (r: seq<int>)
    requires i <= InputDigits
    ensures |r| == InputChannels
    ensures forall j :: 0 <= j < InputChannels ==> r[j] == (if j / AsciiChars < i && QueryBit(q, j) then 1 else 0)
  {
    if i == 0 then seq(InputChannels, _ => 0)
    else
      var prev := EncodeDigits(q, i - 1);
      if |q| <= i - 1 then prev
      else
        var hot := (i - 1) * AsciiChars + (q[i - 1] as int) % AsciiChars;
        assert hot / AsciiChars == i - 1 && hot % AsciiChars == (q[i - 1] as int) % AsciiChars;
        prev[hot := 1]
  }

  /**
   * `inputToArray`, on the accent-stripped query: 20 blocks of 128 channels,
   * block `i` one-hot at the code of character `i` modulo 128.
   */
  function InputToArray(q: string): (r: seq<int>)
    ensures |r| == InputChannels
    ensures forall j :: 0 <= j < InputChannels ==> r[j] == (if QueryBit(q, j) then 1 else 0)
  {
    EncodeDigits(q, InputDigits)
  }

  /** Characters after the twentieth do not reach the network. */
  lemma InputIgnoresTail(q: string, tail: string)
    requires |q| >= InputDigits
    ensures InputToArray(q + tail) == InputToArray(q)
  {
    var a := InputToArray(q + tail);
    var b := InputToArray(q);
    forall j | 0 <= j < InputChannels ensures a[j] == b[j] {
      if j / AsciiChars < InputDigits {
        assert (q + tail)[j / AsciiChars] == q[j / AsciiChars];
      }
    }
  }

  /** Exactly one channel per encoded character is set: the one-hot blocks never collide. */
  lemma InputOneHotPerDigit(q: string, j: nat, j': nat)
    requires j < InputChannels && j' < InputChannels && j / AsciiChars == j' / AsciiChars
    requires QueryBit(q, j) && QueryBit(q, j')
    ensures j == j'
  {
  }

  /**
   * `outputToArray(id)`: one output per unit, one-hot at the id's slot, or
   * all zeros for an id the buffer does not hold.
   */
  function OutputToArray(labels: IndexedBuffer<string>, outputUnits: nat, id: string): (r: seq<int>)
    requires Valid(labels) && labels.limit == outputUnits
    ensures |r| == outputUnits
    ensures Contains(labels, id) ==> forall u :: 0 <= u < outputUnits ==> (r[u] == 1 <==> SlotOf(labels, id) == Some(u))
    ensures forall u :: 0 <= u < outputUnits ==> r[u] == 0 || r[u] == 1
    ensures !Contains(labels, id) ==> AllZero(r)
  {
    var nodes := seq(outputUnits, _ => 0);
    var index := IndexOf(labels, id);
    if index < 0 then nodes else nodes[index := 1]
  }

  // ---------------------------------------------------------------------------
  // trainRanking

  /**
   * `trainRanking(query, result)`: fit the network to (query, id), then touch
   * the id and persist. A fit that throws `IllegalArgumentException` is
   * caught: nothing changes and nothing is persisted.
   */
  function TrainRanking(s: Ranker, f: Foreign, query: string, id: string): (r: Trained)
    requires Inv(s) && FitKeepsShape(f)
    ensures Inv(r.ranker) && r.ranker.outputUnits == s.outputUnits
    ensures f.fit(s.network, InputToArray(f.stripAccents(query)), OutputToArray(s.labels, s.outputUnits, id)).None? ==>
      r == Trained(s, None)
    ensures f.fit(s.network, InputToArray(f.stripAccents(query)), OutputToArray(s.labels, s.outputUnits, id)).Some? ==>
      && r.ranker.network == f.fit(s.network, InputToArray(f.stripAccents(query)), OutputToArray(s.labels, s.outputUnits, id)).value
      && r.persisted == Some(RankingInfo(r.ranker.network, r.ranker.labels))
      && Valid(r.ranker.labels)
      && (forall k :: SlotOf(r.ranker.labels, k) == SlotOf(s.labels, k))
      && (Contains(s.labels, id) ==> Order(r.ranker.labels) == Without(Order(s.labels), Position(s.labels.entries, id)) + [id])
      && (!Contains(s.labels, id) ==> r.ranker.labels == s.labels)
  {
    var input := InputToArray(f.stripAccents(query));
    var target := OutputToArray(s.labels, s.outputUnits, id);
    match f.fit(s.network, input, target)
    case None => Trained(s, None)
    case Some(n) =>
      TouchMovesToMostRecent(s.labels, id);
      var t := s.(network := n, labels := Touch(s.labels, id));
      Trained(t, Some(RankingInfo(t.network, t.labels)))
  }

  /** For an id the buffer does not hold, the network is still fitted, to an all-zero target. */
  lemma TrainUnknownFitsZeroTarget(s: Ranker, id: string)
    requires Inv(s) && !Contains(s.labels, id)
    ensures AllZero(OutputToArray(s.labels, s.outputUnits, id))
  {
  }

  // ---------------------------------------------------------------------------
  // rank

  /** `List.indexOf`: the first position of `x` in `s`, or -1. */
  function IndexIn<T(==)>(s: seq<T>, x: T): (i: int)
    ensures -1 <= i < |s|
    ensures 0 <= i ==> s[i] == x && forall j :: 0 <= j < i ==> s[j] != x
    ensures i == -1 <==> x !in s
  {
    if |s| == 0 then -1
    else if s[0] == x then 0
    else
      var i := IndexIn(s[1..], x);
      if i < 0 then -1 else i + 1
  }

  /** The score the network gives to a label: the output at its slot. */
  function Score(labels: IndexedBuffer<string>, scores: seq<int>, k: string): int {
    var u := IndexOf(labels, k);
    if 0 <= u < |scores| then scores[u] else 0
  }

  function ScoreKey(labels: IndexedBuffer<string>, scores: seq<int>): string -> int {
    k => -Score(labels, scores, k)
  }

  /**
   * `outputArrayToResults`: the buffer's labels sorted by descending score,
   * stably, so that equal scores keep least-recently-used order.
   */
  function OutputArrayToResults(labels: IndexedBuffer<string>, scores: seq<int>): (r: seq<string>)
    ensures multiset(r) == multiset(Order(labels)) && |r| == Size(labels)
    ensures forall i, j :: 0 <= i < j < |r| ==> Score(labels, scores, r[i]) >= Score(labels, scores, r[j])
    ensures forall v :: Sorting.WithKey(r, ScoreKey(labels, scores), v) == Sorting.WithKey(Order(labels), ScoreKey(labels, scores), v)
  {
    var r := Sorting.SortBy(Order(labels), ScoreKey(labels, scores));
    assert forall i, j :: 0 <= i < j < |r| ==> ScoreKey(labels, scores)(r[i]) <= ScoreKey(labels, scores)(r[j]);
    r
  }

  /** The sort key of a candidate: its id's position in the ranked labels, or `fallback` for an unknown id. */
  function RankKey(sortedIds: seq<string>, fallback: int, id: string): int {
    var i := IndexIn(sortedIds, id);
    if i >= 0 then i else fallback
  }

  function CandidateKey<R>(sortedIds: seq<string>, fallback: int, idOf: R -> string): R -> int {
    c => RankKey(sortedIds, fallback, idOf(c))
  }

  /** Every candidate whose id the network does not know comes after every candidate it knows. */
  predicate UnknownsLast<R>(sortedIds: seq<string>, r: seq<R>, idOf: R -> string) {
    forall i, j :: 0 <= i < j < |r| && idOf(r[i]) !in sortedIds ==> idOf(r[j]) !in sortedIds
  }

  /** Known candidates appear in the order the network ranks their ids. */
  predicate KnownInNetworkOrder<R>(sortedIds: seq<string>, r: seq<R>, idOf: R -> string) {
    forall i, j :: 0 <= i < j < |r| && idOf(r[i]) in sortedIds && idOf(r[j]) in sortedIds ==>
      IndexIn(sortedIds, idOf(r[i])) <= IndexIn(sortedIds, idOf(r[j]))
  }

  /** What ordering by `CandidateKey` means for known and unknown candidates. */
  lemma SortedCandidates<R>(sortedIds: seq<string>, fallback: int, r: seq<R>, idOf: R -> string)
    requires Sorting.SortedBy(r, CandidateKey(sortedIds, fallback, idOf))
    ensures KnownInNetworkOrder(sortedIds, r, idOf)
    ensures (forall i :: 0 <= i < |r| && idOf(r[i]) in sortedIds ==> IndexIn(sortedIds, idOf(r[i])) < fallback) ==>
      UnknownsLast(sortedIds, r, idOf)
  {
    var key := CandidateKey(sortedIds, fallback, idOf);
    forall i, j | 0 <= i < j < |r| && idOf(r[i]) in sortedIds && idOf(r[j]) in sortedIds
      ensures IndexIn(sortedIds, idOf(r[i])) <= IndexIn(sortedIds, idOf(r[j]))
    {
      assert key(r[i]) <= key(r[j]);
    }
    if forall i :: 0 <= i < |r| && idOf(r[i]) in sortedIds ==> IndexIn(sortedIds, idOf(r[i])) < fallback {
      forall i, j | 0 <= i < j < |r| && idOf(r[i]) !in sortedIds ensures idOf(r[j]) !in sortedIds {
        assert key(r[i]) <= key(r[j]);
      }
    }
  }

  /**
   * The sort in `rank`, as written: unknown ids get key `results.size()`.
   * The result is a stable permutation with known candidates in network
   * order. Unknown ones are last when every known candidate's position is
   * below the number of candidates; otherwise an unknown one can come first
   * (`RankPutsUnknownFirstExample`).
   */
  function Rank<R>(sortedIds: seq<string>, results: seq<R>, idOf: R -> string): (r: seq<R>)
    ensures multiset(r) == multiset(results) && |r| == |results|
    ensures KnownInNetworkOrder(sortedIds, r, idOf)
    ensures forall v :: Sorting.WithKey(r, CandidateKey(sortedIds, |results|, idOf), v)
                     == Sorting.WithKey(results, CandidateKey(sortedIds, |results|, idOf), v)
    ensures (forall c :: c in results && idOf(c) in sortedIds ==> IndexIn(sortedIds, idOf(c)) < |results|) ==>
      UnknownsLast(sortedIds, r, idOf)
  {
    var r := Sorting.SortBy(results, CandidateKey(sortedIds, |results|, idOf));
    forall i | 0 <= i < |r| ensures r[i] in results {
      assert r[i] in multiset(results);
    }
    SortedCandidates(sortedIds, |results|, r, idOf);
    r
  }

  /** Candidates that are their own ids, for concrete examples. */
  function AsId(c: string): string {
    c
  }

  lemma ExampleKeys()
    ensures CandidateKey(["a", "b", "c"], 2, AsId)("u") == 2
    ensures CandidateKey(["a", "b", "c"], 2, AsId)("c") == 2
  {
    var sortedIds := ["a", "b", "c"];
    assert sortedIds[1..] == ["b", "c"] && sortedIds[1..][1..] == ["c"];
    assert IndexIn(sortedIds, "c") == 2;
    assert IndexIn(sortedIds, "u") == -1;
    assert RankKey(sortedIds, 2, AsId("u")) == 2 && RankKey(sortedIds, 2, AsId("c")) == 2;
  }

  /** With three ranked labels, an unknown candidate is placed before the known candidate at position 2. */
  lemma RankPutsUnknownFirstExample()
    ensures Rank(["a", "b", "c"], ["u", "c"], AsId) == ["u", "c"]
    ensures !UnknownsLast(["a", "b", "c"], Rank(["a", "b", "c"], ["u", "c"], AsId), AsId)
  {
    ExampleSort();
    ExampleNotUnknownsLast();
    assert |["u", "c"]| == 2;
  }

  lemma ExampleNotUnknownsLast()
    ensures !UnknownsLast(["a", "b", "c"], ["u", "c"], AsId)
  {
    var r := ["u", "c"];
    assert AsId(r[0]) !in ["a", "b", "c"] && AsId(r[1]) in ["a", "b", "c"] by {
      assert "u" != "a" && "u" != "b" && "u" != "c";
      assert ["a", "b", "c"][2] == "c";
    }
  }

  /** The sort of the example: both candidates have key 2, so the input order stays. */
  lemma ExampleSort()
    ensures Sorting.SortBy(["u", "c"], CandidateKey(["a", "b", "c"], 2, AsId)) == ["u", "c"]
  {
    var key := CandidateKey(["a", "b", "c"], 2, AsId);
    ExampleKeys();
    assert Sorting.SortBy(["c"], key) == ["c"] by {
      assert ["c"][1..] == [];
    }
    assert ["u", "c"][1..] == ["c"];
    assert Sorting.InsertBy("u", ["c"], key) == ["u", "c"];
  }

  /**
   * The sort in `rank` with the evidently intended key for unknown ids: one
   * past every known position. Unknown candidates then always come last, in
   * their input order.
   */
  function RankCorrected<R>(sortedIds: seq<string>, results: seq<R>, idOf: R -> string): (r: seq<R>)
    ensures multiset(r) == multiset(results) && |r| == |results|
    ensures KnownInNetworkOrder(sortedIds, r, idOf)
    ensures UnknownsLast(sortedIds, r, idOf)
    ensures forall v :: Sorting.WithKey(r, CandidateKey(sortedIds, |sortedIds|, idOf), v)
                     == Sorting.WithKey(results, CandidateKey(sortedIds, |sortedIds|, idOf), v)
  {
    var r := Sorting.SortBy(results, CandidateKey(sortedIds, |sortedIds|, idOf));
    SortedCandidates(sortedIds, |sortedIds|, r, idOf);
    r
  }

  /** The ranked labels hold exactly the buffer's labels, and an earlier one never scores lower. */
  lemma RankedLabels(labels: IndexedBuffer<string>, scores: seq<int>, a: string, b: string)
    ensures a in OutputArrayToResults(labels, scores) <==> a in Order(labels)
    ensures (a in Order(labels) && b in Order(labels) &&
             IndexIn(OutputArrayToResults(labels, scores), a) <= IndexIn(OutputArrayToResults(labels, scores), b)) ==>
      Score(labels, scores, a) >= Score(labels, scores, b)
  {
    var sortedIds := OutputArrayToResults(labels, scores);
    assert a in sortedIds <==> a in multiset(sortedIds);
    assert b in sortedIds <==> b in multiset(sortedIds);
  }

  /** Candidates whose labels the buffer holds come in non-increasing order of score. */
  predicate ScoreOrdered<R>(labels: IndexedBuffer<string>, scores: seq<int>, r: seq<R>, idOf: R -> string) {
    forall i, j :: 0 <= i < j < |r| && idOf(r[i]) in Order(labels) && idOf(r[j]) in Order(labels) ==>
      Score(labels, scores, idOf(r[i])) >= Score(labels, scores, idOf(r[j]))
  }

  /** Ordering candidates by the ranked labels orders the known ones by score. */
  lemma RankedByScore<R>(labels: IndexedBuffer<string>, scores: seq<int>, r: seq<R>, idOf: R -> string)
    requires KnownInNetworkOrder(OutputArrayToResults(labels, scores), r, idOf)
    ensures ScoreOrdered(labels, scores, r, idOf)
  {
    forall i, j | 0 <= i < j < |r| && idOf(r[i]) in Order(labels) && idOf(r[j]) in Order(labels)
      ensures Score(labels, scores, idOf(r[i])) >= Score(labels, scores, idOf(r[j]))
    {
      RankedLabels(labels, scores, idOf(r[i]), idOf(r[j]));
      RankedLabels(labels, scores, idOf(r[j]), idOf(r[i]));
    }
  }

  /** The ranked labels are the buffer's labels, so unknown to one means unknown to the other. */
  lemma RankedUnknownsLast<R>(labels: IndexedBuffer<string>, scores: seq<int>, r: seq<R>, idOf: R -> string)
    requires UnknownsLast(OutputArrayToResults(labels, scores), r, idOf)
    ensures UnknownsLast(Order(labels), r, idOf)
  {
    forall i, j | 0 <= i < j < |r| && idOf(r[i]) !in Order(labels) ensures idOf(r[j]) !in Order(labels) {
      RankedLabels(labels, scores, idOf(r[i]), idOf(r[j]));
      RankedLabels(labels, scores, idOf(r[j]), idOf(r[i]));
    }
  }

  /**
   * With one score per output unit, the score of every label the buffer
   * holds is the network's output at its slot; the zero default of `Score`
   * is never used.
   */
  lemma ScoreIsOutput(labels: IndexedBuffer<string>, scores: seq<int>, k: string)
    requires Valid(labels) && labels.limit == |scores| && Contains(labels, k)
    ensures 0 <= IndexOf(labels, k) < |scores|
    ensures Score(labels, scores, k) == scores[IndexOf(labels, k)]
  {
  }

  /**
   * `rank(query, results)` end to end, as written: the network scores the
   * query, the labels are ranked by score, and the candidates follow the
   * rank of their labels with unknown ids keyed `results.size()`. Known
   * candidates come by descending score; unknown ones are guaranteed to come
   * last only when there are at least as many candidates as labels.
   */
  function RankResults<R>(s: Ranker, f: Foreign, query: string, results: seq<R>, idOf: R -> string): (r: seq<R>)
    requires Inv(s) && |f.output(s.network, InputToArray(f.stripAccents(query)))| == s.outputUnits
    ensures multiset(r) == multiset(results)
    ensures ScoreOrdered(s.labels, f.output(s.network, InputToArray(f.stripAccents(query))), r, idOf)
    ensures Size(s.labels) <= |results| ==> UnknownsLast(Order(s.labels), r, idOf)
  {
    var scores := f.output(s.network, InputToArray(f.stripAccents(query)));
    var r := Rank(OutputArrayToResults(s.labels, scores), results, idOf);
    RankedByScore(s.labels, scores, r, idOf);
    RankUnknownsLastWhenEnough(s.labels, scores, results, idOf);
    r
  }

  /** With at least as many candidates as labels, every known position is below the unknown key. */
  lemma RankUnknownsLastWhenEnough<R>(labels: IndexedBuffer<string>, scores: seq<int>, results: seq<R>, idOf: R -> string)
    ensures Size(labels) <= |results| ==>
      UnknownsLast(Order(labels), Rank(OutputArrayToResults(labels, scores), results, idOf), idOf)
  {
    var sortedIds := OutputArrayToResults(labels, scores);
    if Size(labels) <= |results| {
      forall c | c in results && idOf(c) in sortedIds ensures IndexIn(sortedIds, idOf(c)) < |results| {
      }
      RankedUnknownsLast(labels, scores, Rank(sortedIds, results, idOf), idOf);
    }
  }

  /**
   * `rank(query, results)` end to end, with the corrected key: the same
   * ranking, and unknown candidates always come last.
   */
  function RankResultsCorrected<R>(s: Ranker, f: Foreign, query: string, results: seq<R>, idOf: R -> string): (r: seq<R>)
    requires Inv(s) && |f.output(s.network, InputToArray(f.stripAccents(query)))| == s.outputUnits
    ensures multiset(r) == multiset(results)
    ensures UnknownsLast(Order(s.labels), r, idOf)
    ensures ScoreOrdered(s.labels, f.output(s.network, InputToArray(f.stripAccents(query))), r, idOf)
  {
    var scores := f.output(s.network, InputToArray(f.stripAccents(query)));
    var r := RankCorrected(OutputArrayToResults(s.labels, scores), results, idOf);
    RankedByScore(s.labels, scores, r, idOf);
    RankedUnknownsLast(s.labels, scores, r, idOf);
    r
  }

  // ---------------------------------------------------------------------------
  // Loading the state

  /**
   * `loadOrCreateState`: the stored state if there is one whose buffer has
   * exactly `outputUnits` slots, otherwise a newly created network with an empty
   * buffer of that capacity; `LRUMap` rejects a capacity below 1.
   */
  function LoadOrCreateState(stored: Option<RankingInfo>, outputUnits: int, created: Network): (r: Result<RankingInfo, string>)
    ensures r.Success? ==> r.value.labels.limit == outputUnits
    ensures stored.Some? && stored.value.labels.limit == outputUnits ==> r == Success(stored.value)
    ensures !(stored.Some? && stored.value.labels.limit == outputUnits) ==>
      (r.Success? <==> 1 <= outputUnits) &&
      (r.Success? ==> r.value.network == created && Size(r.value.labels) == 0)
  {
    if stored.Some? && stored.value.labels.limit == outputUnits then Success(stored.value)
    else if outputUnits < 1 then Failure("maxSize must be greater than 0")
    else Success(RankingInfo(created, Empty(outputUnits)))
  }

  /** A stored state, if any, holds a valid buffer and a network with a weight block per slot. */
  predicate StoredWellFormed(stored: Option<RankingInfo>) {
    stored.Some? ==> Valid(stored.value.labels) && Shaped(stored.value.network, stored.value.labels.limit)
  }

  /**
   * The injected constructor: the configured number of output units, or
   * 10000 when none is configured, then `loadOrCreateState`.
   */
  function NewRanker(configured: Option<int>, stored: Option<RankingInfo>, created: Network): (r: Result<Ranker, string>)
    ensures configured.None? ==> r.Success? && r.value.outputUnits == DefaultOutputUnits
    ensures configured.Some? ==> (r.Success? ==> r.value.outputUnits == configured.value)
    ensures r.Success? ==> r.value.labels.limit == r.value.outputUnits
    ensures (r.Success? && r.value.outputUnits <= JavaArith.MaxInt && Shaped(created, r.value.outputUnits) &&
             StoredWellFormed(stored)) ==> Inv(r.value)
  {
    var outputUnits := configured.GetOr(DefaultOutputUnits);
    match LoadOrCreateState(stored, outputUnits, created)
    case Failure(e) => Failure(e)
    case Success(info) => Success(Ranker(info.network, info.labels, outputUnits as nat))
  }
}
