/**
  The timer system: an array-embedded binary min-heap of nodes ordered by expiration
  time, with a map from each key to the position of its node.

  The sift loops are specified by the pure functions `SiftedUp` and `SiftedDown`; the
  lemmas about those functions are what the methods of `HeapTimer` rest on.
 */
module HeapTimers {
  import opened Wrappers

  // A point of time of the steady clock, in clock ticks since its epoch.
  type Time = int

  // A time-out callback: an identity, and the keys it removes from the timer while it runs.
  datatype Callback<+K> = Callback(id: nat, removes: seq<K>)

  datatype Node<+K> = Node(key: K, expiration: Time, callback: Callback<K>)

  // What the timer remembers for one key.
  datatype Entry<+K> = Entry(expiration: Time, callback: Callback<K>)

  // One invocation of a callback by `Tick`: the removed node and the clock reading that expired it.
  datatype Firing<+K> = Firing(node: Node<K>, at: Time)

  function Parent(i: nat): nat
    requires i != 0
  {
    (i - 1) / 2
  }

  predicate IsParent(p: nat, c: nat) {
    c == 2 * p + 1 || c == 2 * p + 2
  }

  ghost predicate HeapOrdered<K>(s: seq<Node<K>>) {
    forall p, c {:trigger s[p], s[c]} :: 0 <= p < c < |s| && IsParent(p, c) ==> s[p].expiration <= s[c].expiration
  }

  // Position `i` may be too small for its parent; everything else is in order.
  ghost predicate OrderedExceptUp<K>(s: seq<Node<K>>, i: nat) {
    && i < |s|
    && (forall p, c {:trigger s[p], s[c]} ::
          0 <= p < c < |s| && IsParent(p, c) && c != i ==> s[p].expiration <= s[c].expiration)
    && (forall c {:trigger s[c]} ::
          i < c < |s| && i != 0 && IsParent(i, c) ==> s[Parent(i)].expiration <= s[c].expiration)
  }

  // Position `i` may be too large for its children; everything else is in order.
  ghost predicate OrderedExceptDown<K>(s: seq<Node<K>>, i: nat) {
    && i < |s|
    && (forall p, c {:trigger s[p], s[c]} ::
          0 <= p < c < |s| && IsParent(p, c) && p != i ==> s[p].expiration <= s[c].expiration)
    && (forall c {:trigger s[c]} ::
          i < c < |s| && i != 0 && IsParent(i, c) ==> s[Parent(i)].expiration <= s[c].expiration)
  }

  // The map and the node array are exact inverses.
  ghost predicate IndexAgrees<K>(s: seq<Node<K>>, idx: map<K, nat>) {
    && (forall i :: 0 <= i < |s| ==> s[i].key in idx && idx[s[i].key] == i)
    && (forall k :: k in idx ==> idx[k] < |s| && s[idx[k]].key == k)
  }

  // The plain finite map that the two structures represent.
  ghost function Entries<K>(s: seq<Node<K>>, idx: map<K, nat>): map<K, Entry<K>>
    requires IndexAgrees(s, idx)
  {
    map k | k in idx :: Entry(s[idx[k]].expiration, s[idx[k]].callback)
  }

  function Swapped<K>(s: seq<Node<K>>, i: nat, j: nat): seq<Node<K>>
    requires i < |s| && j < |s|
  {
    s[i := s[j]][j := s[i]]
  }

  function SmallerChild<K>(s: seq<Node<K>>, i: nat): nat
    requires 2 * i + 1 < |s|
  {
    if 2 * i + 2 < |s| && s[2 * i + 2].expiration < s[2 * i + 1].expiration then 2 * i + 2 else 2 * i + 1
  }

  function SiftedUp<K>(s: seq<Node<K>>, i: nat): (r: seq<Node<K>>)
    requires i < |s|
    ensures |r| == |s|
    decreases i
  {
    if i != 0 && s[Parent(i)].expiration >= s[i].expiration
    then SiftedUp(Swapped(s, Parent(i), i), Parent(i))
    else s
  }

  function SiftedDown<K>(s: seq<Node<K>>, i: nat): (r: seq<Node<K>>)
    requires i < |s|
    ensures |r| == |s|
    decreases |s| - i
  {
    if 2 * i + 1 < |s| && s[i].expiration > s[SmallerChild(s, i)].expiration
    then SiftedDown(Swapped(s, i, SmallerChild(s, i)), SmallerChild(s, i))
    else s
  }

  // ----- Lemmas about heaps

  // The root of a partially ordered array is below every node whose path to the root is in order.
  lemma {:induction false} RootIsLeastOnPath<K>(s: seq<Node<K>>, i: nat)
    requires i < |s|
    requires HeapOrdered(s[..i + 1])
    ensures s[0].expiration <= s[i].expiration
  {
    if i != 0 {
      var t := s[..i + 1];
      assert IsParent(Parent(i), i) && t[Parent(i)].expiration <= t[i].expiration;
      assert HeapOrdered(s[..Parent(i) + 1]);
      RootIsLeastOnPath(s, Parent(i));
    }
  }

  lemma RootIsLeast<K>(s: seq<Node<K>>)
    requires HeapOrdered(s)
    ensures forall i :: 0 <= i < |s| ==> s[0].expiration <= s[i].expiration
  {
    forall i | 0 <= i < |s|
      ensures s[0].expiration <= s[i].expiration
    {
      RootIsLeastOnPath(s, i);
    }
  }

  lemma {:induction false} SiftedUpIsHeap<K>(s: seq<Node<K>>, i: nat)
    requires OrderedExceptUp(s, i)
    ensures HeapOrdered(SiftedUp(s, i))
    decreases i
  {
    if i != 0 && s[Parent(i)].expiration >= s[i].expiration {
      var t := Swapped(s, Parent(i), i);
      assert OrderedExceptUp(t, Parent(i));
      SiftedUpIsHeap(t, Parent(i));
    }
  }

  /** Sifting up climbs over ties, so the node reaches the root exactly when it is not later than
      the node that was there; otherwise the root is left alone. */
  lemma {:induction false} SiftedUpRoot<K>(s: seq<Node<K>>, i: nat)
    requires i < |s|
    requires HeapOrdered(s[..i])
    ensures SiftedUp(s, i)[0] == if i == 0 || s[i].expiration <= s[0].expiration then s[i] else s[0]
    decreases i
  {
    if i != 0 {
      RootIsLeastOnPath(s, Parent(i));
      if s[Parent(i)].expiration >= s[i].expiration {
        SiftedUpRoot(Swapped(s, Parent(i), i), Parent(i));
      }
    }
  }

  // The node array in which removal has given position `i` the sentinel expiration time zero.
  function Sentineled<K>(s: seq<Node<K>>, i: nat): (t: seq<Node<K>>)
    requires i < |s|
  {
    s[i := s[i].(expiration := 0)]
  }

  /** The assertion inside `RemoveByIndex` holds exactly when the removed node is the root or no
      expiration time is negative (the root being the least one). */
  lemma SentinelReachesRoot<K>(s: seq<Node<K>>, i: nat)
    requires HeapOrdered(s) && i < |s|
    requires forall j, k :: 0 <= j < k < |s| ==> s[j].key != s[k].key
    ensures SiftedUp(Sentineled(s, i), i)[0].key == s[i].key <==> i == 0 || 0 <= s[0].expiration
  {
    SiftedUpRoot(Sentineled(s, i), i);
  }

  /** With a negative expiration time in the heap, removing another key would not find it at the root. */
  lemma SentinelFailsOnNegativeExpiration(cb: Callback<string>)
    ensures var s := [Node("early", -1, cb), Node("late", 5, cb)];
            HeapOrdered(s) && SiftedUp(Sentineled(s, 1), 1)[0].key == "early"
  {
    var s := [Node("early", -1, cb), Node("late", 5, cb)];
    assert s[0].key[0] != s[1].key[0];
    SiftedUpRoot(Sentineled(s, 1), 1);
  }

  // Exchanging a too large node with its smaller child moves the disorder down.
  lemma SwapDownKeepsOrder<K>(s: seq<Node<K>>, i: nat)
    requires OrderedExceptDown(s, i) && 2 * i + 1 < |s|
    requires s[i].expiration > s[SmallerChild(s, i)].expiration
    ensures OrderedExceptDown(Swapped(s, i, SmallerChild(s, i)), SmallerChild(s, i))
  {
    var least := SmallerChild(s, i);
    var t := Swapped(s, i, least);
    forall p, c {:trigger t[p], t[c]} | 0 <= p < c < |t| && IsParent(p, c) && p != least
      ensures t[p].expiration <= t[c].expiration
    {
      if p == i {
        assert c == 2 * i + 1 || c == 2 * i + 2;
        assert t[c] == if c == least then s[i] else s[c];
      } else {
        assert t[p] == s[p];
        if c == i {
          assert p == Parent(i) && t[i] == s[least];
        } else {
          assert c != least && t[c] == s[c];
        }
      }
    }
    assert Parent(least) == i && t[i] == s[least];
  }

  lemma {:induction false} SiftedDownIsHeap<K>(s: seq<Node<K>>, i: nat)
    requires OrderedExceptDown(s, i)
    ensures HeapOrdered(SiftedDown(s, i))
    decreases |s| - i
  {
    if 2 * i + 1 < |s| && s[i].expiration > s[SmallerChild(s, i)].expiration {
      SwapDownKeepsOrder(s, i);
      SiftedDownIsHeap(Swapped(s, i, SmallerChild(s, i)), SmallerChild(s, i));
    } else {
      assert HeapOrdered(s);
    }
  }

  lemma SwapKeepsAgreement<K>(s: seq<Node<K>>, idx: map<K, nat>, i: nat, j: nat)
    requires IndexAgrees(s, idx)
    requires i < |s| && j < |s| && i != j
    ensures IndexAgrees(Swapped(s, i, j), idx[s[j].key := i][s[i].key := j])
    ensures Entries(Swapped(s, i, j), idx[s[j].key := i][s[i].key := j]) == Entries(s, idx)
  {
  }

  lemma UpdateKeepsAgreement<K>(s: seq<Node<K>>, idx: map<K, nat>, i: nat, n: Node<K>)
    requires IndexAgrees(s, idx)
    requires i < |s| && n.key == s[i].key
    ensures IndexAgrees(s[i := n], idx)
    ensures Entries(s[i := n], idx) == Entries(s, idx)[n.key := Entry(n.expiration, n.callback)]
  {
  }

  lemma PushKeepsAgreement<K>(s: seq<Node<K>>, idx: map<K, nat>, n: Node<K>)
    requires IndexAgrees(s, idx) && n.key !in idx
    ensures IndexAgrees(s + [n], idx[n.key := |s|])
    ensures Entries(s + [n], idx[n.key := |s|]) == Entries(s, idx)[n.key := Entry(n.expiration, n.callback)]
  {
  }

  lemma LastOneLeaves<K>(s: seq<Node<K>>, idx: map<K, nat>)
    requires IndexAgrees(s, idx) && |s| == 1
    ensures s[0].key in idx && Entries(s, idx) - {s[0].key} == map[]
  {
    assert forall k :: k in idx ==> idx[k] == 0;
  }

  lemma ForgetUpdate<K>(model: map<K, Entry<K>>, key: K, entry: Entry<K>)
    ensures model[key := entry] - {key} == model - {key}
  {
  }

  // The array after exchanging the root with the last node and dropping the latter.
  function RootDropped<K>(s: seq<Node<K>>): (t: seq<Node<K>>)
    requires |s| >= 2
    ensures |t| == |s| - 1
  {
    Swapped(s, 0, |s| - 1)[..|s| - 1]
  }

  lemma RootDroppedAgrees<K>(s: seq<Node<K>>, idx: map<K, nat>)
    requires IndexAgrees(s, idx) && |s| >= 2
    ensures IndexAgrees(RootDropped(s), idx[s[|s| - 1].key := 0] - {s[0].key})
    ensures Entries(RootDropped(s), idx[s[|s| - 1].key := 0] - {s[0].key}) == Entries(s, idx) - {s[0].key}
  {
    var t, m := RootDropped(s), idx[s[|s| - 1].key := 0] - {s[0].key};
    assert forall i :: 0 <= i < |t| ==> t[i] == if i == 0 then s[|s| - 1] else s[i];
    assert forall k :: k in m ==> m[k] < |t|;
  }

  lemma AdjustedIsHeap<K>(s: seq<Node<K>>, i: nat, n: Node<K>)
    requires HeapOrdered(s) && i < |s|
    ensures HeapOrdered(if n.expiration < s[i].expiration then SiftedUp(s[i := n], i) else SiftedDown(s[i := n], i))
  {
    if n.expiration < s[i].expiration {
      SiftedUpIsHeap(s[i := n], i);
    } else {
      SiftedDownIsHeap(s[i := n], i);
    }
  }

  lemma PushedIsHeap<K>(s: seq<Node<K>>, n: Node<K>)
    requires HeapOrdered(s)
    ensures HeapOrdered(SiftedUp(s + [n], |s|))
  {
    SiftedUpIsHeap(s + [n], |s|);
  }

  // The node climbs to the root, and only the root is out of order then.
  lemma RemovalClimbs<K>(s: seq<Node<K>>, i: nat)
    requires HeapOrdered(s) && i < |s|
    requires i == 0 || 0 <= s[0].expiration
    ensures SiftedUp(Sentineled(s, i), i)[0] == Sentineled(s, i)[i]
    ensures OrderedExceptDown(SiftedUp(Sentineled(s, i), i), 0)
  {
    var t := Sentineled(s, i);
    SiftedUpRoot(t, i);
    if i != 0 {
      RootIsLeast(s);
      assert OrderedExceptUp(t, i);
      SiftedUpIsHeap(t, i);
    }
  }

  lemma RootDroppedIsHeap<K>(s: seq<Node<K>>)
    requires |s| >= 2 && OrderedExceptDown(s, 0)
    ensures HeapOrdered(SiftedDown(RootDropped(s), 0))
  {
    SiftedDownIsHeap(RootDropped(s), 0);
  }

  ghost function Among<K>(keys: seq<K>): set<K> {
    set k | k in keys
  }

  lemma WithoutNext<K>(model: map<K, Entry<K>>, keys: seq<K>, i: nat)
    requires i < |keys|
    ensures model - Among(keys[..i + 1]) == model - Among(keys[..i]) - {keys[i]}
  {
    assert keys[..i + 1] == keys[..i] + [keys[i]];
    assert Among(keys[..i + 1]) == Among(keys[..i]) + {keys[i]};
  }

  ghost function RemovedBy<K>(callback: Callback<K>): set<K> {
    Among(callback.removes)
  }

  function Max(a: Time, b: Time): Time {
    if a < b then b else a
  }

  // No entry expires before time `t`.
  ghost predicate NotBefore<K>(model: map<K, Entry<K>>, t: Time) {
    forall k :: k in model ==> t <= model[k].expiration
  }

  // The keys that a run of `Tick` took out of the timer.
  ghost function Gone<K>(fired: seq<Firing<K>>): set<K> {
    if fired == [] then {}
    else Gone(fired[..|fired| - 1]) + {fired[|fired| - 1].node.key} + RemovedBy(fired[|fired| - 1].node.callback)
  }

  /** Each firing is for a node of the initial timer that had expired at its clock reading and that no
      earlier firing had taken out; firings are in the order of expiration times. */
  ghost predicate FiringsFrom<K>(model: map<K, Entry<K>>, fired: seq<Firing<K>>, clock: nat -> Time) {
    && (forall i :: 0 <= i < |fired| ==> FitsAfter(model, fired[..i], fired[i], clock(i)))
    && (forall i :: 1 <= i < |fired| ==> fired[i - 1].node.expiration <= fired[i].node.expiration)
  }

  // What is asked of one firing, after those before it.
  ghost predicate FitsAfter<K>(model: map<K, Entry<K>>, before: seq<Firing<K>>, f: Firing<K>, at: Time) {
    f.at == at && FiringFits(model - Gone(before), f)
  }

  // The node comes from the map and has expired.
  ghost predicate FiringFits<K>(model: map<K, Entry<K>>, f: Firing<K>) {
    && f.node.key in model
    && model[f.node.key] == Entry(f.node.expiration, f.node.callback)
    && f.node.expiration <= f.at
  }

  lemma GoneExtends<K>(model: map<K, Entry<K>>, fired: seq<Firing<K>>, f: Firing<K>)
    ensures model - Gone(fired + [f]) == model - Gone(fired) - {f.node.key} - RemovedBy(f.node.callback)
  {
    assert (fired + [f])[..|fired|] == fired;
  }

  lemma SamePrefix<T>(s: seq<T>, x: T, i: nat)
    requires i < |s|
    ensures (s + [x])[..i] == s[..i] && (s + [x])[i] == s[i]
  {
  }

  lemma FiringsExtend<K>(model: map<K, Entry<K>>, fired: seq<Firing<K>>, f: Firing<K>, clock: nat -> Time)
    requires FiringsFrom(model, fired, clock)
    requires f.at == clock(|fired|) && FiringFits(model - Gone(fired), f)
    requires fired != [] ==> fired[|fired| - 1].node.expiration <= f.node.expiration
    ensures FiringsFrom(model, fired + [f], clock)
  {
    var all := fired + [f];
    forall i | 0 <= i < |all|
      ensures FitsAfter(model, all[..i], all[i], clock(i))
    {
      if i < |fired| {
        SamePrefix(fired, f, i);
        assert FitsAfter(model, fired[..i], fired[i], clock(i));
      } else {
        assert all[i] == f && all[..i] == fired;
      }
    }
  }

  lemma {:induction false} FiredKeysAreGone<K>(fired: seq<Firing<K>>, i: nat)
    requires i < |fired|
    ensures fired[i].node.key in Gone(fired)
    ensures RemovedBy(fired[i].node.callback) <= Gone(fired)
    decreases |fired|
  {
    if i < |fired| - 1 {
      FiredKeysAreGone(fired[..|fired| - 1], i);
    }
  }

  /** In one run of `Tick` no key fires twice, no key fires after an earlier callback removed it, and
      callbacks run in non-decreasing order of expiration time. */
  lemma {:induction false} FiringsAreOrderedAndUnique<K>(model: map<K, Entry<K>>, fired: seq<Firing<K>>,
                                                         clock: nat -> Time, i: nat, j: nat)
    requires FiringsFrom(model, fired, clock)
    requires i < j < |fired|
    ensures fired[i].node.key != fired[j].node.key
    ensures fired[j].node.key !in fired[i].node.callback.removes
    ensures fired[i].node.expiration <= fired[j].node.expiration
    decreases j
  {
    FiredKeysAreGone(fired[..j], i);
    assert fired[j].node.key !in RemovedBy(fired[i].node.callback);
    if i < j - 1 {
      FiringsAreOrderedAndUnique(model, fired, clock, i, j - 1);
    }
  }

  /** On a clock that never goes back, a key that was due by some reading of the run is no longer in
      the timer, and a key that was later than every reading has not fired. */
  lemma DueKeysLeave<K>(model: map<K, Entry<K>>, fired: seq<Firing<K>>, clock: nat -> Time, key: K, n: nat)
    requires FiringsFrom(model, fired, clock) && key in model && n <= |fired|
    requires forall a: nat, b: nat :: a <= b ==> clock(a) <= clock(b)
    requires NotBefore(model - Gone(fired), clock(|fired|) + 1)
    ensures model[key].expiration <= clock(n) ==> key in Gone(fired)
    ensures clock(|fired|) < model[key].expiration ==>
              forall i :: 0 <= i < |fired| ==> fired[i].node.key != key
  {
    assert clock(n) <= clock(|fired|);
    if key !in Gone(fired) {
      assert key in model - Gone(fired);
    }
    forall i | 0 <= i < |fired| && fired[i].node.key == key
      ensures model[key].expiration <= clock(|fired|)
    {
      assert clock(i) <= clock(|fired|);
    }
  }

  // `keys` has been popped from `model`, in order, and `rest` is what is left.
  ghost predicate Drained<K>(model: map<K, Entry<K>>, keys: seq<K>, rest: map<K, Entry<K>>) {
    && (forall k :: k in keys ==> k in model && k !in rest)
    && (forall k :: k in model && k !in keys ==> k in rest)
    && (forall k :: k in rest ==> k in model && rest[k] == model[k])
    && (forall i, k :: 0 <= i < |keys| && k in rest ==> model[keys[i]].expiration <= model[k].expiration)
    && (forall i, j :: 0 <= i < j < |keys| ==>
          keys[i] != keys[j] && model[keys[i]].expiration <= model[keys[j]].expiration)
  }

  lemma DrainedExtends<K>(model: map<K, Entry<K>>, keys: seq<K>, rest: map<K, Entry<K>>, key: K)
    requires Drained(model, keys, rest) && key in rest
    requires NotBefore(rest, rest[key].expiration)
    ensures Drained(model, keys + [key], rest - {key})
  {
  }

  class HeapTimer<K(==)> {
    var nodes: seq<Node<K>>
    var keyToIdx: map<K, nat>

    ghost var model: map<K, Entry<K>>  // the plain finite map that the timer stands for

    ghost predicate Represented()
      reads this
    {
      IndexAgrees(nodes, keyToIdx) && model == Entries(nodes, keyToIdx)
    }

    ghost predicate Valid()
      reads this
    {
      HeapOrdered(nodes) && Represented()
    }

    ghost predicate NonNegative()
      reads this
    {
      NotBefore(model, 0)
    }

    constructor ()
      ensures Valid() && model == map[]
    {
      nodes, keyToIdx, model := [], map[], map[];
    }

    method Clear()
      modifies this
      ensures Valid() && model == map[] && nodes == []
    {
      nodes, keyToIdx, model := [], map[], map[];
    }

    predicate Contain(key: K)
      reads this
    {
      key in keyToIdx
    }

    method Swap(i: nat, j: nat)
      requires Represented()
      requires i < |nodes| && j < |nodes|
      modifies this
      ensures Represented() && model == old(model)
      ensures nodes == Swapped(old(nodes), i, j)
    {
      if i != j {
        SwapKeepsAgreement(nodes, keyToIdx, i, j);
        nodes := Swapped(nodes, i, j);
        keyToIdx := keyToIdx[nodes[i].key := i];
        keyToIdx := keyToIdx[nodes[j].key := j];
      }
    }

    method ShiftUp(idx: nat)
      requires Represented() && idx < |nodes|
      modifies this
      ensures Represented() && model == old(model)
      ensures nodes == SiftedUp(old(nodes), idx)
    {
      var i: nat := idx;
      while i != 0
        invariant i < |nodes| && Represented() && model == old(model)
        invariant SiftedUp(nodes, i) == SiftedUp(old(nodes), idx)
      {
        var parent := Parent(i);
        if nodes[parent].expiration >= nodes[i].expiration {
          Swap(parent, i);
          i := parent;
        } else {
          break;
        }
      }
    }

    method ShiftDown(idx: nat)
      requires Represented() && idx < |nodes|
      modifies this
      ensures Represented() && model == old(model)
      ensures nodes == SiftedDown(old(nodes), idx)
    {
      var i: nat := idx;
      while 2 * i + 1 < |nodes|
        invariant i < |nodes| && Represented() && model == old(model)
        invariant SiftedDown(nodes, i) == SiftedDown(old(nodes), idx)
        decreases |nodes| - i
      {
        var child := SmallerChild(nodes, i);
        if nodes[i].expiration > nodes[child].expiration {
          Swap(i, child);
          i := child;
        } else {
          break;
        }
      }
    }

    // Give a node a new expiration time and, if there is one, a new callback; false when the key is unknown.
    method Adjust(key: K, expiration: Time, callback: Option<Callback<K>>) returns (found: bool)
      requires Valid()
      modifies this
      ensures Valid()
      ensures found == (key in old(model))
      ensures found ==>
                model == old(model)[key := Entry(expiration,
                                                     if callback.Some? then callback.value
                                                     else old(model)[key].callback)]
      ensures !found ==> model == old(model)
    {
      if key !in keyToIdx {
        return false;
      }
      var idx := keyToIdx[key];
      ghost var n := Node(key, expiration, if callback.Some? then callback.value else nodes[idx].callback);
      UpdateKeepsAgreement(nodes, keyToIdx, idx, n);
      AdjustedIsHeap(nodes, idx, n);

      if callback.Some? {
        nodes := nodes[idx := nodes[idx].(callback := callback.value)];
      }
      var shiftUp := expiration < nodes[idx].expiration;
      nodes := nodes[idx := nodes[idx].(expiration := expiration)];
      assert nodes == old(nodes)[idx := n];
      model := model[key := Entry(n.expiration, n.callback)];
      if shiftUp {
        ShiftUp(idx);
      } else {
        ShiftDown(idx);
      }
      return true;
    }

    method Push(key: K, expiration: Time, callback: Callback<K>)
      requires Valid()
      modifies this
      ensures Valid()
      ensures model == old(model)[key := Entry(expiration, callback)]
    {
      if !Contain(key) {
        PushKeepsAgreement(nodes, keyToIdx, Node(key, expiration, callback));
        PushedIsHeap(nodes, Node(key, expiration, callback));
        var idx := |nodes|;
        keyToIdx := keyToIdx[key := idx];
        nodes := nodes + [Node(key, expiration, callback)];
        model := model[key := Entry(expiration, callback)];
        ShiftUp(idx);
      } else {
        var _ := Adjust(key, expiration, Some(callback));
      }
    }

    // Remove the node at a position: send it to the root with the sentinel time, then drop the root.
    method RemoveByIndex(idx: nat) returns (key: K)
      requires Valid() && idx < |nodes|
      requires idx == 0 || 0 <= nodes[0].expiration
      modifies this
      ensures Valid() && |nodes| == old(|nodes|) - 1
      ensures key == old(nodes[idx].key)
      ensures key in old(model) && model == old(model) - {key}
    {
      key := nodes[idx].key;
      if |nodes| == 1 {
        LastOneLeaves(nodes, keyToIdx);
        Clear();
        return;
      }

      RemovalClimbs(nodes, idx);
      UpdateKeepsAgreement(nodes, keyToIdx, idx, nodes[idx].(expiration := 0));
      nodes := Sentineled(nodes, idx);
      ForgetUpdate(model, key, Entry(0, nodes[idx].callback));
      model := model[key := Entry(0, nodes[idx].callback)];
      ShiftUp(idx);
      assert nodes[0].key == key;
      DropRoot();
    }

    // Exchange the root with the last node, delete it and move the new root to its place.
    method DropRoot()
      requires Represented() && |nodes| >= 2 && OrderedExceptDown(nodes, 0)
      modifies this
      ensures Valid() && |nodes| == old(|nodes|) - 1
      ensures model == old(model) - {old(nodes[0].key)}
    {
      RootDroppedAgrees(nodes, keyToIdx);
      RootDroppedIsHeap(nodes);
      var key, last := nodes[0].key, |nodes| - 1;
      nodes := Swapped(nodes, 0, last);
      var front, back := nodes[0].key, nodes[last].key;
      assert front != back;
      keyToIdx := keyToIdx[front := keyToIdx[back]][back := keyToIdx[front]];
      nodes := nodes[..last];
      keyToIdx := keyToIdx - {key};
      assert nodes == RootDropped(old(nodes));
      assert keyToIdx == old(keyToIdx[nodes[last].key := 0] - {nodes[0].key});
      model := model - {key};
      ShiftDown(0);
    }

    method Remove(key: K) returns (removed: bool)
      requires Valid()
      requires key in keyToIdx && keyToIdx[key] != 0 ==> 0 <= nodes[0].expiration
      modifies this
      ensures Valid() && |nodes| <= old(|nodes|)
      ensures old(NonNegative()) ==> NonNegative()
      ensures removed == (key in old(model))
      ensures model == old(model) - {key}
    {
      removed := Contain(key);
      if removed {
        var _ := RemoveByIndex(keyToIdx[key]);
      }
    }

    method Pop() returns (key: K)
      requires Valid() && nodes != []
      modifies this
      ensures Valid() && |nodes| == old(|nodes|) - 1
      ensures key == old(nodes[0].key) && key in old(model)
      ensures old(model)[key] == Entry(old(nodes[0].expiration), old(nodes[0].callback))
      ensures NotBefore(old(model), old(model)[key].expiration)
      ensures model == old(model) - {key}
    {
      RootIsLeast(nodes);
      assert NotBefore(model, nodes[0].expiration);
      key := RemoveByIndex(0);
    }

    // Call the callback of an existing key, then remove the key; false when the key is unknown.
    method Invoke(key: K) returns (called: Option<Callback<K>>)
      requires Valid()
      requires key in keyToIdx && keyToIdx[key] != 0 ==> 0 <= nodes[0].expiration
      requires key in model ==> model[key].callback.removes == []
      modifies this
      ensures Valid()
      ensures old(NonNegative()) ==> NonNegative()
      ensures called == if key in old(model) then Some(old(model)[key].callback) else None
      ensures model == old(model) - {key}
    {
      if key !in keyToIdx {
        return None;
      }
      var idx := keyToIdx[key];
      called := Some(nodes[idx].callback);
      var _ := RemoveByIndex(idx);
    }

    // Remove a key from a timer without negative expiration times.
    method RemoveUsual(key: K)
      requires Valid() && NonNegative()
      modifies this
      ensures Valid() && NonNegative() && |nodes| <= old(|nodes|)
      ensures model == old(model) - {key}
    {
      assert nodes != [] ==> nodes[0].key in model;
      var _ := Remove(key);
    }

    // The body of a callback: remove its keys one by one.
    method RunCallback(callback: Callback<K>)
      requires Valid() && NonNegative()
      modifies this
      ensures Valid() && NonNegative() && |nodes| <= old(|nodes|)
      ensures model == old(model) - RemovedBy(callback)
    {
      ghost var before := model;
      for i := 0 to |callback.removes|
        invariant Valid() && NonNegative() && |nodes| <= old(|nodes|)
        invariant model == before - Among(callback.removes[..i])
      {
        WithoutNext(before, callback.removes, i);
        RemoveUsual(callback.removes[i]);
      }
      assert callback.removes[..|callback.removes|] == callback.removes;
    }

    /** Remove the expired nodes, earliest first, and run their callbacks. `clock(n)` is the n-th
        reading of the steady clock; one reading is spent on each inspected root. */
    method Tick(clock: nat -> Time) returns (fired: seq<Firing<K>>)
      requires Valid() && NonNegative()
      modifies this
      ensures Valid() && NonNegative()
      ensures model == old(model) - Gone(fired)
      ensures FiringsFrom(old(model), fired, clock)
      ensures NotBefore(model, clock(|fired|) + 1)
    {
      fired := [];
      while nodes != []
        invariant Valid() && NonNegative()
        invariant model == old(model) - Gone(fired)
        invariant FiringsFrom(old(model), fired, clock)
        invariant fired != [] ==> NotBefore(model, fired[|fired| - 1].node.expiration)
        decreases |nodes|
      {
        var node := nodes[0];
        var now := clock(|fired|);
        if now < node.expiration {
          RootIsLeast(nodes);
          assert NotBefore(model, node.expiration);
          break;
        }
        var _ := Pop();
        FiringsExtend(old(model), fired, Firing(node, now), clock);
        GoneExtends(old(model), fired, Firing(node, now));
        fired := fired + [Firing(node, now)];
        RunCallback(node.callback);
      }
    }

    // The interval until the next expiration after a `Tick`; the last reading of the clock is the one it is taken at.
    method ToNextTick(clock: nat -> Time) returns (interval: Time, fired: seq<Firing<K>>)
      requires Valid() && NonNegative()
      modifies this
      ensures Valid() && NonNegative()
      ensures model == old(model) - Gone(fired)
      ensures FiringsFrom(old(model), fired, clock)
      ensures NotBefore(model, clock(|fired|) + 1)
      ensures 0 <= interval
      ensures model == map[] ==> interval == 0
      ensures model != map[] ==>
                exists k :: k in model && NotBefore(model, model[k].expiration)
                            && interval == Max(0, model[k].expiration - clock(|fired| + 1))
    {
      fired := Tick(clock);
      if nodes != [] {
        RootIsLeast(nodes);
        assert nodes[0].key in model;
        interval := nodes[0].expiration - clock(|fired| + 1);
        if interval > 0 {
          return;
        }
      }
      interval := 0;
    }

    // Popping until the timer is empty lists every key once, in the order of expiration times.
    method Drain() returns (keys: seq<K>)
      requires Valid()
      modifies this
      ensures Valid() && model == map[]
      ensures Drained(old(model), keys, map[])
    {
      keys := [];
      ghost var before := model;
      while nodes != []
        invariant Valid()
        invariant Drained(before, keys, model)
        decreases |nodes|
      {
        ghost var rest := model;
        var key := Pop();
        DrainedExtends(before, keys, rest, key);
        keys := keys + [key];
      }
    }
  }
}
