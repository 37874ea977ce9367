/** The fold's queue of available pairs: which iterators have one, ordered by key. */
module Queues {
  import opened Pairs
  import opened Chains
  import opened Skiparrays

  datatype PairState = NotAvailable | AvailableLt | AvailableEq

  /** What the fold keeps per input: its last pair and its iterator, null once done. */
  datatype IterState = IterState(state: PairState, pair: Pair, iter: Iter?)

  ghost predicate Differ(its: seq<IterState>, i: nat, j: nat)
    requires i < |its| && j < |its|
  {
    its[i].iter != null ==> its[i].iter != its[j].iter
  }

  /** No two inputs share an iterator. */
  ghost predicate Unshared(its: seq<IterState>) {
    forall i, j {:trigger Differ(its, i, j)} :: 0 <= i < j < |its| ==> Differ(its, i, j)
  }

  function Rank(its: seq<IterState>, id: nat): int
    requires id < |its|
  {
    its[id].pair.key.rank
  }

  ghost predicate IdsBelow(w: seq<nat>, n: nat) {
    forall a :: 0 <= a < |w| ==> w[a] < n
  }

  ghost predicate Before(its: seq<IterState>, w: seq<nat>, a: nat, b: nat)
    requires IdsBelow(w, |its|) && a < |w| && b < |w|
  {
    w[a] != w[b] && Rank(its, w[a]) <= Rank(its, w[b])
  }

  /** Sorted by key, and no entry twice. */
  ghost predicate Sorted(its: seq<IterState>, w: seq<nat>)
    requires IdsBelow(w, |its|)
  {
    forall a, b {:trigger Before(its, w, a, b)} :: 0 <= a < b < |w| ==> Before(its, w, a, b)
  }

  lemma SortedDistinct(its: seq<IterState>, w: seq<nat>)
    requires IdsBelow(w, |its|) && Sorted(its, w)
    ensures Distinct(w)
  {
    forall a, b | 0 <= a < b < |w| ensures w[a] != w[b] {
      assert Before(its, w, a, b);
    }
  }

  ghost predicate Marked(its: seq<IterState>, w: seq<nat>, a: nat)
    requires IdsBelow(w, |its|) && a < |w|
  {
    its[w[a]].state == if a + 1 < |w| && Rank(its, w[a]) == Rank(its, w[a + 1]) then AvailableEq else AvailableLt
  }

  /** The queue holds each available input once, sorted by key; an entry is EQ exactly when
      the next entry's key is equal, and else LT. */
  ghost predicate Queued(its: seq<IterState>, w: seq<nat>) {
    && IdsBelow(w, |its|) && Sorted(its, w)
    && (forall i {:trigger i in w} :: 0 <= i < |its| ==> (its[i].state.NotAvailable? <==> i !in w))
    && (forall a {:trigger Marked(its, w, a)} :: 0 <= a < |w| ==> Marked(its, w, a))
  }

  lemma {:induction false} DistinctBelow(w: seq<nat>, n: nat)
    requires Distinct(w) && IdsBelow(w, n)
    ensures |w| <= n
    decreases n
  {
    if |w| > 0 && w[0] >= n {
      assert false;
    }
    if n > 0 {
      if n - 1 in w {
        var k :| 0 <= k < |w| && w[k] == n - 1;
        DistinctBelow(Removed(w, k), n - 1);
      } else {
        DistinctBelow(w, n - 1);
      }
    }
  }

  lemma InsertedIds(w: seq<nat>, n: nat, id: nat, c: nat)
    requires IdsBelow(w, n) && Distinct(w) && id < n && id !in w && c <= |w|
    ensures IdsBelow(Inserted(w, c, id), n) && Distinct(Inserted(w, c, id))
    ensures forall i :: i in Inserted(w, c, id) <==> i == id || i in w
  {
    var v := Inserted(w, c, id);
    assert forall a :: 0 <= a < |v| ==> v[a] == if a < c then w[a] else if a == c then id else w[a - 1];
    assert v[c] == id;
    assert forall a :: 0 <= a < |w| ==> w[a] == v[if a < c then a else a + 1];
  }

  lemma InsertedSorted(its: seq<IterState>, w: seq<nat>, id: nat, c: nat)
    requires IdsBelow(w, |its|) && Sorted(its, w) && id < |its| && id !in w && c <= |w|
    requires IdsBelow(Inserted(w, c, id), |its|)
    requires forall a :: 0 <= a < c ==> Rank(its, w[a]) < Rank(its, id)
    requires c < |w| ==> Rank(its, id) <= Rank(its, w[c])
    ensures Sorted(its, Inserted(w, c, id))
  {
    var v := Inserted(w, c, id);
    forall a, b | 0 <= a < b < |v| ensures Before(its, v, a, b) {
      assert v[a] == if a < c then w[a] else if a == c then id else w[a - 1];
      assert v[b] == if b < c then w[b] else if b == c then id else w[b - 1];
      var a', b' := if a < c then a else if a == c then c else a - 1, if b < c then b else b - 1;
      assert a' < b' ==> Before(its, w, a', b');
      assert w[b'] in w;
    }
  }

  /** Being sorted is about the keys only. */
  lemma SameSorted(its: seq<IterState>, its': seq<IterState>, w: seq<nat>)
    requires IdsBelow(w, |its|) && Sorted(its, w) && |its'| == |its|
    requires forall i: nat :: i < |its| && i in w ==> Rank(its', i) == Rank(its, i)
    ensures Sorted(its', w)
  {
    forall a, b | 0 <= a < b < |w| ensures Before(its', w, a, b) {
      assert Before(its, w, a, b) && w[a] in w && w[b] in w;
    }
  }

  /** Entering a new pair before the first entry whose key is not smaller keeps the queue. */
  lemma QueuedInserted(its: seq<IterState>, w: seq<nat>, id: nat, c: nat)
    requires Queued(its, w) && id < |its| && its[id].state.NotAvailable? && c <= |w|
    requires forall a :: 0 <= a < c ==> Rank(its, w[a]) < Rank(its, id)
    requires c < |w| ==> Rank(its, id) <= Rank(its, w[c])
    ensures var st := if c < |w| && Rank(its, id) == Rank(its, w[c]) then AvailableEq else AvailableLt;
            Queued(its[id := its[id].(state := st)], Inserted(w, c, id))
  {
    var st := if c < |w| && Rank(its, id) == Rank(its, w[c]) then AvailableEq else AvailableLt;
    var its', v := its[id := its[id].(state := st)], Inserted(w, c, id);
    assert id !in w;
    SortedDistinct(its, w);
    InsertedIds(w, |its|, id, c);
    InsertedSorted(its, w, id, c);
    assert forall i: nat :: i < |its| ==> Rank(its', i) == Rank(its, i);
    SameSorted(its, its', v);
    forall i | 0 <= i < |its| ensures its'[i].state.NotAvailable? <==> i !in v {
      assert i != id ==> (its[i].state.NotAvailable? <==> i !in w);
    }
    forall a | 0 <= a < |v| ensures Marked(its', v, a) {
      InsertedMarked(its, w, id, c, a);
    }
  }

  lemma InsertedMarked(its: seq<IterState>, w: seq<nat>, id: nat, c: nat, a: nat)
    requires Queued(its, w) && id < |its| && id !in w && c <= |w|
    requires IdsBelow(Inserted(w, c, id), |its|) && a < |Inserted(w, c, id)|
    requires forall b :: 0 <= b < c ==> Rank(its, w[b]) < Rank(its, id)
    requires c < |w| ==> Rank(its, id) <= Rank(its, w[c])
    ensures var st := if c < |w| && Rank(its, id) == Rank(its, w[c]) then AvailableEq else AvailableLt;
            Marked(its[id := its[id].(state := st)], Inserted(w, c, id), a)
  {
    var v := Inserted(w, c, id);
    if a < c {
      assert Marked(its, w, a);
      assert v[a] == w[a] && w[a] in w;
      assert v[a + 1] == if a + 1 < c then w[a + 1] else id;
      assert c < |w| && a + 1 < c ==> w[a + 1] in w;
    } else if a == c {
      assert v[a] == id && (c < |w| ==> v[a + 1] == w[c] && w[c] in w);
    } else {
      assert Marked(its, w, a - 1);
      assert v[a] == w[a - 1] && w[a - 1] in w && (a < |w| ==> v[a + 1] == w[a] && w[a] in w);
    }
  }

  /** What an input that is not in the queue last read does not matter to it. */
  lemma QueuedReread(its: seq<IterState>, w: seq<nat>, id: nat, pair: Pair)
    requires Queued(its, w) && id < |its| && its[id].state.NotAvailable?
    ensures Queued(its[id := its[id].(pair := pair)], w)
  {
    var its' := its[id := its[id].(pair := pair)];
    assert id !in w;
    SameSorted(its, its', w);
    forall i | 0 <= i < |its| ensures its'[i].state.NotAvailable? <==> i !in w {
      assert its[i].state.NotAvailable? <==> i !in w;
    }
    forall a | 0 <= a < |w| ensures Marked(its', w, a) {
      assert Marked(its, w, a) && w[a] in w && (a + 1 < |w| ==> w[a + 1] in w);
    }
  }

  /** Nor does where any input's iterator is. */
  lemma QueuedMoved(its: seq<IterState>, w: seq<nat>, id: nat, it: Iter?)
    requires Queued(its, w) && id < |its|
    ensures Queued(its[id := its[id].(iter := it)], w)
  {
    var its' := its[id := its[id].(iter := it)];
    assert forall i: nat :: i < |its| ==> Rank(its', i) == Rank(its, i);
    SameSorted(its, its', w);
    forall i | 0 <= i < |its| ensures its'[i].state.NotAvailable? <==> i !in w {
      assert its[i].state.NotAvailable? <==> i !in w;
    }
    forall a | 0 <= a < |w| ensures Marked(its', w, a) {
      assert Marked(its, w, a);
    }
  }

  /** Marks the entries as used up. */
  ghost function Used(its: seq<IterState>, ids: seq<nat>): seq<IterState> {
    seq(|its|, i requires 0 <= i < |its| => if i in ids then its[i].(state := NotAvailable) else its[i])
  }

  /** Taking entries from the front keeps the queue. */
  lemma QueuedDropped(its: seq<IterState>, w: seq<nat>, used: nat)
    requires Queued(its, w) && used <= |w|
    ensures Queued(Used(its, w[..used]), w[used..])
  {
    var its', v := Used(its, w[..used]), w[used..];
    assert forall i: nat :: i < |its| ==> Rank(its', i) == Rank(its, i);
    forall a, b | 0 <= a < b < |v| ensures Before(its', v, a, b) {
      assert Before(its, w, used + a, used + b);
    }
    SortedDistinct(its, w);
    forall i | 0 <= i < |its| ensures its'[i].state.NotAvailable? <==> i !in v {
      assert w == w[..used] + v;
      assert its[i].state.NotAvailable? <==> i !in w;
    }
    forall a | 0 <= a < |v| ensures Marked(its', v, a) {
      assert v[a] !in w[..used] && v[a] == w[used + a] && Marked(its, w, used + a);
    }
  }

  /** The first entry's key is the smallest, and it is shared by exactly the entries of its
      run: the ones marked EQ in front, and the one LT that ends them. */
  lemma {:induction false} FrontRun(its: seq<IterState>, w: seq<nat>, used: nat)
    requires Queued(its, w) && used < |w|
    requires forall a :: 0 <= a < used ==> its[w[a]].state.AvailableEq?
    ensures forall a :: 0 <= a <= used ==> Rank(its, w[a]) == Rank(its, w[0])
    ensures forall a :: 0 <= a < |w| ==> Rank(its, w[0]) <= Rank(its, w[a])
  {
    forall a | 0 <= a < |w| ensures Rank(its, w[0]) <= Rank(its, w[a]) {
      assert a > 0 ==> Before(its, w, 0, a);
    }
    if used > 0 {
      FrontRun(its, w, used - 1);
      assert Marked(its, w, used - 1);
    }
  }

  /** The merge callback must choose one of the keys it is given. */
  ghost predicate Chooses(merge: (seq<Key>, seq<Value>) -> (nat, Value)) {
    forall ks, vs {:trigger merge(ks, vs)} :: |ks| == |vs| > 0 ==> merge(ks, vs).0 < |ks|
  }

  function Keys(pairs: seq<Pair>): seq<Key> {
    seq(|pairs|, i requires 0 <= i < |pairs| => pairs[i].key)
  }

  function Values(pairs: seq<Pair>): seq<Value> {
    seq(|pairs|, i requires 0 <= i < |pairs| => pairs[i].value)
  }

  /** One step's callbacks: the pairs it used up and the inputs they came from, and the key
      and value passed to the fold callback. */
  datatype Call = Call(ids: seq<nat>, pairs: seq<Pair>, key: Key, value: Value)

  /** The callbacks for the front of the queue. A pair whose key is not followed by an equal
      one goes to the fold callback as it is. Else all of its run but the last go through
      the merge callback first. */
  ghost predicate CallsFor(call: Call, its: seq<IterState>, w: seq<nat>, merge: (seq<Key>, seq<Value>) -> (nat, Value))
    requires IdsBelow(w, |its|)
  {
    var n := |call.ids|;
    && 0 < n <= |w| && call.ids == w[..n] && |call.pairs| == n
    && (forall a :: 0 <= a < n ==> call.pairs[a] == its[w[a]].pair)
    && (n < |w| && its[w[0]].state.AvailableEq? ==>
          its[w[n]].state.AvailableLt? && forall a :: 0 <= a < n ==> its[w[a]].state.AvailableEq?)
    && (its[w[0]].state.AvailableEq? ==> n < |w|)
    && if its[w[0]].state.AvailableLt? then n == 1 && Pair(call.key, call.value) == call.pairs[0]
       else var m := merge(Keys(call.pairs), Values(call.pairs));
            m.0 < n && call.key == call.pairs[m.0].key && call.value == m.1
  }

  // ----- Among equal keys -----

  /** How many calls there had been when input i was last used: 0 if it never was. */
  ghost function LastUse(log: seq<Call>, i: nat): (n: nat)
    ensures n <= |log|
  {
    if log == [] then 0
    else if i in log[|log| - 1].ids then |log|
    else LastUse(log[..|log| - 1], i)
  }

  /** Input i was read after input j: once used, an input is read before the next call, and
      those that are, in the order of their ids. */
  ghost predicate ReadAfter(log: seq<Call>, i: nat, j: nat) {
    LastUse(log, i) > LastUse(log, j) || (LastUse(log, i) == LastUse(log, j) && i > j)
  }

  ghost predicate InFront(its: seq<IterState>, w: seq<nat>, log: seq<Call>, a: nat, b: nat)
    requires IdsBelow(w, |its|) && a < |w| && b < |w|
  {
    Rank(its, w[a]) == Rank(its, w[b]) ==> ReadAfter(log, w[a], w[b])
  }

  /** Of equal keys in the queue, the one read last is in front; since the last call, only
      the first n inputs have been read. */
  ghost predicate Turned(its: seq<IterState>, w: seq<nat>, log: seq<Call>, n: nat)
    requires IdsBelow(w, |its|)
  {
    && (forall a, b {:trigger InFront(its, w, log, a, b)} :: 0 <= a < b < |w| ==> InFront(its, w, log, a, b))
    && (forall a {:trigger LastUse(log, w[a])} :: 0 <= a < |w| && LastUse(log, w[a]) == |log| ==> w[a] < n)
  }

  /** An input that is to be read was used by the last call, if there was one. */
  ghost predicate Due(its: seq<IterState>, log: seq<Call>) {
    forall i {:trigger LastUse(log, i)} :: 0 <= i < |its| && its[i].state.NotAvailable? && its[i].iter != null ==> LastUse(log, i) == |log|
  }

  /** Entering a pair in front of those with an equal key keeps the latest in front. */
  lemma TurnedInserted(its: seq<IterState>, its': seq<IterState>, w: seq<nat>, log: seq<Call>, id: nat, c: nat)
    requires IdsBelow(w, |its|) && Turned(its, w, log, id)
    requires id < |its| == |its'| && id !in w && c <= |w| && LastUse(log, id) == |log|
    requires forall i {:trigger its'[i]} :: 0 <= i < |its| && i != id ==> its'[i] == its[i]
    requires forall a :: 0 <= a < c ==> Rank(its, w[a]) < Rank(its', id)
    requires IdsBelow(Inserted(w, c, id), |its'|)
    ensures Turned(its', Inserted(w, c, id), log, id + 1)
  {
    var v := Inserted(w, c, id);
    forall a, b | 0 <= a < b < |v| ensures InFront(its', v, log, a, b) {
      InFrontInserted(its, its', w, log, id, c, a, b);
    }
    forall a | 0 <= a < |v| && LastUse(log, v[a]) == |log| ensures v[a] < id + 1 {
      assert a != c ==> v[a] == w[if a < c then a else a - 1];
    }
  }

  lemma InsertedOld(w: seq<nat>, id: nat, c: nat, a: nat) returns (o: nat)
    requires c <= |w| && a <= |w| && a != c && id !in w
    ensures o == (if a < c then a else a - 1) && o < |w|
    ensures Inserted(w, c, id)[a] == w[o] != id
  {
    o := if a < c then a else a - 1;
    assert w[o] in w;
  }

  lemma InFrontInserted(its: seq<IterState>, its': seq<IterState>, w: seq<nat>, log: seq<Call>, id: nat, c: nat, a: nat, b: nat)
    requires IdsBelow(w, |its|) && Turned(its, w, log, id)
    requires id < |its| == |its'| && id !in w && c <= |w| && LastUse(log, id) == |log|
    requires forall i {:trigger its'[i]} :: 0 <= i < |its| && i != id ==> its'[i] == its[i]
    requires forall e :: 0 <= e < c ==> Rank(its, w[e]) < Rank(its', id)
    requires IdsBelow(Inserted(w, c, id), |its'|) && a < b <= |w|
    ensures InFront(its', Inserted(w, c, id), log, a, b)
  {
    if b == c {
      var o := InsertedOld(w, id, c, a);
    } else {
      var p := InsertedOld(w, id, c, b);
      if a != c {
        var o := InsertedOld(w, id, c, a);
        assert InFront(its, w, log, o, p);
      }
    }
  }

  /** It is about the pairs only. */
  lemma TurnedSame(its: seq<IterState>, its': seq<IterState>, w: seq<nat>, log: seq<Call>, n: nat)
    requires IdsBelow(w, |its|) && Turned(its, w, log, n) && |its'| == |its|
    requires forall i {:trigger its'[i]} :: 0 <= i < |its| ==> its'[i].pair == its[i].pair
    ensures Turned(its', w, log, n)
  {
    forall a, b | 0 <= a < b < |w| ensures InFront(its', w, log, a, b) {
      assert InFront(its, w, log, a, b);
    }
  }

  lemma LastUseMore(log: seq<Call>, call: Call, i: nat)
    ensures LastUse(log + [call], i) == if i in call.ids then |log| + 1 else LastUse(log, i)
  {
    assert (log + [call])[..|log|] == log;
  }

  /** The next call takes its entries from the front; a new round of reading begins. */
  lemma TurnedDropped(its: seq<IterState>, w: seq<nat>, log: seq<Call>, n: nat, call: Call)
    requires IdsBelow(w, |its|) && Turned(its, w, log, n) && Distinct(w)
    requires |call.ids| <= |w| && call.ids == w[..|call.ids|]
    ensures Turned(Used(its, call.ids), w[|call.ids|..], log + [call], 0)
  {
    var used := |call.ids|;
    var its', v := Used(its, call.ids), w[used..];
    forall a | 0 <= a < |v| ensures LastUse(log + [call], v[a]) == LastUse(log, v[a]) {
      assert v[a] == w[used + a] && v[a] !in w[..used];
      LastUseMore(log, call, v[a]);
    }
    forall a, b | 0 <= a < b < |v| ensures InFront(its', v, log + [call], a, b) {
      assert InFront(its, w, log, used + a, used + b);
    }
  }

  lemma DueNext(its: seq<IterState>, log: seq<Call>, call: Call)
    requires forall i :: 0 <= i < |its| ==> its[i].iter == null || !its[i].state.NotAvailable?
    ensures Due(Used(its, call.ids), log + [call])
  {
    forall i: nat | i < |its| && i in call.ids ensures LastUse(log + [call], i) == |log| + 1 {
      LastUseMore(log, call, i);
    }
  }
}
