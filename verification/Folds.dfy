/** Folding over several skiparrays at once: a merge of their iterators, stepped in place. */
module Folds {
  import opened Pairs
  import opened Nodes
  import opened Chains
  import opened Skiparrays
  import opened Queues
  import opened Merges

  /** A skiparray whose nodes and iterators are among these, in good order. */
  ghost predicate SourceOk(s: Skiparray, nodes: set<object>, handles: set<Iter>)
    reads s, nodes, handles
  {
    && s.Repr <= nodes && (forall i :: 0 <= i < |s.iters| ==> s.iters[i] in handles)
    && s.Valid() && s.Iterating()
  }

  ghost predicate AllOk(sas: seq<Skiparray>, nodes: set<object>, handles: set<Iter>)
    reads sas, nodes, handles
  {
    forall i {:trigger SourceOk(sas[i], nodes, handles)} :: 0 <= i < |sas| ==> SourceOk(sas[i], nodes, handles)
  }

  /** The iterators of one skiparray are no part of another. */
  lemma Elsewhere(sas: seq<Skiparray>, nodes: set<object>, handles: set<Iter>, t: Skiparray)
    requires AllOk(sas, nodes, handles) && t in sas
    ensures SourceOk(t, nodes, handles)
    ensures forall o {:trigger o in t.iters} :: o in t.iters ==> o in handles && o.sa == t
    ensures forall i, o {:trigger o in sas[i].Repr} :: 0 <= i < |sas| && o in sas[i].Repr ==> o != t && o !in t.iters
    ensures forall i, o {:trigger o in sas[i].iters} :: 0 <= i < |sas| && o in sas[i].iters ==> o.sa == sas[i]
  {
    var j :| 0 <= j < |sas| && sas[j] == t;
    assert SourceOk(sas[j], nodes, handles) && IsHandle(t);
    forall o | o in t.iters ensures o in handles && o.sa == t {
      assert t.Positioned(o);
    }
    forall i, o {:trigger o in sas[i].Repr} | 0 <= i < |sas| && o in sas[i].Repr ensures o != t && o !in t.iters {
      assert SourceOk(sas[i], nodes, handles) && !IsHandle(o) && IsHandle(t);
    }
    forall i, o | 0 <= i < |sas| && o in sas[i].iters ensures o.sa == sas[i] {
      assert SourceOk(sas[i], nodes, handles) && sas[i].Positioned(o);
    }
  }

  /** The iterators of a fold that are still live. */
  ghost function Owned(its: seq<IterState>): set<Iter?> {
    set i | 0 <= i < |its| && its[i].iter != null :: its[i].iter
  }

  /** The input is the skiparray's pairs, in the order of the fold. */
  ghost predicate InOrder(left: bool, s: seq<Pair>, t: seq<Pair>) {
    |t| == |s| && forall k {:trigger t[k]} :: 0 <= k < |t| ==> t[k] == s[if left then k else |s| - 1 - k]
  }

  lemma InputsFor(left: bool, sas: seq<Skiparray>, n: nat) returns (input: Inputs)
    requires n <= |sas|
    ensures |input| == n
    ensures forall i {:trigger InOrder(left, sas[i].Contents(), input[i])} :: 0 <= i < n ==>
              InOrder(left, sas[i].Contents(), input[i])
  {
    if n == 0 {
      input := [];
    } else {
      var before := InputsFor(left, sas, n - 1);
      var s := sas[n - 1].Contents();
      var t := if left then s else seq(|s|, k requires 0 <= k < |s| => s[|s| - 1 - k]);
      input := before + [t];
      forall i | 0 <= i < n ensures InOrder(left, sas[i].Contents(), input[i]) {
        assert i < n - 1 ==> InOrder(left, sas[i].Contents(), before[i]);
      }
    }
  }

  // ----- Opening the iterators -----

  /** A new iterator on one skiparray, at the end the fold starts from. */
  method OpenOne(left: bool, s: Skiparray, allocOk: bool, ghost sas: seq<Skiparray>, ghost nodes: set<object>,
                 ghost handles: set<Iter>) returns (res: NewIterResult)
    requires s in sas && AllOk(sas, nodes, handles)
    modifies s`iter, s`iters, handles`prev
    ensures AllOk(sas, nodes, if res.NewIter? then handles + {res.it} else handles)
    ensures res.NewIterEmpty? <==> s.Contents() == []
    ensures res.NewIterErrorMemory? <==> s.Contents() != [] && !allocOk
    ensures res.NewIter? ==> fresh(res.it) && StartsAt(left, s, res.it)
    ensures s.iters == if res.NewIter? then [res.it] + old(s.iters) else old(s.iters)
  {
    Elsewhere(sas, nodes, handles, s);
    ghost var its := s.iters;
    res := NewAt(left, s, allocOk);
    ghost var more := if res.NewIter? then handles + {res.it} else handles;
    forall i | 0 <= i < |sas| ensures SourceOk(sas[i], nodes, more) {
      assert old(SourceOk(sas[i], nodes, handles));
      if sas[i] != s {
        assert forall o :: o in sas[i].iters ==> o !in its;
        sas[i].StillIterating();
      }
    }
  }

  method NewAt(left: bool, s: Skiparray, allocOk: bool) returns (res: NewIterResult)
    requires s.Valid() && s.Iterating()
    modifies s`iter, s`iters, s.iters`prev
    ensures s.Valid() && s.Iterating()
    ensures res.NewIterEmpty? <==> s.Contents() == []
    ensures res.NewIterErrorMemory? <==> s.Contents() != [] && !allocOk
    ensures res.NewIter? ==> fresh(res.it) && StartsAt(left, s, res.it)
    ensures s.iters == if res.NewIter? then [res.it] + old(s.iters) else old(s.iters)
  {
    res := s.NewIterator(allocOk);
    if res.NewIter? && !left {
      res.it.SeekLast();
    }
  }

  ghost predicate StartsAt(left: bool, s: Skiparray, it: Iter)
    reads s, it
  {
    && s.Contents() != [] && it.sa == s && it in s.iters && it.at <= |s.wins|
    && it.Place() == if left then 0 else |s.Contents()| - 1
  }

  ghost predicate Begun(left: bool, s: Skiparray, others: set<Iter>, st: IterState, handles: set<Iter>)
    reads s, handles
  {
    && st.state.NotAvailable? && (st.iter == null ==> s.Contents() == [])
    && (st.iter != null ==> st.iter in handles && st.iter !in others && StartsAt(left, s, st.iter))
  }

  /** The first inputs have their iterators, and no other is live but the ones before. */
  ghost predicate Opened(left: bool, sas: seq<Skiparray>, others: set<Iter>, its: seq<IterState>, handles: set<Iter>)
    reads sas, handles
  {
    && |its| <= |sas| && others <= handles && Unshared(its)
    && (forall k {:trigger Begun(left, sas[k], others, its[k], handles)} :: 0 <= k < |its| ==>
          Begun(left, sas[k], others, its[k], handles))
    && (forall s, o {:trigger o in s.iters} :: s in sas && o in s.iters ==> o in others || o in Owned(its))
    && (forall o :: o in others ==> o.sa in sas && o in o.sa.iters)
  }

  lemma OwnedMore(its: seq<IterState>, st: IterState)
    ensures Owned(its + [st]) == Owned(its) + if st.iter == null then {} else {st.iter}
    ensures Unshared(its) && st.iter !in Owned(its) ==> Unshared(its + [st])
  {
    var more := its + [st];
    forall o ensures o in Owned(more) <==> o in Owned(its) || (o != null && o == st.iter) {
      if o in Owned(its) {
        var i :| 0 <= i < |its| && its[i].iter != null && its[i].iter == o;
        assert more[i].iter == o;
      }
      if o != null && o == st.iter {
        assert more[|its|].iter == o;
      }
    }
    if Unshared(its) && st.iter !in Owned(its) {
      forall i, j | 0 <= i < j < |more| ensures Differ(more, i, j) {
        assert j < |its| ==> Differ(its, i, j);
        assert its[i].iter != null ==> its[i].iter in Owned(its);
      }
    }
  }

  lemma OwnedCount(its: seq<IterState>, st: IterState)
    requires Unshared(its + [st])
    ensures |Owned(its + [st])| == |Owned(its)| + if st.iter == null then 0 else 1
  {
    OwnedMore(its, st);
    forall i | 0 <= i < |its| && its[i].iter != null ensures its[i].iter != st.iter {
      assert Differ(its + [st], i, |its|);
    }
  }

  method OpenNext(left: bool, sas: seq<Skiparray>, its: seq<IterState>, allocOk: bool, ghost nodes: set<object>,
                  ghost others: set<Iter>, ghost handles: set<Iter>) returns (next: Option<IterState>, ghost more: set<Iter>)
    requires |its| < |sas| && AllOk(sas, nodes, handles) && Opened(left, sas, others, its, handles)
    modifies sas`iter, sas`iters, handles`prev
    ensures handles <= more && fresh(more - handles) && AllOk(sas, nodes, more)
    ensures next.Some? <==> Granted(sas[|its|], allocOk)
    ensures Opened(left, sas, others, if next.Some? then its + [next.value] else its, more)
    ensures next.Some? ==> |Owned(its + [next.value])| == |Owned(its)| + if next.value.iter == null then 0 else 1
  {
    var s := sas[|its|];
    var res := OpenOne(left, s, allocOk, sas, nodes, handles);
    more := if res.NewIter? then handles + {res.it} else handles;
    assert Opened(left, sas, if res.NewIter? then others + {res.it} else others, its, more) by {
      ghost var before := if res.NewIter? then others + {res.it} else others;
      forall k | 0 <= k < |its| ensures Begun(left, sas[k], before, its[k], more) {
        assert old(Begun(left, sas[k], others, its[k], handles));
      }
    }
    if res.NewIterErrorMemory? {
      return None, more;
    }
    var st := IterState(NotAvailable, Pair(Key(0, 0), Null), if res.NewIter? then res.it else null);
    OpenedMore(left, sas, others, its, more, st);
    OwnedCount(its, st);
    return Some(st), more;
  }

  lemma OpenedMore(left: bool, sas: seq<Skiparray>, others: set<Iter>, its: seq<IterState>, handles: set<Iter>, st: IterState)
    requires |its| < |sas| && others <= handles && st.state.NotAvailable?
    requires st.iter == null ==> Opened(left, sas, others, its, handles) && sas[|its|].Contents() == []
    requires st.iter != null ==> Opened(left, sas, others + {st.iter}, its, handles)
    requires st.iter != null ==> st.iter in handles && st.iter !in others && StartsAt(left, sas[|its|], st.iter)
    ensures Opened(left, sas, others, its + [st], handles)
  {
    forall i | 0 <= i < |its| && its[i].iter != null ensures its[i].iter != st.iter {
      assert Begun(left, sas[i], if st.iter == null then others else others + {st.iter}, its[i], handles);
    }
    OwnedMore(its, st);
    var more := its + [st];
    forall k | 0 <= k < |more| ensures Begun(left, sas[k], others, more[k], handles) {
      if k < |its| {
        assert more[k] == its[k];
        assert Begun(left, sas[k], if st.iter == null then others else others + {st.iter}, its[k], handles);
      }
    }
  }

  /** An iterator is allocated only where there are pairs to read. */
  ghost predicate Granted(s: Skiparray, allocOk: bool)
    reads s`wins
  {
    s.Contents() == [] || allocOk
  }

  ghost predicate AllGranted(sas: seq<Skiparray>, memory: seq<bool>)
    requires |memory| == |sas|
    reads sas`wins
  {
    forall k {:trigger Granted(sas[k], memory[k])} :: 0 <= k < |sas| ==> Granted(sas[k], memory[k])
  }

  /** The loop of skiparray_fold_multi_init, which gives up where an iterator cannot be
      allocated. */
  method OpenAll(left: bool, sas: seq<Skiparray>, memory: seq<bool>, ghost nodes: set<object>, ghost others: set<Iter>)
    returns (ok: bool, its: seq<IterState>, live: nat, ghost handles: set<Iter>)
    requires |memory| == |sas| && AllOk(sas, nodes, others)
    requires forall o :: o in others ==> o.sa in sas && o in o.sa.iters
    modifies sas`iter, sas`iters, others`prev
    ensures others <= handles && fresh(handles - others) && AllOk(sas, nodes, handles)
    ensures Opened(left, sas, others, its, handles) && live == |Owned(its)|
    ensures ok <==> AllGranted(sas, memory)
    ensures ok ==> |its| == |sas|
  {
    its, live, handles := [], 0, others;
    NoneOpened(left, sas, nodes, others);
    while |its| < |sas|
      invariant others <= handles && fresh(handles - others) && AllOk(sas, nodes, handles)
      invariant Opened(left, sas, others, its, handles) && live == |Owned(its)|
      invariant forall k {:trigger Granted(sas[k], memory[k])} :: 0 <= k < |its| ==> Granted(sas[k], memory[k])
    {
      var next;
      next, handles := OpenNext(left, sas, its, memory[|its|], nodes, others, handles);
      if next.None? {
        return false, its, live, handles;
      }
      its, live := its + [next.value], if next.value.iter == null then live else live + 1;
    }
    ok := true;
  }

  lemma NoneOpened(left: bool, sas: seq<Skiparray>, nodes: set<object>, others: set<Iter>)
    requires AllOk(sas, nodes, others)
    requires forall o :: o in others ==> o.sa in sas && o in o.sa.iters
    ensures Opened(left, sas, others, [], others) && Owned([]) == {}
  {
    forall s | s in sas ensures forall o :: o in s.iters ==> o in others {
      Elsewhere(sas, nodes, others, s);
    }
  }

  /** One step in the direction of the fold. */
  method MoveIter(left: bool, it: Iter) returns (res: StepResult)
    requires it.Live() && it.Place() < |it.sa.Contents()|
    modifies it`n, it`index, it`at
    ensures it.Live()
    ensures res == if old(it.Place()) == (if left then |it.sa.Contents()| - 1 else 0) then StepEnd else StepOk
    ensures it.Place() == if left then old(it.Place()) + 1 else if res == StepEnd then 0 else old(it.Place()) - 1
  {
    if left {
      res := it.Next();
    } else {
      res := it.Prev();
    }
  }

  class Fold {
    const left: bool
    const current: array<nat>  // the queue's buffer: ids of inputs
    const merge: (seq<Key>, seq<Value>) -> (nat, Value)
    var iters: seq<IterState>
    var available: nat
    var offset: nat
    var iterLive: nat
    ghost const sas: seq<Skiparray>
    ghost const input: Inputs  // each skiparray's pairs, in the order of the fold
    ghost const others: set<Iter>  // live iterators that are not this fold's
    ghost const handles: set<Iter>  // those and this fold's, dead or alive
    ghost const nodes: set<object>  // everything the skiparrays own
    ghost var taken: seq<nat>  // how many of them have been read
    ghost var log: seq<Call>  // the calls so far

    constructor (left: bool, merge: (seq<Key>, seq<Value>) -> (nat, Value), its: seq<IterState>, live: nat,
                 count: nat, ghost sas: seq<Skiparray>, ghost input: Inputs, ghost others: set<Iter>,
                 ghost handles: set<Iter>, ghost nodes: set<object>)
      requires |its| <= count
      ensures this.left == left && this.merge == merge && fresh(current) && current.Length == count
      ensures iters == its + seq(count - |its|, _ => IterState(NotAvailable, Pair(Key(0, 0), Null), null))
      ensures iterLive == live && available == 0 && offset == 0 && taken == seq(count, _ => 0) && log == []
      ensures this.sas == sas && this.input == input
      ensures this.others == others && this.handles == handles && this.nodes == nodes
    {
      this.left, this.merge, current := left, merge, new nat[count];
      iters := its + seq(count - |its|, _ => IterState(NotAvailable, Pair(Key(0, 0), Null), null));
      available, offset, iterLive := 0, 0, live;
      this.sas, this.input, taken := sas, input, seq(count, _ => 0);
      this.others, this.handles, this.nodes, log := others, handles, nodes, [];
    }

    ghost function Queue(): seq<nat>
      requires offset + available <= current.Length
      reads `offset, `available, current
    {
      Slice(current[..], offset, available)
    }

    ghost predicate QueueOk()
      reads `iters, `offset, `available, current
    {
      && |iters| == current.Length > 0
      && offset + available <= current.Length
      && Queued(iters, Queue())
    }

    /** Bring the queue to the front of its buffer. */
    method Compact()
      requires QueueOk()
      modifies `offset, current
      ensures QueueOk() && offset == 0 && Queue() == old(Queue())
    {
      if offset > 0 {
        SlideToFront(current[..], offset, available);
        MoveCells(current, 0, current, offset, available);
        offset := 0;
      }
    }

    /** The first entry whose key is not smaller, if any. */
    method PlaceFor(key: Key) returns (c: nat)
      requires QueueOk() && offset == 0
      ensures c <= available
      ensures forall a :: 0 <= a < c ==> Rank(iters, Queue()[a]) < key.rank
      ensures c < available ==> key.rank <= Rank(iters, Queue()[c])
    {
      ghost var w := Queue();
      for ci := 0 to available
        invariant forall a :: 0 <= a < ci ==> Rank(iters, w[a]) < key.rank
      {
        assert current[ci] == w[ci];
        var other := iters[current[ci]].pair.key;
        if Cmp(key, other) <= 0 {
          return ci;
        }
      }
      return available;
    }

    /** Shift the entries from c on and put the id before them. */
    method EnterAt(id: nat, c: nat)
      requires offset == 0 && c <= available < current.Length
      modifies `available, current
      ensures available == old(available) + 1 && Queue() == Inserted(old(Queue()), c, id)
    {
      ghost var cells := current[..];
      GapForward(cells, 0, available, c);
      MoveCells(current, c + 1, current, c, available - c);
      ghost var moved := current[..];
      current[c] := id;
      StoreInGap(moved, 0, Slice(cells, 0, available), c, id);
      assert current[..] == moved[c := id];
      available := available + 1;
    }

    /** Enter an id before the entry at c, and mark whether their keys are equal. */
    method Enter(id: nat, c: nat)
      requires QueueOk() && offset == 0 && id < |iters| && iters[id].state.NotAvailable? && c <= available
      requires forall a :: 0 <= a < c ==> Rank(iters, Queue()[a]) < Rank(iters, id)
      requires c < available ==> Rank(iters, id) <= Rank(iters, Queue()[c])
      modifies `iters, `available, current
      ensures QueueOk() && Queue() == Inserted(old(Queue()), c, id)
      ensures |iters| == |old(iters)| && iters[id] == old(iters)[id].(state := iters[id].state) && !iters[id].state.NotAvailable?
      ensures forall i :: 0 <= i < |iters| && i != id ==> iters[i] == old(iters)[i]
    {
      ghost var w := Queue();
      QueuedInserted(iters, w, id, c);
      SortedDistinct(iters, w);
      InsertedIds(w, |iters|, id, c);
      DistinctBelow(Inserted(w, c, id), |iters|);
      var state := if c < available && Cmp(iters[id].pair.key, iters[current[c]].pair.key) == 0 then AvailableEq else AvailableLt;
      assert Queued(iters[id := iters[id].(state := state)], Inserted(w, c, id));
      EnterAt(id, c);
      iters := iters[id := iters[id].(state := state)];
    }

    /** insert_pair: enter a newly read pair into the queue, in front of the first entry whose
        key is not smaller. */
    method InsertPair(id: nat, pair: Pair) returns (ghost c: nat)
      requires QueueOk() && id < |iters| && iters[id].state.NotAvailable?
      modifies `iters, `offset, `available, current
      ensures QueueOk() && c <= |old(Queue())| && Queue() == Inserted(old(Queue()), c, id)
      ensures forall a :: 0 <= a < c ==> Rank(old(iters), old(Queue())[a]) < pair.key.rank
      ensures c < |old(Queue())| ==> pair.key.rank <= Rank(old(iters), old(Queue())[c])
      ensures id !in old(Queue()) && !iters[id].state.NotAvailable?
      ensures |iters| == |old(iters)| && iters[id].pair == pair && iters[id].iter == old(iters)[id].iter
      ensures forall i :: 0 <= i < |iters| && i != id ==> iters[i] == old(iters)[i]
    {
      ghost var w := Queue();
      assert id !in w;
      QueuedReread(iters, w, id, pair);
      iters := iters[id := iters[id].(pair := pair)];
      Compact();
      var place := PlaceFor(pair.key);
      c := place;
      assert forall a :: 0 <= a < |w| ==> w[a] in w;
      Enter(id, place);
    }

    /** Collect the pairs at the front whose keys equal the next one's. */
    method CollectEqual() returns (used: nat, pairs: seq<Pair>)
      requires QueueOk() && available > 0 && iters[Queue()[0]].state.AvailableEq?
      ensures 0 < used == |pairs| < available
      ensures forall a :: 0 <= a < used ==> iters[Queue()[a]].state.AvailableEq? && pairs[a] == iters[Queue()[a]].pair
      ensures iters[Queue()[used]].state.AvailableLt?
    {
      ghost var w := Queue();
      used, pairs := 0, [];
      while used < available
        invariant used <= available && |pairs| == used
        invariant forall a :: 0 <= a < used ==> iters[w[a]].state.AvailableEq? && pairs[a] == iters[w[a]].pair
      {
        var id := current[used + offset];
        assert id == w[used] && id in w;
        if !iters[id].state.AvailableEq? {
          break;
        }
        pairs := pairs + [iters[id].pair];
        used := used + 1;
      }
      assert Marked(iters, w, available - 1);
    }

    /** The used entries' inputs are free to be read again. */
    method Release(ids: seq<nat>)
      requires IdsBelow(ids, |iters|)
      modifies `iters
      ensures iters == Used(old(iters), ids)
    {
      for k := 0 to |ids|
        invariant iters == Used(old(iters), ids[..k])
      {
        assert ids[..k + 1] == ids[..k] + [ids[k]];
        iters := iters[ids[k] := iters[ids[k]].(state := NotAvailable)];
      }
      assert ids[..|ids|] == ids;
    }

    /** call_with_next: the next callbacks, for the pair or pairs at the front. */
    method CallWithNext() returns (call: Call)
      requires QueueOk() && available > 0 && Chooses(merge)
      modifies `iters, `available, `offset
      ensures QueueOk() && CallsFor(call, old(iters), old(Queue()), merge)
      ensures Queue() == old(Queue())[|call.ids|..] && iters == Used(old(iters), call.ids)
    {
      ghost var w := Queue();
      assert current[offset] == w[0] && w[0] in w;
      var first := iters[current[offset]];
      if first.state.AvailableLt? {
        call := Call([current[offset]], [first.pair], first.pair.key, first.pair.value);
      } else {
        var used, pairs := CollectEqual();
        var m := merge(Keys(pairs), Values(pairs));
        assert current[offset..offset + used] == w[..used];
        call := Call(current[offset..offset + used], pairs, pairs[m.0].key, m.1);
      }
      TakeFront(call.ids);
    }

    method TakeFront(ids: seq<nat>)
      requires QueueOk() && |ids| <= available && ids == Queue()[..|ids|]
      modifies `iters, `available, `offset
      ensures QueueOk() && Queue() == old(Queue())[|ids|..] && iters == Used(old(iters), ids)
    {
      ghost var its, w := iters, Queue();
      assert Queued(Used(its, ids), w[|ids|..]) by {
        QueuedDropped(its, w, |ids|);
      }
      Skip(|ids|);
      Release(ids);
    }

    method Skip(n: nat)
      requires n <= available && offset + available <= current.Length
      modifies `available, `offset
      ensures offset + available == old(offset + available) && Queue() == old(Queue())[n..]
    {
      available := available - n;
      offset := offset + n;
    }

    // ----- Reading from the iterators -----

    ghost predicate SourcesOk()
      reads sas, nodes, handles
    {
      && this !in nodes && current !in nodes
      && AllOk(sas, nodes, handles)
    }

    /** The iterators of this fold that are still live. */
    ghost function Own(): set<Iter?>
      reads `iters
    {
      Owned(iters)
    }

    /** On these skiparrays, the live iterators are this fold's and the others. */
    ghost predicate Owning()
      reads `iters, sas, handles
    {
      && others <= handles && |iters| == |sas|
      && (forall i {:trigger iters[i].iter} :: 0 <= i < |iters| && iters[i].iter != null ==>
            iters[i].iter in handles && iters[i].iter.sa == sas[i] && iters[i].iter in sas[i].iters)
      && Unshared(iters)
      && (forall s, o {:trigger o in s.iters} :: s in sas && o in s.iters ==> o in others || o in Own())
      && (forall o :: o in others ==> o !in Own() && o.sa in sas && o in o.sa.iters)
    }

    /** Where an input stands, n of its pairs having been read: its iterator is on the next pair,
        or gone when there is none. */
    ghost predicate StandsAt(id: nat, n: nat)
      requires id < |iters| == |input| == |sas|
      reads `iters, sas, handles
    {
      var it := iters[id].iter;
      && n <= |input[id]|
      && (it == null ==> n == |input[id]|)
      && (it != null ==>
            && it in handles && n < |input[id]| && it.sa == sas[id] && it in sas[id].iters
            && it.at <= |sas[id].wins|
            && it.Place() == if left then n else |input[id]| - 1 - n)
    }

    ghost predicate Position(i: nat)
      requires i < |iters| == |taken| == |input| == |sas|
      reads `iters, `taken, sas, handles
    {
      StandsAt(i, taken[i])
    }

    ghost predicate Sized()
      reads `iters, `taken
    {
      |iters| == |taken| == |input| == |sas|
    }

    ghost predicate InputsOk()
      requires |input| == |sas|
      reads sas`wins
    {
      forall i {:trigger InOrder(left, sas[i].Contents(), input[i])} :: 0 <= i < |input| ==> InOrder(left, sas[i].Contents(), input[i])
    }

    ghost predicate Placed()
      requires Sized()
      reads `iters, `taken, sas, handles
    {
      forall i {:trigger Position(i)} :: 0 <= i < |iters| ==> Position(i)
    }

    /** Of equal keys the one read last is in front. Since the last call, only the first n inputs
        have had their turn to be read, and all that it used have yet to have theirs. */
    ghost predicate InLine(n: nat)
      requires QueueOk()
      reads `iters, `offset, `available, `log, current
    {
      Turned(iters, Queue(), log, n) && Due(iters, log)
    }

    ghost predicate Midway(n: nat)
      reads this, current, sas, nodes, handles
    {
      && QueueOk() && SourcesOk() && Owning() && Sized() && InputsOk() && Placed()
      && WaitBut(input, iters, taken, -1)
      && InLine(n)
      && Chooses(merge)
      && iterLive == |Own()|
    }

    ghost predicate Valid()
      reads this, current, sas, nodes, handles
    {
      Midway(0)
    }

    lemma FurtherOn(n: nat, m: nat)
      requires Midway(n) && n <= m
      ensures Midway(m)
    {
    }

    /** The pair an iterator is on is the next one of its input. */
    lemma NextPair(i: nat)
      requires Sized() && SourcesOk() && InputsOk() && Placed() && i < |iters| && iters[i].iter != null
      ensures iters[i].iter.Live() && iters[i].iter.sa == sas[i] && iters[i].iter.Place() < |sas[i].Contents()|
      ensures taken[i] < |input[i]| == |sas[i].Contents()|
      ensures sas[i].Contents()[iters[i].iter.Place()] == input[i][taken[i]]
    {
      assert Position(i) && SourceOk(sas[i], nodes, handles);
      assert InOrder(left, sas[i].Contents(), input[i]);
    }

    /** Move input id's iterator on, in the direction of the fold. */
    method StepIter(id: nat, it: Iter) returns (res: StepResult)
      requires Sized() && SourcesOk() && InputsOk() && Placed() && Owning() && id < |iters| && it == iters[id].iter
      modifies it`n, it`index, it`at
      ensures SourcesOk() && Owning() && it.Live()
      ensures res == if taken[id] + 1 == |input[id]| then StepEnd else StepOk
      ensures it.Place() == if left then taken[id] + 1 else if res == StepEnd then 0 else |input[id]| - 2 - taken[id]
      ensures forall j :: 0 <= j < |iters| && j != id ==> Position(j)
    {
      NextPair(id);
      Foreign(it);
      assert Position(id);
      res := MoveIter(left, it);
      forall i | 0 <= i < |sas| ensures SourceOk(sas[i], nodes, handles) {
        assert old(SourceOk(sas[i], nodes, handles));
      }
      forall j | 0 <= j < |iters| && j != id ensures Position(j) {
        assert old(Position(j)) && if j < id then Differ(iters, j, id) else Differ(iters, id, j);
      }
    }

    /** An iterator belongs to one skiparray only. */
    lemma Foreign(it: Iter)
      requires SourcesOk()
      ensures forall i {:trigger sas[i]} :: 0 <= i < |sas| ==> it !in sas[i].Repr && (it.sa != sas[i] ==> it !in sas[i].iters)
    {
      forall i | 0 <= i < |sas| ensures it !in sas[i].Repr && (it.sa != sas[i] ==> it !in sas[i].iters) {
        assert SourceOk(sas[i], nodes, handles) && IsHandle(it);
        assert it in sas[i].iters ==> sas[i].Positioned(it);
      }
    }

    method FreeIter(it: Iter)
      requires SourcesOk() && it.Live() && it in handles && it.sa in sas
      modifies it.sa`iter, it.sa`iters, handles`prev, handles`next
      ensures SourcesOk()
      ensures forall i, o {:trigger o in sas[i].iters} :: 0 <= i < |sas| ==>
                (o in sas[i].iters <==> o in old(sas[i].iters) && o != it)
    {
      Elsewhere(sas, nodes, handles, it.sa);
      ghost var its := it.sa.iters;
      ghost var k := it.Free();
      RemovedMembers(its, k);
      forall i | 0 <= i < |sas|
        ensures SourceOk(sas[i], nodes, handles) && forall o :: o in sas[i].iters <==> o in old(sas[i].iters) && o != it
      {
        assert old(SourceOk(sas[i], nodes, handles));
        if sas[i] != it.sa {
          assert old(sas[i].Iterating());
          assert sas[i].iters == old(sas[i].iters);
          assert forall o :: o in sas[i].iters ==> o.sa == sas[i];
          assert forall o :: o in sas[i].iters ==> o !in its;
          sas[i].StillIterating();
        }
      }
    }

    lemma OwnLess(its: seq<IterState>, id: nat)
      requires id < |its| && its[id].iter != null && iters == its[id := its[id].(iter := null)]
      requires Unshared(its)
      ensures its[id].iter in Owned(its) && Own() == Owned(its) - {its[id].iter}
    {
      var own := Owned(its);
      forall i | 0 <= i < |its| && i != id ensures its[i].iter == its[id].iter ==> its[i].iter == null {
        assert if i < id then Differ(its, i, id) else Differ(its, id, i);
      }
      forall o ensures o in Own() <==> o in own && o != its[id].iter {
        if o in own && o != its[id].iter {
          var i :| 0 <= i < |its| && its[i].iter != null && its[i].iter == o;
          assert iters[i].iter == o;
        }
      }
    }

    twostate lemma StillOwning(new id: nat, new it: Iter)
      requires old(Owning()) && id < |old(iters)| && it == old(iters)[id].iter
      requires iters == old(iters)[id := old(iters)[id].(iter := null)]
      requires Own() == old(Own()) - {it}
      requires forall o :: o in others ==> o.sa in sas
      requires forall s, o {:trigger o in s.iters} :: s in sas ==> (o in s.iters <==> o in old(s.iters) && o != it)
      ensures Owning()
    {
      forall i, j | 0 <= i < j < |iters| ensures Differ(iters, i, j) {
        assert Differ(old(iters), i, j);
      }
      forall i | 0 <= i < |iters| && i != id ensures iters[i].iter == it ==> iters[i].iter == null {
        assert if i < id then Differ(old(iters), i, id) else Differ(old(iters), id, i);
      }
    }

    twostate lemma StillPlaced(new id: nat, new it: Iter)
      requires Sized() && id < |iters| && |old(iters)| == |iters| && taken == old(taken)
      requires forall j {:trigger iters[j]} :: 0 <= j < |iters| && j != id ==>
                 iters[j].iter == old(iters)[j].iter && (iters[j].iter == null || iters[j].iter != it)
      requires forall o :: o in handles ==> o.at == old(o.at) && o.index == old(o.index)
      requires forall s {:trigger s.wins} :: s in sas ==> s.wins == old(s.wins)
      requires forall s, o {:trigger o in s.iters} :: s in sas ==> (o in s.iters <==> o in old(s.iters) && o != it)
      ensures forall j {:trigger Position(j)} :: 0 <= j < |iters| && j != id && old(Position(j)) ==> Position(j)
    {
    }

    /** Input id has been read to its end: free its iterator. */
    method DropIter(id: nat, it: Iter)
      requires Sized() && SourcesOk() && Owning() && iterLive == |Own()|
      requires id < |iters| && it == iters[id].iter && it.Live() && it.sa in sas
      modifies `iters, `iterLive, it.sa`iter, it.sa`iters, handles`prev, handles`next
      ensures SourcesOk() && Owning() && iterLive == |Own()|
      ensures iters == old(iters)[id := old(iters)[id].(iter := null)]
      ensures forall j {:trigger Position(j)} :: 0 <= j < |iters| && j != id && old(Position(j)) ==> Position(j)
    {
      FreeIter(it);
      iters, iterLive := iters[id := iters[id].(iter := null)], iterLive - 1;
      Dropped(id, it);
    }

    twostate lemma Dropped(new id: nat, new it: Iter)
      requires old(Sized() && Owning()) && old(iterLive) == |old(Own())| && iterLive == old(iterLive) - 1
      requires id < |old(iters)| && it == old(iters)[id].iter && taken == old(taken)
      requires iters == old(iters)[id := old(iters)[id].(iter := null)]
      requires forall o :: o in handles ==> o.at == old(o.at) && o.index == old(o.index)
      requires forall i {:trigger sas[i]} :: 0 <= i < |sas| ==> sas[i].wins == old(sas[i].wins)
      requires forall i, o {:trigger o in sas[i].iters} :: 0 <= i < |sas| ==>
                 (o in sas[i].iters <==> o in old(sas[i].iters) && o != it)
      ensures Owning() && iterLive == |Own()|
      ensures forall j {:trigger Position(j)} :: 0 <= j < |iters| && j != id && old(Position(j)) ==> Position(j)
    {
      OwnLess(old(iters), id);
      forall i | 0 <= i < |iters| && i != id ensures iters[i].iter == it ==> iters[i].iter == null {
        assert if i < id then Differ(old(iters), i, id) else Differ(old(iters), id, i);
      }
      StillOwning(id, it);
      StillPlaced(id, it);
    }

    /** Everything but what the queue says about input id's last pair. */
    ghost predicate Reading(id: int)
      requires Sized()
      reads this, current, sas, nodes, handles
    {
      && SourcesOk() && Owning() && InputsOk() && iterLive == |Own()| && Placed()
      && WaitBut(input, iters, taken, id)
    }

    /** All of Reading, but that input id's iterator is one pair further. */
    ghost predicate Ahead(id: nat)
      requires Sized() && id < |iters|
      reads this, current, sas, nodes, handles
    {
      && SourcesOk() && Owning() && InputsOk() && iterLive == |Own()|
      && StandsAt(id, taken[id] + 1) && (forall j {:trigger Position(j)} :: 0 <= j < |iters| && j != id ==> Position(j))
      && WaitBut(input, iters, taken, id)
    }

    /** Having entered its pair, move input id's iterator on, and free it at the end. */
    method MoveOn(id: nat, it: Iter) returns (ghost next: Iter?)
      requires Sized() && id < |iters| && it == iters[id].iter && Reading(id)
      modifies `iters, `iterLive, sas`iter, sas`iters
      modifies (handles - others)`n, (handles - others)`index, (handles - others)`at, handles`prev, handles`next
      ensures Sized() && iters == old(iters)[id := old(iters)[id].(iter := next)]
      ensures Ahead(id)
    {
      next := it;
      NextPair(id);
      ghost var its := iters;
      var res := StepIter(id, it);
      if res == StepEnd {
        DropIter(id, it);
        next := null;
        OthersWait(input, its, taken, iters, id);
      }
    }

    ghost method CountRead(id: nat)
      requires Sized() && id < |iters| && Ahead(id)
      requires !iters[id].state.NotAvailable?
      requires taken[id] < |input[id]| && iters[id].pair == input[id][taken[id]]
      modifies `taken
      ensures Sized() && taken == old(taken)[id := old(taken)[id] + 1]
      ensures Reading(-1)
    {
      WaitsNow(input, iters, taken, id);
      taken := taken[id := taken[id] + 1];
      forall j | 0 <= j < |iters| ensures Position(j) {
        assert j != id ==> old(Position(j));
      }
    }

    /** Read the pair input id's iterator is on, and enter it into the queue. */
    method EnterPair(id: nat, it: Iter)
      requires Midway(id) && id < |iters| && it == iters[id].iter && iters[id].state.NotAvailable?
      modifies `iters, `offset, `available, current
      ensures QueueOk() && Sized() && Reading(id) && InLine(id + 1)
      ensures !iters[id].state.NotAvailable? && iters[id].iter == it
      ensures taken[id] < |input[id]| && iters[id].pair == input[id][taken[id]]
      ensures |iters| == |old(iters)| && forall j :: 0 <= j < |iters| && j != id ==> iters[j] == old(iters)[j]
      ensures Spent(iters, taken[id := taken[id] + 1]) == old(Spent(iters, taken))
    {
      NextPair(id);
      var pair := it.Get();
      assert Position(id);
      ghost var its, w := iters, Queue();
      assert LastUse(log, id) == |log|;
      ghost var c := InsertPair(id, pair);
      TurnedInserted(its, iters, w, log, id, c);
      OthersWait(input, its, taken, iters, id);
      StillUnspent(its, iters, taken, id);
      SameReading(id);
    }

    /** The iterators are as they were, and so is what the others have in the queue. */
    twostate lemma SameReading(new id: nat)
      requires old(Sized() && Owning() && InputsOk() && Placed() && iterLive == |Own()|)
      requires WaitBut(input, iters, taken, id)
      requires |iters| == |old(iters)| && id < |iters|
      requires unchanged(`taken, `iterLive)
      requires forall o :: o in handles ==> unchanged(o)
      requires forall i {:trigger sas[i]} :: 0 <= i < |sas| ==> unchanged(sas[i])
      requires SourcesOk()
      requires iters[id].iter == old(iters)[id].iter
      requires forall j {:trigger iters[j]} :: 0 <= j < |iters| && j != id ==> iters[j] == old(iters)[j]
      ensures Sized() && Reading(id)
    {
      assert forall j {:trigger iters[j]} :: 0 <= j < |iters| ==> iters[j].iter == old(iters)[j].iter;
      SameOwners();
      forall j | 0 <= j < |iters| ensures Position(j) {
        assert old(Position(j));
      }
    }

    twostate lemma SameOwners()
      requires old(Owning()) && |iters| == |old(iters)|
      requires forall j {:trigger iters[j]} :: 0 <= j < |iters| ==> iters[j].iter == old(iters)[j].iter
      requires forall i {:trigger sas[i]} :: 0 <= i < |sas| ==> sas[i].iters == old(sas[i].iters)
      ensures Owning() && Own() == old(Own())
    {
      forall i, j | 0 <= i < j < |iters| ensures Differ(iters, i, j) {
        assert Differ(old(iters), i, j);
      }
      forall o ensures o in Own() <==> o in old(Own()) {
        if o in Own() {
          var j :| 0 <= j < |iters| && iters[j].iter != null && iters[j].iter == o;
          assert old(iters)[j].iter == o;
        }
        if o in old(Own()) {
          var j :| 0 <= j < |old(iters)| && old(iters)[j].iter != null && old(iters)[j].iter == o;
          assert iters[j].iter == o;
        }
      }
    }

    /** One round of step_active_iterators. */
    method StepOne(id: nat)
      requires Midway(id) && id < |iters|
      modifies `iters, `offset, `available, `iterLive, `taken, current, sas`iter, sas`iters
      modifies (handles - others)`n, (handles - others)`index, (handles - others)`at, handles`prev, handles`next
      ensures Midway(id + 1) && Spent(iters, taken) == old(Spent(iters, taken))
      ensures iters[id].iter == null || !iters[id].state.NotAvailable?
      ensures iters[id].state.NotAvailable? ==> iters[id] == old(iters)[id]
      ensures |iters| == |old(iters)| && forall j :: 0 <= j < |iters| && j != id ==> iters[j] == old(iters)[j]
    {
      var it := iters[id].iter;
      if it == null || !iters[id].state.NotAvailable? {
        FurtherOn(id, id + 1);
        return;
      }
      ReadOne(id, it);
    }

    method ReadOne(id: nat, it: Iter)
      requires Midway(id) && id < |iters| && it == iters[id].iter && iters[id].state.NotAvailable?
      modifies `iters, `offset, `available, `iterLive, `taken, current, sas`iter, sas`iters
      modifies (handles - others)`n, (handles - others)`index, (handles - others)`at, handles`prev, handles`next
      ensures Midway(id + 1) && Spent(iters, taken) == old(Spent(iters, taken))
      ensures !iters[id].state.NotAvailable?
      ensures |iters| == |old(iters)| && forall j :: 0 <= j < |iters| && j != id ==> iters[j] == old(iters)[j]
    {
      EnterPair(id, it);
      Finish(id, it);
    }

    method Finish(id: nat, it: Iter)
      requires QueueOk() && InLine(id + 1) && Sized() && id < |iters| && it == iters[id].iter && Reading(id)
      requires !iters[id].state.NotAvailable?
      requires taken[id] < |input[id]| && iters[id].pair == input[id][taken[id]]
      modifies `iters, `iterLive, `taken, sas`iter, sas`iters
      modifies (handles - others)`n, (handles - others)`index, (handles - others)`at, handles`prev, handles`next
      ensures QueueOk() && InLine(id + 1) && Sized() && Reading(-1) && !iters[id].state.NotAvailable?
      ensures |iters| == |old(iters)| && forall j :: 0 <= j < |iters| && j != id ==> iters[j] == old(iters)[j]
      ensures Spent(iters, taken) == old(Spent(iters, taken[id := taken[id] + 1]))
    {
      Proceed(id, it);
      StillInLine(id, id + 1);
    }

    /** Where an iterator is does not matter to the order of the queue. */
    twostate lemma StillInLine(new id: nat, new n: nat)
      requires old(QueueOk() && InLine(n)) && QueueOk() && unchanged(`log) && Queue() == old(Queue())
      requires |iters| == |old(iters)| && id < |iters| && !iters[id].state.NotAvailable? && iters[id].pair == old(iters)[id].pair
      requires forall j {:trigger iters[j]} :: 0 <= j < |iters| && j != id ==> iters[j] == old(iters)[j]
      ensures InLine(n)
    {
      TurnedSame(old(iters), iters, Queue(), log, n);
    }

    method Proceed(id: nat, it: Iter)
      requires QueueOk() && Sized() && id < |iters| && it == iters[id].iter && Reading(id)
      requires !iters[id].state.NotAvailable?
      requires taken[id] < |input[id]| && iters[id].pair == input[id][taken[id]]
      modifies `iters, `iterLive, `taken, sas`iter, sas`iters
      modifies (handles - others)`n, (handles - others)`index, (handles - others)`at, handles`prev, handles`next
      ensures QueueOk() && Sized() && Reading(-1) && !iters[id].state.NotAvailable? && iters[id].pair == old(iters)[id].pair
      ensures |iters| == |old(iters)| && forall j :: 0 <= j < |iters| && j != id ==> iters[j] == old(iters)[j]
      ensures Spent(iters, taken) == old(Spent(iters, taken[id := taken[id] + 1]))
    {
      ghost var its, read := iters, taken[id := taken[id] + 1];
      PassOn(id, it);
      assert Spent(iters, read) == Spent(its, read);
      CountRead(id);
    }

    /** Moving on leaves the queue as it is. */
    method PassOn(id: nat, it: Iter)
      requires QueueOk() && Sized() && id < |iters| && it == iters[id].iter && Reading(id)
      modifies `iters, `iterLive, sas`iter, sas`iters
      modifies (handles - others)`n, (handles - others)`index, (handles - others)`at, handles`prev, handles`next
      ensures QueueOk() && Sized() && Ahead(id)
      ensures |iters| == |old(iters)| && forall j :: 0 <= j < |iters| && j != id ==> iters[j] == old(iters)[j]
      ensures iters[id].pair == old(iters)[id].pair && iters[id].state == old(iters)[id].state
      ensures forall t {:trigger Spent(iters, t)} :: |t| == |iters| ==> Spent(iters, t) == Spent(old(iters), t)
    {
      ghost var its, w := iters, Queue();
      ghost var next := MoveOn(id, it);
      QueuedMoved(its, w, id, next);
      SameStates(its, iters, id);
    }

    /** step_active_iterators: afterwards, every input with pairs left has one in the queue. */
    method StepActive()
      requires Valid()
      modifies `iters, `offset, `available, `iterLive, `taken, current, sas`iter, sas`iters
      modifies (handles - others)`n, (handles - others)`index, (handles - others)`at, handles`prev, handles`next
      ensures Midway(|iters|) && Spent(iters, taken) == old(Spent(iters, taken))
      ensures forall i :: 0 <= i < |iters| ==> iters[i].iter == null || !iters[i].state.NotAvailable?
    {
      for i := 0 to |iters|
        invariant Midway(i) && |iters| == |old(iters)| && Spent(iters, taken) == old(Spent(iters, taken))
        invariant forall j :: 0 <= j < i ==> iters[j].iter == null || !iters[j].state.NotAvailable?
      {
        StepOne(i);
      }
    }

    /** skiparray_fold_halt: free what iterators are left. There the whole fold state is freed
        next; here the iterators are marked as done. */
    method Halt()
      requires Sized() && SourcesOk() && Owning() && iterLive == |Own()|
      modifies `iters, `iterLive, sas`iter, sas`iters, handles`prev, handles`next
      ensures SourcesOk() && Released()
    {
      for i := 0 to |iters|
        invariant Sized() && SourcesOk() && Owning() && iterLive == |Own()|
        invariant |iters| == |old(iters)|
        invariant forall j :: 0 <= j < i ==> iters[j].iter == null
      {
        var it := iters[i].iter;
        if it != null {
          assert SourceOk(sas[i], nodes, handles);
          DropIter(i, it);
        }
      }
    }

    /** This fold has no live iterator any more, and all the others are still live. */
    ghost predicate Released()
      reads `iters, sas, handles
    {
      && Owning() && Own() == {}
      && (forall s, o {:trigger o in s.iters} :: s in sas && o in s.iters ==> o in others)
      && (forall o :: o in others ==> o.sa in sas && o in o.sa.iters)
    }

    /** skiparray_fold_next: None once it is done. */
    method Next() returns (res: Option<Call>)
      requires Valid()
      modifies `iters, `offset, `available, `iterLive, `taken, `log, current, sas`iter, sas`iters
      modifies (handles - others)`n, (handles - others)`index, (handles - others)`at, handles`prev, handles`next
      ensures res.None? ==> SourcesOk() && Released()
      ensures res.None? <==> old(AllSpent(input, Spent(iters, taken)))
      ensures res.Some? ==> Valid() && log == old(log) + [res.value]
      ensures res.Some? ==> Steps(input, merge, old(log), old(Spent(iters, taken)), res.value, Spent(iters, taken))
    {
      WhatIsLeft();
      if iterLive == 0 && available == 0 {
        Halt();
        return None;
      }
      if iterLive > 0 {
        StepActive();
      } else {
        FurtherOn(0, |iters|);
      }
      var call := CallAhead();
      return Some(call);
    }

    /** The two counters tell whether anything is left to fold. */
    lemma WhatIsLeft()
      requires Valid()
      ensures iterLive == 0 ==> forall i :: 0 <= i < |iters| ==> iters[i].iter == null
      ensures AllSpent(input, Spent(iters, taken)) <==> iterLive == 0 && available == 0
    {
      if iterLive > 0 {
        var o :| o in Own();
        var i: nat :| i < |iters| && iters[i].iter == o && o != null;
        assert Position(i);
      } else {
        NoneLive();
      }
      if available > 0 {
        assert Queue()[0] in Queue() && Waits(input, iters, taken, Queue()[0]);
      } else if iterLive == 0 {
        forall i | 0 <= i < |iters| ensures Spent(iters, taken)[i] == |input[i]| {
          assert Position(i) && i !in Queue();
        }
      }
    }

    lemma NoneLive()
      requires |Own()| == 0
      ensures forall i :: 0 <= i < |iters| ==> iters[i].iter == null
    {
      assert Own() == {};
      forall i | 0 <= i < |iters| ensures iters[i].iter == null {
        assert iters[i].iter !in Own();
      }
    }

    /** Every input with pairs left has one in the queue, so there is something to call with. */
    lemma SomethingAhead()
      requires Midway(|iters|) && !AllSpent(input, Spent(iters, taken))
      requires forall i :: 0 <= i < |iters| ==> iters[i].iter == null || !iters[i].state.NotAvailable?
      ensures available > 0 && ReadAhead(input, iters, taken)
    {
      forall i | 0 <= i < |iters|
        ensures if iters[i].state.NotAvailable? then taken[i] == |input[i]|
                else 0 < taken[i] <= |input[i]| && iters[i].pair == input[i][taken[i] - 1]
      {
        assert Position(i) && Waits(input, iters, taken, i);
      }
      var i: nat :| i < |iters| && Spent(iters, taken)[i] != |input[i]|;
      assert i in Queue();
    }

    method CallAhead() returns (call: Call)
      requires Midway(|iters|) && !AllSpent(input, Spent(iters, taken))
      requires forall i :: 0 <= i < |iters| ==> iters[i].iter == null || !iters[i].state.NotAvailable?
      modifies `iters, `available, `offset, `log
      ensures Valid() && log == old(log) + [call]
      ensures Steps(input, merge, old(log), old(Spent(iters, taken)), call, Spent(iters, taken))
    {
      SomethingAhead();
      ghost var its, w := iters, Queue();
      call := CallWithNext();
      CallSteps(its, w, call);
      log := log + [call];
      UsedUp(call.ids);
    }

    lemma CallSteps(its: seq<IterState>, w: seq<nat>, call: Call)
      requires ReadAhead(input, its, taken) && Queued(its, w) && Turned(its, w, log, |its|) && CallsFor(call, its, w, merge)
      requires forall i :: 0 <= i < |its| ==> its[i].iter == null || !its[i].state.NotAvailable?
      ensures Steps(input, merge, log, Spent(its, taken), call, Spent(Used(its, call.ids), taken))
      ensures IdsBelow(w[|call.ids|..], |Used(its, call.ids)|)
      ensures Turned(Used(its, call.ids), w[|call.ids|..], log + [call], 0) && Due(Used(its, call.ids), log + [call])
    {
      var n := |its|;
      CallMeets(input, its, taken, w, merge, call);
      CallInTurn(input, its, taken, w, log, n, merge, call);
      SortedDistinct(its, w);
      TurnedDropped(its, w, log, n, call);
      DueNext(its, log, call);
    }

    /** Using up pairs leaves the reading as it is. */
    twostate lemma UsedUp(new ids: seq<nat>)
      requires old(Midway(|iters|)) && unchanged(`taken, `iterLive) && iters == Used(old(iters), ids)
      requires forall o :: o in handles ==> unchanged(o)
      requires forall i {:trigger sas[i]} :: 0 <= i < |sas| ==> unchanged(sas[i])
      requires SourcesOk() && QueueOk() && InLine(0)
      ensures Valid()
    {
      UsedWait(input, old(iters), taken, ids);
      SameOwners();
      forall j | 0 <= j < |iters| ensures Position(j) {
        assert old(Position(j));
      }
    }
  }

  ghost function LiveIters(sas: seq<Skiparray>): (live: set<Iter>)
    reads sas
  {
    set s, o | s in sas && o in s.iters :: o
  }

  ghost function NodesOf(sas: seq<Skiparray>): set<object>
    reads sas
  {
    set s, o | s in sas && o in s.Repr :: o
  }

  /** Besides the others, only this fold's iterators are live, if any. */
  lemma OpenedOwning(f: Fold, its: seq<IterState>)
    requires |its| <= |f.iters| == |f.sas| && f.iters[..|its|] == its
    requires forall i :: |its| <= i < |f.iters| ==> f.iters[i].iter == null
    requires Opened(f.left, f.sas, f.others, its, f.handles)
    ensures f.Owning() && f.Own() == Owned(its)
  {
    forall o ensures o in f.Own() <==> o in Owned(its) {
      if o in Owned(its) {
        var i :| 0 <= i < |its| && its[i].iter != null && its[i].iter == o;
        assert f.iters[i].iter == o;
      }
      if o in f.Own() {
        var i :| 0 <= i < |f.iters| && f.iters[i].iter != null && f.iters[i].iter == o;
        assert its[i].iter == o;
      }
    }
    forall i, j | 0 <= i < j < |f.iters| ensures Differ(f.iters, i, j) {
      assert j < |its| ==> Differ(its, i, j);
    }
    forall i | 0 <= i < |f.iters| && f.iters[i].iter != null
      ensures f.iters[i].iter in f.handles && f.iters[i].iter.sa == f.sas[i] && f.iters[i].iter in f.sas[i].iters
    {
      assert f.iters[i] == its[i] && Begun(f.left, f.sas[i], f.others, its[i], f.handles);
    }
    forall o | o in Owned(its) ensures o !in f.others {
      var i :| 0 <= i < |its| && its[i].iter != null && its[i].iter == o;
      assert Begun(f.left, f.sas[i], f.others, its[i], f.handles);
    }
  }

  lemma OpenedValid(f: Fold)
    requires f.Sized() && f.SourcesOk() && f.InputsOk() && Chooses(f.merge) && |f.iters| == f.current.Length > 0
    requires Opened(f.left, f.sas, f.others, f.iters, f.handles) && f.iterLive == |Owned(f.iters)|
    requires f.available == 0 == f.offset && f.log == [] && forall i :: 0 <= i < |f.taken| ==> f.taken[i] == 0
    ensures f.Valid() && forall i :: 0 <= i < |f.input| ==> Spent(f.iters, f.taken)[i] == 0
  {
    OpenedOwning(f, f.iters);
    forall i | 0 <= i < |f.iters| ensures f.iters[i].state.NotAvailable? && f.Position(i) {
      assert Begun(f.left, f.sas[i], f.others, f.iters[i], f.handles);
      assert InOrder(f.left, f.sas[i].Contents(), f.input[i]);
    }
  }

  /** skiparray_fold_multi_init: null where memory runs out. The fold starts with nothing
      spent, and the iterators there were are left alone. */
  method Init(left: bool, sas: seq<Skiparray>, merge: (seq<Key>, seq<Value>) -> (nat, Value), allocOk: bool,
              memory: seq<bool>) returns (f: Fold?)
    requires 1 <= |sas| < 256 && |memory| == |sas| && Chooses(merge)
    requires forall s :: s in sas ==> s.Valid() && s.Iterating()
    modifies sas`iter, sas`iters, LiveIters(sas)`prev, LiveIters(sas)`next
    ensures f != null <==> allocOk && AllGranted(sas, memory)
    ensures f == null ==> AllOk(sas, old(NodesOf(sas)), LiveIters(sas)) && LiveIters(sas) == old(LiveIters(sas))
    ensures f != null ==> fresh(f) && f.Valid() && fresh(f.current) && fresh(f.handles - f.others)
    ensures f != null ==> f.left == left && f.sas == sas && f.merge == merge
    ensures f != null ==> f.others == old(LiveIters(sas)) && f.nodes == old(NodesOf(sas))
    ensures f != null ==> f.log == [] && forall i :: 0 <= i < |sas| ==> Spent(f.iters, f.taken)[i] == 0
  {
    ghost var nodes, others := NodesOf(sas), LiveIters(sas);
    AllSources(sas);
    if !allocOk {
      return null;
    }
    var ok, its, live;
    ghost var handles;
    ok, its, live, handles := OpenAll(left, sas, memory, nodes, others);
    if ok {
      f := Begin(left, sas, merge, its, live, others, handles, nodes);
    } else {
      Cleanup(left, sas, merge, its, live, others, handles, nodes);
      f := null;
    }
  }

  method Begin(left: bool, sas: seq<Skiparray>, merge: (seq<Key>, seq<Value>) -> (nat, Value), its: seq<IterState>, live: nat,
               ghost others: set<Iter>, ghost handles: set<Iter>, ghost nodes: set<object>) returns (f: Fold)
    requires AllOk(sas, nodes, handles) && Opened(left, sas, others, its, handles) && live == |Owned(its)|
    requires |its| == |sas| > 0 && Chooses(merge)
    ensures fresh(f) && f.Valid() && fresh(f.current)
    ensures f.left == left && f.sas == sas && f.merge == merge
    ensures f.others == others && f.handles == handles && f.nodes == nodes
    ensures f.log == [] && forall i :: 0 <= i < |sas| ==> Spent(f.iters, f.taken)[i] == 0
  {
    ghost var input := InputsFor(left, sas, |sas|);
    f := new Fold(left, merge, its, live, |sas|, sas, input, others, handles, nodes);
    assert f.iters == its;
    OpenedValid(f);
  }

  /** Free the iterators there already are. */
  method Cleanup(left: bool, sas: seq<Skiparray>, merge: (seq<Key>, seq<Value>) -> (nat, Value), its: seq<IterState>, live: nat,
                 ghost others: set<Iter>, ghost handles: set<Iter>, ghost nodes: set<object>)
    requires AllOk(sas, nodes, handles) && Opened(left, sas, others, its, handles) && live == |Owned(its)|
    modifies sas`iter, sas`iters, handles`prev, handles`next
    ensures AllOk(sas, nodes, others) && LiveIters(sas) == others
  {
    ghost var input := InputsFor(left, sas, |sas|);
    var f := new Fold(left, merge, its, live, |sas|, sas, input, others, handles, nodes);
    OpenedOwning(f, its);
    f.Halt();
    OnlyOthers(f);
  }

  lemma OnlyOthers(f: Fold)
    requires f.SourcesOk() && f.Released()
    ensures AllOk(f.sas, f.nodes, f.others) && LiveIters(f.sas) == f.others
  {
    forall i | 0 <= i < |f.sas| ensures SourceOk(f.sas[i], f.nodes, f.others) {
      var s := f.sas[i];
      assert SourceOk(s, f.nodes, f.handles);
      assert forall k :: 0 <= k < |s.iters| ==> s.iters[k] in s.iters;
    }
  }

  lemma AllSources(sas: seq<Skiparray>)
    requires forall s :: s in sas ==> s.Valid() && s.Iterating()
    ensures AllOk(sas, NodesOf(sas), LiveIters(sas))
    ensures forall o :: o in LiveIters(sas) ==> o.sa in sas && o in o.sa.iters
  {
    forall o | o in LiveIters(sas) ensures o.sa in sas && o in o.sa.iters {
      var s :| s in sas && o in s.iters;
      assert s.Positioned(o);
    }
    forall i | 0 <= i < |sas| ensures SourceOk(sas[i], NodesOf(sas), LiveIters(sas)) {
      var s := sas[i];
      forall k | 0 <= k < |s.iters| ensures s.iters[k] in LiveIters(sas) {
        assert s in sas && s.iters[k] in s.iters;
      }
    }
  }

  /** Fold to the end, as skiparray_fold does: a run of steps that uses up every pair of every
      input, and leaves the skiparrays with the iterators they had. */
  method FoldAll(f: Fold) returns (log: seq<Call>, ghost spents: seq<seq<nat>>)
    requires f.Valid() && f.log == [] && forall i :: 0 <= i < |f.input| ==> Spent(f.iters, f.taken)[i] == 0
    modifies f`iters, f`offset, f`available, f`iterLive, f`taken, f`log, f.current, f.sas`iter, f.sas`iters
    modifies (f.handles - f.others)`n, (f.handles - f.others)`index, (f.handles - f.others)`at
    modifies f.handles`prev, f.handles`next
    ensures Run(f.input, f.merge, log, spents) && AllSpent(f.input, spents[|log|])
    ensures AllOk(f.sas, f.nodes, f.others) && LiveIters(f.sas) == f.others
  {
    log, spents := [], [Spent(f.iters, f.taken)];
    var call := f.Next();
    while call.Some?
      invariant |spents| == |log| + 1 && Run(f.input, f.merge, log, spents)
      invariant call.Some? ==> f.Valid() && f.log == log + [call.value]
      invariant call.Some? ==> Steps(f.input, f.merge, log, spents[|log|], call.value, Spent(f.iters, f.taken))
      invariant call.None? ==> AllSpent(f.input, spents[|log|]) && f.SourcesOk() && f.Released()
      decreases call.Some?, Unspent(f.input, spents[|log|])
    {
      ghost var spent := Spent(f.iters, f.taken);
      StepShrinks(f.input, f.merge, spents[|log|], call.value, spent);
      RunMore(f.input, f.merge, log, spents, call.value, spent);
      log, spents := log + [call.value], spents + [spent];
      call := f.Next();
    }
    OnlyOthers(f);
  }

  /** A merge callback for folds over a single skiparray, which never call it. */
  function NoMerge(ks: seq<Key>, vs: seq<Value>): (nat, Value) {
    (0, Null)
  }

  lemma OneLive(sa: Skiparray)
    ensures forall o :: o in LiveIters([sa]) <==> o in sa.iters
    ensures NodesOf([sa]) == sa.Repr
  {
    assert sa in [sa];
  }

  lemma OneOk(sa: Skiparray, nodes: set<object>, handles: set<Iter>)
    requires AllOk([sa], nodes, handles)
    ensures sa.Valid() && sa.Iterating()
  {
    assert SourceOk([sa][0], nodes, handles);
  }
}
