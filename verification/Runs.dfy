/** Whole runs: any operations in any order, with iterators opened, moved and freed in
    between, against a plain sorted map. */
module Runs {
  import opened Pairs
  import opened Windows
  import opened Layouts
  import opened Chains
  import opened Skiparrays

  /** An operation, with the outcomes of the callbacks it may use. Iterators go by their
      place in the client's list of them. */
  datatype Op =
    | Set(key: Key, value: Value, replaceKey: bool, levelResult: int, allocOk: bool)
    | Forget(key: Key)
    | PopFirst
    | PopLast
    | Get(key: Key)
    | First
    | Last
    | Count
    | Open(allocOk: bool)
    | Free(i: nat)
    | Read(i: nat)
    | Next(i: nat)
    | Prev(i: nat)
    | ToFirst(i: nat)
    | ToLast(i: nat)
    | Seek(i: nat, key: Key)

  datatype Outcome =
    | SetDone(setting: SetResult)
    | ForgetDone(forgetting: ForgetResult)
    | PopDone(popping: PopResult)
    | Found(pair: Option<Pair>)
    | Counted(count: nat)
    | Opened
    | OpenedEmpty
    | OpenErrorMemory
    | Moved
    | Stepped(step: StepResult)
    | Sought(seek: SeekResult)
    | Misuse

  /** The pairs in order, where each of the client's iterators is, and how the pairs are laid
      out in nodes. */
  datatype State = State(pairs: seq<Pair>, cursors: seq<nat>, layout: Layout)

  /** The client's iterators are the live ones. */
  ghost predicate Tracking(sa: Skiparray, open: seq<Iter>)
    reads sa, sa.Repr, sa.iters
  {
    && sa.Valid() && sa.Iterating()
    && Distinct(open) && |open| == |sa.iters|
    && (forall o :: o in open ==> o in sa.iters) && (forall o :: o in sa.iters ==> o in open)
  }

  ghost predicate Shows(sa: Skiparray, open: seq<Iter>, st: State)
    reads sa, open
  {
    && st.pairs == sa.Contents() && st.layout == sa.Lay() && |st.cursors| == |open|
    && (forall i {:trigger open[i]} {:trigger st.cursors[i]} :: 0 <= i < |open| ==>
          open[i].sa == sa && open[i].at <= |sa.wins| && st.cursors[i] == open[i].Place())
  }

  /** The operations that write are refused exactly while there are iterators; then, and when
      they fail, nothing changes. A set fails for memory exactly where it needs a node and is
      not granted one. */
  ghost predicate SetStep(sa: Skiparray, a: State, op: Op, res: SetResult, b: State)
    requires op.Set?
  {
    && sa.SetMeets(a.pairs, op.key, op.value, op.replaceKey, a.cursors != [], res, b.pairs)
    && (res.SetErrorMemory? <==> a.cursors == [] && !op.allocOk && Crowded(a.layout.windows, op.key, sa.nodeSize))
    && sa.SetLays(a.layout, op.key, op.value, op.replaceKey, op.levelResult, res, b.layout)
    && b.cursors == a.cursors
  }

  ghost predicate OpenStep(a: State, op: Op, out: Outcome, b: State)
    requires op.Open?
  {
    && b.pairs == a.pairs && b.layout == a.layout
    && (out.Opened? <==> a.pairs != [] && op.allocOk) && (out.OpenedEmpty? <==> a.pairs == [])
    && (out.OpenErrorMemory? <==> a.pairs != [] && !op.allocOk)
    && b.cursors == if out.Opened? then a.cursors + [0] else a.cursors
  }

  /** Moving an iterator: where it goes, and what it answers. */
  ghost predicate MoveStep(s: seq<Pair>, c: nat, op: Op, out: Outcome, d: nat) {
    match op
    case Read(_) => d == c && out == if c < |s| then Found(Some(s[c])) else Misuse
    case Next(_) => if c >= |s| then out == Misuse && d == c
                    else d == c + 1 && out == Stepped(if d == |s| then StepEnd else StepOk)
    case Prev(_) => if c == 0 then d == 0 && out == Stepped(StepEnd) else d == c - 1 && out == Stepped(StepOk)
    case ToFirst(_) => d == 0 && out == Moved
    case ToLast(_) => d == |s| - 1 && out == Moved
    case Seek(_, key) =>
      var p := Pos(s, key);
      if Has(s, key) then d == p && out == Sought(SeekFound)
      else if p == 0 then d == c && out == Sought(SeekBeforeFirst)
      else if p == |s| then d == c && out == Sought(SeekAfterLast)
      else d == p && out == Sought(SeekNotFound)
    case _ => false
  }

  ghost predicate IterStep(a: State, op: Op, i: nat, out: Outcome, b: State) {
    && b.pairs == a.pairs && b.layout == a.layout
    && if i >= |a.cursors| then out == Misuse && b == a
       else if op.Free? then out == Moved && b.cursors == Removed(a.cursors, i)
       else |b.cursors| == |a.cursors| && b.cursors == a.cursors[i := b.cursors[i]]
            && MoveStep(a.pairs, a.cursors[i], op, out, b.cursors[i])
  }

  /** One operation of the sorted map with iterators. */
  ghost predicate Step(sa: Skiparray, a: State, op: Op, out: Outcome, b: State) {
    match op
    case Set(_, _, _, _, _) => out.SetDone? && SetStep(sa, a, op, out.setting, b)
    case Forget(key) =>
      && out.ForgetDone? && sa.ForgetMeets(a.pairs, key, a.cursors != [], out.forgetting, b.pairs)
      && sa.ForgetLays(a.layout, key, out.forgetting, b.layout) && b.cursors == a.cursors
    case PopFirst =>
      && out.PopDone? && sa.PopMeets(a.pairs, 0, a.cursors != [], out.popping, b.pairs)
      && sa.FirstLays(a.layout, out.popping, b.layout) && b.cursors == a.cursors
    case PopLast =>
      && out.PopDone? && sa.PopMeets(a.pairs, |a.pairs| - 1, a.cursors != [], out.popping, b.pairs)
      && sa.LastLays(a.layout, out.popping, b.layout) && b.cursors == a.cursors
    case Get(key) => b == a && out == Found(if Has(a.pairs, key) then Some(a.pairs[Pos(a.pairs, key)]) else None)
    case First => b == a && out == Found(if a.pairs == [] then None else Some(a.pairs[0]))
    case Last => b == a && out == Found(if a.pairs == [] then None else Some(a.pairs[|a.pairs| - 1]))
    case Count => b == a && out == Counted(|a.pairs|)
    case Open(_) => OpenStep(a, op, out, b)
    case _ => IterStep(a, op, op.i, out, b)
  }

  /** The layout is of these pairs: all nodes but the last between half full and full, none on
      no level or above the limit. */
  ghost predicate Sound(sa: Skiparray, st: State) {
    && sa.nodeSize >= 2 && sa.maxLevel >= 1
    && Shaped(st.layout.windows, sa.nodeSize) && st.pairs == Flatten(st.layout.windows)
    && Matched(st.layout) && forall i {:trigger st.layout.heights[i]} :: 0 <= i < |st.layout.heights| ==>
         1 <= st.layout.heights[i] <= sa.maxLevel
  }

  /** Each operation of the run does what the sorted map would, and the layout is sound at every
      point. */
  ghost predicate Trace(sa: Skiparray, ops: seq<Op>, outs: seq<Outcome>, states: seq<State>) {
    && |outs| == |ops| && |states| == |ops| + 1
    && (forall k {:trigger Sound(sa, states[k])} :: 0 <= k <= |ops| ==> Sound(sa, states[k]))
    && forall k {:trigger ops[k]} :: 0 <= k < |ops| ==> Step(sa, states[k], ops[k], outs[k], states[k + 1])
  }

  // ----- The operations that write -----

  method DoSet(sa: Skiparray, ghost open: seq<Iter>, op: Op, ghost a: State) returns (out: Outcome, ghost b: State)
    requires op.Set? && Tracking(sa, open) && Shows(sa, open, a)
    modifies sa`nodes, sa`height, sa`chain, sa`wins, sa`Repr, sa.Repr
    ensures Tracking(sa, open) && Shows(sa, open, b) && Step(sa, a, op, out, b)
    ensures (forall o {:trigger o in sa.Repr} :: o in sa.Repr ==> o in old(sa.Repr) || fresh(o)) && sa.chain[0] == old(sa.chain[0])
  {
    var res := sa.SetWithPair(op.key, op.value, op.replaceKey, op.levelResult, op.allocOk);
    out, b := SetDone(res), State(sa.Contents(), a.cursors, sa.Lay());
  }

  method DoForget(sa: Skiparray, ghost open: seq<Iter>, op: Op, ghost a: State) returns (out: Outcome, ghost b: State)
    requires op.Forget? && Tracking(sa, open) && Shows(sa, open, a)
    modifies sa`nodes, sa`height, sa`chain, sa`wins, sa`Repr, sa.Repr
    ensures Tracking(sa, open) && Shows(sa, open, b) && Step(sa, a, op, out, b)
    ensures sa.Repr == old(sa.Repr) && sa.chain[0] == old(sa.chain[0])
  {
    var res := sa.Forget(op.key);
    out, b := ForgetDone(res), State(sa.Contents(), a.cursors, sa.Lay());
  }

  method DoPopFirst(sa: Skiparray, ghost open: seq<Iter>, op: Op, ghost a: State) returns (out: Outcome, ghost b: State)
    requires op.PopFirst? && Tracking(sa, open) && Shows(sa, open, a)
    modifies sa`nodes, sa`height, sa`chain, sa`wins, sa`Repr, sa.Repr
    ensures Tracking(sa, open) && Shows(sa, open, b) && Step(sa, a, op, out, b)
    ensures sa.Repr == old(sa.Repr) && sa.chain[0] == old(sa.chain[0])
  {
    var res := sa.PopFirst();
    out, b := PopDone(res), State(sa.Contents(), a.cursors, sa.Lay());
  }

  method DoPopLast(sa: Skiparray, ghost open: seq<Iter>, op: Op, ghost a: State) returns (out: Outcome, ghost b: State)
    requires op.PopLast? && Tracking(sa, open) && Shows(sa, open, a)
    modifies sa`nodes, sa`height, sa`chain, sa`wins, sa`Repr, sa.Repr
    ensures Tracking(sa, open) && Shows(sa, open, b) && Step(sa, a, op, out, b)
    ensures sa.Repr == old(sa.Repr) && sa.chain[0] == old(sa.chain[0])
  {
    var res := sa.PopLast();
    out, b := PopDone(res), State(sa.Contents(), a.cursors, sa.Lay());
  }

  method DoRemove(sa: Skiparray, ghost open: seq<Iter>, op: Op, ghost a: State) returns (out: Outcome, ghost b: State)
    requires (op.Forget? || op.PopFirst? || op.PopLast?) && Tracking(sa, open) && Shows(sa, open, a)
    modifies sa`nodes, sa`height, sa`chain, sa`wins, sa`Repr, sa.Repr
    ensures Tracking(sa, open) && Shows(sa, open, b) && Step(sa, a, op, out, b)
    ensures sa.Repr == old(sa.Repr) && sa.chain[0] == old(sa.chain[0])
  {
    if op.Forget? {
      out, b := DoForget(sa, open, op, a);
    } else if op.PopFirst? {
      out, b := DoPopFirst(sa, open, op, a);
    } else {
      out, b := DoPopLast(sa, open, op, a);
    }
  }

  // ----- The operations that read -----

  method DoRead(sa: Skiparray, ghost open: seq<Iter>, op: Op, ghost a: State) returns (out: Outcome)
    requires (op.Get? || op.First? || op.Last? || op.Count?) && Tracking(sa, open) && Shows(sa, open, a)
    ensures Step(sa, a, op, out, a)
  {
    if op.Count? {
      var count := sa.Count();
      out := Counted(count);
    } else {
      var res;
      if op.Get? {
        res := sa.GetPair(op.key);
      } else if op.First? {
        res := sa.First();
      } else {
        res := sa.Last();
      }
      out := Found(res);
    }
  }

  // ----- Iterators -----

  lemma OneMore(sa: Skiparray, open: seq<Iter>, its: seq<Iter>, it: Iter, a: State)
    requires sa.Valid() && sa.Iterating() && Shows(sa, open, a)
    requires Distinct(open) && |open| == |its| && it !in its && sa.iters == [it] + its
    requires (forall o :: o in open ==> o in its) && (forall o :: o in its ==> o in open)
    requires it.sa == sa && it.at <= |sa.wins| && it.Place() == 0
    ensures Tracking(sa, open + [it]) && Shows(sa, open + [it], a.(cursors := a.cursors + [0]))
    ensures forall o :: o in open + [it] ==> o in open || o == it
  {
    var now := open + [it];
    assert it in now && forall o :: o in open ==> o in now;
    forall j | 0 <= j < |now| ensures now[j].sa == sa && now[j].at <= |sa.wins| && (a.cursors + [0])[j] == now[j].Place() {
      assert now[j] == if j < |open| then open[j] else it;
    }
  }

  /** A new iterator leaves the others where they are. */
  method NewAmong(sa: Skiparray, ghost open: seq<Iter>, allocOk: bool, ghost a: State) returns (res: NewIterResult)
    requires Tracking(sa, open) && Shows(sa, open, a)
    modifies sa`iter, sa`iters, open`prev
    ensures sa.Valid() && sa.Iterating() && Shows(sa, open, a)
    ensures res.NewIterEmpty? <==> a.pairs == []
    ensures res.NewIterErrorMemory? <==> a.pairs != [] && !allocOk
    ensures res.NewIter? ==> fresh(res.it) && res.it.sa == sa && res.it.at <= |sa.wins| && res.it.Place() == 0
    ensures sa.iters == if res.NewIter? then [res.it] + old(sa.iters) else old(sa.iters)
  {
    assert forall j :: 0 <= j < |sa.iters| ==> sa.iters[j] in open;
    res := sa.NewIterator(allocOk);
  }

  method DoOpen(sa: Skiparray, open: seq<Iter>, op: Op, ghost a: State) returns (out: Outcome, now: seq<Iter>, ghost b: State)
    requires op.Open? && Tracking(sa, open) && Shows(sa, open, a)
    modifies sa`iter, sa`iters, open`prev
    ensures Tracking(sa, now) && Shows(sa, now, b) && Step(sa, a, op, out, b)
    ensures forall o :: o in now ==> o in open || fresh(o)
  {
    ghost var its := sa.iters;
    var res := NewAmong(sa, open, op.allocOk, a);
    match res
    case NewIter(it) =>
      OneMore(sa, open, its, it, a);
      out, now, b := Opened, open + [it], a.(cursors := a.cursors + [0]);
    case NewIterEmpty =>
      out, now, b := OpenedEmpty, open, a;
    case NewIterErrorMemory =>
      out, now, b := OpenErrorMemory, open, a;
  }

  function Without(open: seq<Iter>, i: nat): (now: seq<Iter>)
    requires i < |open|
    ensures now == Removed(open, i)
  {
    open[..i] + open[i + 1..]
  }

  method DoFree(sa: Skiparray, open: seq<Iter>, op: Op, ghost a: State) returns (now: seq<Iter>, ghost b: State)
    requires op.Free? && op.i < |open| && Tracking(sa, open) && Shows(sa, open, a)
    modifies sa`iter, sa`iters, open`prev, open`next
    ensures Tracking(sa, now) && Shows(sa, now, b) && Step(sa, a, op, Moved, b)
    ensures forall o :: o in now ==> o in open
  {
    assert open[op.i].sa == sa && forall j :: 0 <= j < |sa.iters| ==> sa.iters[j] in open;
    ghost var its := sa.iters;
    ghost var k := open[op.i].Free();
    now := Without(open, op.i);
    b := a.(cursors := Removed(a.cursors, op.i));
    OneLess(sa, open, op.i, its, k, a);
  }

  lemma OneLess(sa: Skiparray, open: seq<Iter>, i: nat, its: seq<Iter>, k: nat, a: State)
    requires sa.Valid() && sa.Iterating() && Shows(sa, open, a)
    requires Distinct(open) && Distinct(its) && i < |open| == |its| && k < |its| && open[i] == its[k]
    requires (forall o :: o in open ==> o in its) && (forall o :: o in its ==> o in open)
    requires sa.iters == Removed(its, k)
    ensures Tracking(sa, Removed(open, i)) && Shows(sa, Removed(open, i), a.(cursors := Removed(a.cursors, i)))
    ensures forall o :: o in Removed(open, i) ==> o in open
  {
    RemovedMembers(open, i);
    RemovedMembers(its, k);
    var now := Removed(open, i);
    forall j | 0 <= j < |now| ensures now[j].at <= |sa.wins| && now[j].sa == sa && Removed(a.cursors, i)[j] == now[j].Place() {
      assert now[j] == open[if j < i then j else j + 1];
    }
  }

  method DoMove(sa: Skiparray, open: seq<Iter>, op: Op, ghost a: State) returns (out: Outcome, ghost b: State)
    requires op.Read? || op.Next? || op.Prev? || op.ToFirst? || op.ToLast? || op.Seek?
    requires op.i < |open| && Tracking(sa, open) && Shows(sa, open, a)
    modifies open`n, open`index, open`at
    ensures Tracking(sa, open) && Shows(sa, open, b) && Step(sa, a, op, out, b)
  {
    out := MoveAmong(sa, open, op, a);
    b := a.(cursors := a.cursors[op.i := open[op.i].Place()]);
    MovedStep(sa, a, op, out, b);
  }

  /** Moving one iterator leaves the others where they are. */
  method MoveAmong(sa: Skiparray, open: seq<Iter>, op: Op, ghost a: State) returns (out: Outcome)
    requires op.Read? || op.Next? || op.Prev? || op.ToFirst? || op.ToLast? || op.Seek?
    requires op.i < |open| && Tracking(sa, open) && Shows(sa, open, a)
    modifies open`n, open`index, open`at
    ensures Tracking(sa, open) && open[op.i].at <= |sa.wins|
    ensures Shows(sa, open, a.(cursors := a.cursors[op.i := open[op.i].Place()]))
    ensures MoveStep(a.pairs, a.cursors[op.i], op, out, open[op.i].Place())
  {
    var it := open[op.i];
    assert it in open && it.sa == sa && a.cursors[op.i] == it.Place();
    out := MoveOne(sa, it, op);
    forall j | 0 <= j < |open|
      ensures open[j].sa == sa && open[j].at <= |sa.wins| && a.cursors[op.i := it.Place()][j] == open[j].Place()
    {
      assert j != op.i ==> open[j] != it && a.cursors[j] == old(open[j].Place());
    }
  }

  lemma MovedStep(sa: Skiparray, a: State, op: Op, out: Outcome, b: State)
    requires op.Read? || op.Next? || op.Prev? || op.ToFirst? || op.ToLast? || op.Seek?
    requires op.i < |a.cursors| == |b.cursors| && b == a.(cursors := a.cursors[op.i := b.cursors[op.i]])
    requires MoveStep(a.pairs, a.cursors[op.i], op, out, b.cursors[op.i])
    ensures Step(sa, a, op, out, b)
  {
  }

  method MoveOne(sa: Skiparray, it: Iter, op: Op) returns (out: Outcome)
    requires op.Read? || op.Next? || op.Prev? || op.ToFirst? || op.ToLast? || op.Seek?
    requires it.Live() && it.sa == sa
    modifies it`n, it`index, it`at
    ensures it.Live() && it.at <= |sa.wins|
    ensures MoveStep(sa.Contents(), old(it.Place()), op, out, it.Place())
  {
    if op.Read? || op.Next? {
      sa.PastEnd(it);
      if it.index < it.n.count {
        if op.Read? {
          var pair := it.Get();
          return Found(Some(pair));
        }
        var res := it.Next();
        return Stepped(res);
      }
      return Misuse;
    }
    out := MoveAnywhere(sa, it, op);
  }

  method MoveAnywhere(sa: Skiparray, it: Iter, op: Op) returns (out: Outcome)
    requires op.Prev? || op.ToFirst? || op.ToLast? || op.Seek?
    requires it.Live() && it.sa == sa
    modifies it`n, it`index, it`at
    ensures it.Live() && it.at <= |sa.wins|
    ensures MoveStep(sa.Contents(), old(it.Place()), op, out, it.Place())
  {
    match op {
      case Prev(_) =>
        var res := it.Prev();
        out := Stepped(res);
      case ToFirst(_) =>
        it.SeekFirst();
        out := Moved;
      case ToLast(_) =>
        it.SeekLast();
        out := Moved;
      case Seek(_, key) =>
        var res := it.Seek(key);
        out := Sought(res);
    }
  }

  // ----- Runs -----

  method Perform(sa: Skiparray, open: seq<Iter>, op: Op, ghost a: State) returns (out: Outcome, now: seq<Iter>, ghost b: State)
    requires Tracking(sa, open) && Shows(sa, open, a)
    modifies sa`nodes, sa`height, sa`chain, sa`wins, sa`Repr, sa.Repr
    modifies sa`iter, sa`iters, open`prev, open`next, open`n, open`index, open`at
    ensures Tracking(sa, now) && Shows(sa, now, b) && Step(sa, a, op, out, b) && Sound(sa, b)
    ensures sa.chain != [] && sa.chain[0] == old(sa.chain)[0]
    ensures forall o {:trigger o in sa.Repr} :: o in sa.Repr ==> o in old(sa.Repr) || fresh(o)
    ensures forall o :: o in now ==> o in open || fresh(o)
  {
    now, b := open, a;
    if op.Set? {
      out, b := DoSet(sa, open, op, a);
    } else if op.Forget? || op.PopFirst? || op.PopLast? {
      out, b := DoRemove(sa, open, op, a);
    } else if op.Get? || op.First? || op.Last? || op.Count? {
      out := DoRead(sa, open, op, a);
    } else if op.Open? {
      out, now, b := DoOpen(sa, open, op, a);
    } else {
      out, now, b := DoIter(sa, open, op, a);
    }
    ShowsSound(sa, now, b);
  }

  method DoIter(sa: Skiparray, open: seq<Iter>, op: Op, ghost a: State) returns (out: Outcome, now: seq<Iter>, ghost b: State)
    requires op.Free? || op.Read? || op.Next? || op.Prev? || op.ToFirst? || op.ToLast? || op.Seek?
    requires Tracking(sa, open) && Shows(sa, open, a)
    modifies sa`iter, sa`iters, open`prev, open`next, open`n, open`index, open`at
    ensures Tracking(sa, now) && Shows(sa, now, b) && Step(sa, a, op, out, b)
    ensures forall o :: o in now ==> o in open
  {
    if op.i >= |open| {
      out, now, b := Misuse, open, a;
    } else if op.Free? {
      now, b := DoFree(sa, open, op, a);
      out := Moved;
    } else {
      now := open;
      out, b := DoMove(sa, open, op, a);
    }
  }

  ghost predicate HasOpen(st: State, n: nat) {
    |st.cursors| == n
  }

  /** With n iterators open, the state is what the client sees. */
  ghost predicate Serving(sa: Skiparray, open: seq<Iter>, st: State)
    reads sa, sa.Repr, sa.iters, open
  {
    forall n {:trigger HasOpen(st, n)} :: HasOpen(st, n) ==> Tracking(sa, open) && Shows(sa, open, st)
  }

  method PerformNext(sa: Skiparray, open: seq<Iter>, ops: seq<Op>, n: nat, ghost outs: seq<Outcome>, ghost states: seq<State>)
    returns (out: Outcome, now: seq<Iter>, ghost b: State)
    requires n < |ops| && Trace(sa, ops[..n], outs, states) && Serving(sa, open, states[n])
    modifies sa`nodes, sa`height, sa`chain, sa`wins, sa`Repr, sa.Repr
    modifies sa`iter, sa`iters, open`prev, open`next, open`n, open`index, open`at
    ensures Serving(sa, now, b) && Trace(sa, ops[..n + 1], outs + [out], states + [b])
    ensures sa.chain != [] && old(sa.chain) != [] && sa.chain[0] == old(sa.chain[0])
    ensures forall o {:trigger o in sa.Repr} :: o in sa.Repr ==> o in old(sa.Repr) || fresh(o)
    ensures forall o :: o in now ==> o in open || fresh(o)
  {
    assert HasOpen(states[n], |states[n].cursors|);
    out, now, b := Perform(sa, open, ops[n], states[n]);
    TraceMore(sa, ops, n, outs, states, out, b);
  }

  /** Whole-run refinement: whatever the operations and the callbacks' answers, every result
      is the sorted map's, the head node is never replaced, and at every point the skiparray
      is well-formed and its live iterators are the client's. */
  method RunAll(sa: Skiparray, open: seq<Iter>, ops: seq<Op>, ghost a: State)
    returns (outs: seq<Outcome>, now: seq<Iter>, ghost states: seq<State>)
    requires Tracking(sa, open) && Shows(sa, open, a)
    modifies sa`nodes, sa`height, sa`chain, sa`wins, sa`Repr, sa.Repr
    modifies sa`iter, sa`iters, open`prev, open`next, open`n, open`index, open`at
    ensures Trace(sa, ops, outs, states) && states[0] == a
    ensures Tracking(sa, now) && Shows(sa, now, states[|ops|])
    ensures sa.chain != [] && sa.chain[0] == old(sa.chain)[0]
  {
    ShowsSound(sa, open, a);
    outs, now, states := RunRest(sa, open, ops, a);
    assert HasOpen(states[|ops|], |states[|ops|].cursors|);
  }

  method RunRest(sa: Skiparray, open: seq<Iter>, ops: seq<Op>, ghost a: State)
    returns (outs: seq<Outcome>, now: seq<Iter>, ghost states: seq<State>)
    requires Serving(sa, open, a) && Sound(sa, a) && sa.chain != []
    modifies sa`nodes, sa`height, sa`chain, sa`wins, sa`Repr, sa.Repr
    modifies sa`iter, sa`iters, open`prev, open`next, open`n, open`index, open`at
    ensures Trace(sa, ops, outs, states) && states[0] == a
    ensures Serving(sa, now, states[|ops|])
    ensures sa.chain != [] && sa.chain[0] == old(sa.chain)[0]
  {
    outs, now, states := [], open, [a];
    for n := 0 to |ops|
      invariant |outs| == n && Trace(sa, ops[..n], outs, states) && states[0] == a
      invariant Serving(sa, now, states[n])
      invariant sa.chain != [] && sa.chain[0] == old(sa.chain)[0]
      invariant forall o {:trigger o in sa.Repr} :: o in sa.Repr ==> o in old(sa.Repr) || fresh(o)
      invariant forall o :: o in now ==> o in open || fresh(o)
    {
      assert forall j :: 0 <= j < |now| ==> now[j] in now;
      var out;
      ghost var b;
      out, now, b := PerformNext(sa, now, ops, n, outs, states);
      outs, states := outs + [out], states + [b];
    }
    assert ops[..|ops|] == ops;
  }

  lemma ShowsSound(sa: Skiparray, open: seq<Iter>, st: State)
    requires Tracking(sa, open) && Shows(sa, open, st)
    ensures Sound(sa, st)
  {
  }

  lemma TraceMore(sa: Skiparray, ops: seq<Op>, n: nat, outs: seq<Outcome>, states: seq<State>, out: Outcome, b: State)
    requires n < |ops| && Trace(sa, ops[..n], outs, states) && Step(sa, states[n], ops[n], out, b) && Sound(sa, b)
    ensures Trace(sa, ops[..n + 1], outs + [out], states + [b])
  {
    var more, outs', states' := ops[..n + 1], outs + [out], states + [b];
    forall k | 0 <= k <= n + 1 ensures Sound(sa, states'[k]) {
      assert k <= n ==> Sound(sa, states[k]);
    }
    forall k | 0 <= k < n + 1 ensures Step(sa, states'[k], more[k], outs'[k], states'[k + 1]) {
      assert k < n ==> more[k] == ops[..n][k] && Step(sa, states[k], ops[..n][k], outs[k], states[k + 1]);
    }
  }

  // ----- The run on a map -----

  ghost predicate Smallest(m: map<int, Pair>, p: Pair) {
    p.key.rank in m && m[p.key.rank] == p && forall r :: r in m ==> p.key.rank <= r
  }

  ghost predicate Largest(m: map<int, Pair>, p: Pair) {
    p.key.rank in m && m[p.key.rank] == p && forall r :: r in m ==> r <= p.key.rank
  }

  ghost predicate MapPop(m: map<int, Pair>, first: bool, locked: bool, res: PopResult, m': map<int, Pair>) {
    && (res.PopErrorLocked? <==> locked)
    && match res
       case PopErrorLocked => m' == m
       case PopEmpty => m == map[] == m'
       case Popped(p) => (if first then Smallest(m, p) else Largest(m, p)) && m' == m - {p.key.rank}
  }

  /** The key would be new and go into a full node. */
  ghost predicate NeedsNode(sa: Skiparray, st: State, op: Op) {
    op.Set? && Crowded(st.layout.windows, op.key, sa.nodeSize)
  }

  /** One operation of a map from key ranks to pairs; `locked` while there are iterators, and
      `crowded` where a set needs a node. */
  ghost predicate MapStep(sa: Skiparray, m: map<int, Pair>, locked: bool, crowded: bool, op: Op, out: Outcome, m': map<int, Pair>) {
    match op
    case Set(key, value, replaceKey, _, allocOk) =>
      && out.SetDone? && (out.setting.SetErrorLocked? <==> locked)
      && (out.setting.SetErrorMemory? <==> !locked && crowded && !allocOk)
      && var bound := m[key.rank := Pair(if key.rank in m && !replaceKey then m[key.rank].key else key, sa.Stored(value))];
         match out.setting {
           case SetErrorLocked => m' == m
           case SetErrorMemory => key.rank !in m && m' == m
           case Replaced(previous) => key.rank in m && previous == m[key.rank] && m' == bound
           case Bound => key.rank !in m && m' == bound
         }
    case Forget(key) =>
      && out.ForgetDone? && (out.forgetting.ForgetErrorLocked? <==> locked)
      && (match out.forgetting {
            case ForgetErrorLocked => m' == m
            case ForgetNotFound => key.rank !in m && m' == m
            case Forgotten(pair) => key.rank in m && pair == m[key.rank] && m' == m - {key.rank}
          })
    case PopFirst => out.PopDone? && MapPop(m, true, locked, out.popping, m')
    case PopLast => out.PopDone? && MapPop(m, false, locked, out.popping, m')
    case Get(key) => m' == m && out == Found(if key.rank in m then Some(m[key.rank]) else None)
    case First => m' == m && out.Found? && if out.pair.None? then m == map[] else Smallest(m, out.pair.value)
    case Last => m' == m && out.Found? && if out.pair.None? then m == map[] else Largest(m, out.pair.value)
    case Count => m' == m && out == Counted(|m|)
    case _ => m' == m
  }

  lemma EndsOfMap(s: seq<Pair>, m: map<int, Pair>)
    requires Lists(s, m)
    ensures s == [] <==> m == map[]
    ensures s != [] ==> Smallest(m, s[0]) && Largest(m, s[|s| - 1])
  {
    ListsCount(s, m);
    forall r | r in m ensures s != [] ==> s[0].key.rank <= r <= s[|s| - 1].key.rank {
      assert HasRank(s, r);
    }
  }

  lemma StepOnMap(sa: Skiparray, a: State, op: Op, out: Outcome, b: State, m: map<int, Pair>) returns (m': map<int, Pair>)
    requires Lists(a.pairs, m) && Step(sa, a, op, out, b)
    ensures Lists(b.pairs, m') && MapStep(sa, m, a.cursors != [], NeedsNode(sa, a, op), op, out, m')
  {
    m' := m;
    EndsOfMap(a.pairs, m);
    ListsCount(a.pairs, m);
    match op {
      case Set(key, value, replaceKey, _, _) =>
        MapSetIsUpdate(a.pairs, m, key, sa.Stored(value), replaceKey);
        KeyedPair(a.pairs, m, key);
        if b.pairs != a.pairs || out.setting.Replaced? {
          m' := m[key.rank := Pair(if key.rank in m && !replaceKey then m[key.rank].key else key, sa.Stored(value))];
        }
      case Forget(key) =>
        MapForgetIsRemoval(a.pairs, m, key);
        KeyedPair(a.pairs, m, key);
        if out.forgetting.Forgotten? {
          m' := m - {key.rank};
        }
      case PopFirst =>
        if out.popping.Popped? {
          RemovedLists(a.pairs, m, 0);
          m' := m - {a.pairs[0].key.rank};
        }
      case PopLast =>
        if out.popping.Popped? {
          RemovedLists(a.pairs, m, |a.pairs| - 1);
          m' := m - {a.pairs[|a.pairs| - 1].key.rank};
        }
      case Get(key) =>
        KeyedPair(a.pairs, m, key);
      case _ =>
    }
  }

  lemma KeyedPair(s: seq<Pair>, m: map<int, Pair>, key: Key)
    requires Lists(s, m)
    ensures Has(s, key) <==> key.rank in m
    ensures Has(s, key) ==> s[Pos(s, key)] == m[key.rank]
  {
    MapForgetIsRemoval(s, m, key);
  }

  lemma TracePrefix(sa: Skiparray, ops: seq<Op>, outs: seq<Outcome>, states: seq<State>, n: nat)
    requires Trace(sa, ops, outs, states) && n <= |ops|
    ensures Trace(sa, ops[..n], outs[..n], states[..n + 1])
  {
    assert forall k {:trigger states[..n + 1][k]} :: 0 <= k <= n ==> states[..n + 1][k] == states[k] && Sound(sa, states[k]);
    forall k | 0 <= k < n ensures Step(sa, states[k], ops[..n][k], outs[..n][k], states[k + 1]) {
      assert ops[..n][k] == ops[k];
    }
  }

  /** Every run of the skiparray is a run of the map, result by result. */
  lemma {:induction false} RunOnMap(sa: Skiparray, ops: seq<Op>, outs: seq<Outcome>, states: seq<State>, m: map<int, Pair>)
    returns (maps: seq<map<int, Pair>>)
    requires Trace(sa, ops, outs, states) && Lists(states[0].pairs, m)
    ensures |maps| == |ops| + 1 && maps[0] == m
    ensures forall k :: 0 <= k < |maps| ==> Lists(states[k].pairs, maps[k])
    ensures forall k {:trigger ops[k]} :: 0 <= k < |ops| ==>
              MapStep(sa, maps[k], states[k].cursors != [], NeedsNode(sa, states[k], ops[k]), ops[k], outs[k], maps[k + 1])
  {
    if ops == [] {
      maps := [m];
    } else {
      var n := |ops| - 1;
      TracePrefix(sa, ops, outs, states, n);
      var before := RunOnMap(sa, ops[..n], outs[..n], states[..n + 1], m);
      var last := StepOnMap(sa, states[n], ops[n], outs[n], states[n + 1], before[n]);
      maps := before + [last];
      forall k | 0 <= k < |ops| ensures MapStep(sa, maps[k], states[k].cursors != [], NeedsNode(sa, states[k], ops[k]), ops[k], outs[k], maps[k + 1])
      {
        assert k < n ==> ops[k] == ops[..n][k];
      }
    }
  }

  /** Any run on a new skiparray. */
  method RunNew(nodeSize: nat, maxLevel: nat, useValues: bool, levelResult: int, ops: seq<Op>)
    returns (sa: Skiparray, outs: seq<Outcome>, open: seq<Iter>, ghost states: seq<State>)
    requires 2 <= nodeSize < 0x1_0000 && 1 <= maxLevel <= 32 && (levelResult + 1) % 256 != 0
    ensures Trace(sa, ops, outs, states) && states[0].pairs == [] && states[0].cursors == []
    ensures |states[0].layout.heights| == 1 && RootHeight(states[0].layout.heights[0], maxLevel, levelResult)
    ensures states[0].layout.windows == [[]]
    ensures Tracking(sa, open) && Shows(sa, open, states[|ops|])
    ensures sa.nodeSize == nodeSize && sa.maxLevel == maxLevel && sa.useValues == useValues
  {
    sa := new Skiparray(nodeSize, maxLevel, useValues, levelResult);
    outs, open, states := RunAll(sa, [], ops, State([], [], sa.Lay()));
  }

  // ----- What iterators can rely on -----

  /** Every cursor is on a pair or just past the last one. */
  ghost predicate InRange(st: State) {
    && (st.cursors != [] ==> st.pairs != [])
    && forall i :: 0 <= i < |st.cursors| ==> st.cursors[i] <= |st.pairs|
  }

  lemma StepInRange(sa: Skiparray, a: State, op: Op, out: Outcome, b: State)
    requires Step(sa, a, op, out, b) && InRange(a)
    ensures InRange(b) && (a.cursors != [] ==> b.pairs == a.pairs)
  {
    if op.Free? && op.i < |a.cursors| {
      assert forall i :: 0 <= i < |b.cursors| ==> b.cursors[i] == a.cursors[if i < op.i then i else i + 1];
    }
  }

  /** For as long as there are iterators, the pairs do not change, and every iterator stays
      on one of them or just past the last. */
  lemma {:induction false} Pinned(sa: Skiparray, ops: seq<Op>, outs: seq<Outcome>, states: seq<State>, j: nat, k: nat)
    requires Trace(sa, ops, outs, states) && j <= k <= |ops| && InRange(states[j])
    ensures InRange(states[k])
    ensures (forall i :: j <= i < k ==> states[i].cursors != []) ==> states[k].pairs == states[j].pairs
    decreases k - j
  {
    if j < k {
      Pinned(sa, ops, outs, states, j, k - 1);
      assert Step(sa, states[k - 1], ops[k - 1], outs[k - 1], states[k]);
      StepInRange(sa, states[k - 1], ops[k - 1], outs[k - 1], states[k]);
    }
  }

  /** Reading and stepping from the first pair visits every pair once, in order. */
  method Sweep(sa: Skiparray, it: Iter) returns (s: seq<Pair>)
    requires it.Live() && it.sa == sa
    modifies it`n, it`index, it`at
    ensures it.Live() && s == sa.Contents()
  {
    it.SeekFirst();
    ghost var c := sa.Contents();
    s := [];
    var res := StepOk;
    while res == StepOk
      invariant it.Live() && |s| <= |c| && s == c[..|s|] && it.Place() == |s|
      invariant res == if s != [] && |s| == |c| then StepEnd else StepOk
      decreases |c| - |s|, res == StepOk
    {
      var pair;
      pair, res := Forward(sa, it);
      s := s + [pair];
    }
  }

  method Forward(sa: Skiparray, it: Iter) returns (pair: Pair, res: StepResult)
    requires it.Live() && it.sa == sa && it.Place() < |sa.Contents()|
    modifies it`n, it`index, it`at
    ensures it.Live() && pair == sa.Contents()[old(it.Place())] && it.Place() == old(it.Place()) + 1
    ensures res == if it.Place() == |sa.Contents()| then StepEnd else StepOk
  {
    pair := it.Get();
    res := it.Next();
  }

  /** These are the last pairs, in reverse. */
  ghost predicate IsBack(s: seq<Pair>, c: seq<Pair>) {
    |s| <= |c| && forall k {:trigger s[k]} :: 0 <= k < |s| ==> s[k] == c[|c| - 1 - k]
  }

  /** Reading and stepping back from the last pair visits every pair once, in reverse. */
  method SweepBack(sa: Skiparray, it: Iter) returns (s: seq<Pair>)
    requires it.Live() && it.sa == sa
    modifies it`n, it`index, it`at
    ensures it.Live() && |s| == |sa.Contents()| && IsBack(s, sa.Contents())
  {
    it.SeekLast();
    ghost var c := sa.Contents();
    s := [];
    var res := StepOk;
    while res == StepOk
      invariant it.Live() && sa.Contents() == c && |s| <= |c| && it.Place() == if |s| < |c| then |c| - 1 - |s| else 0
      invariant res == if |s| == |c| then StepEnd else StepOk
      invariant IsBack(s, c)
      decreases |c| - |s|
    {
      var pair;
      pair, res := Backward(sa, it, c);
      s := s + [pair];
    }
  }

  method Backward(sa: Skiparray, it: Iter, ghost c: seq<Pair>) returns (pair: Pair, res: StepResult)
    requires it.Live() && it.sa == sa && it.Place() < |c| && sa.Contents() == c
    modifies it`n, it`index, it`at
    ensures it.Live() && sa.Contents() == c && pair == c[old(it.Place())]
    ensures it.Place() == if old(it.Place()) == 0 then 0 else old(it.Place()) - 1
    ensures res == if old(it.Place()) == 0 then StepEnd else StepOk
  {
    pair := it.Get();
    res := it.Prev();
  }
}
