/** What follows of whole runs: they are settled by their operations, down to the layout of the
    nodes, and the iterators read the map in order. */
module Histories {
  import opened Pairs
  import opened Windows
  import opened Layouts
  import opened Skiparrays
  import opened Runs

  // ----- A run is settled by its operations -----

  /** A key that is there is found in one place only. */
  lemma FoundUnique(ws: seq<seq<Pair>>, key: Key, i: nat, a: nat, i': nat, a': nat)
    requires Answers(ws, key, true, i, a) && Answers(ws, key, true, i', a')
    ensures i == i' && a == a'
  {
    if i < i' {
      StartMonotone(ws, i, i');
    } else if i' < i {
      StartMonotone(ws, i', i);
    }
  }

  lemma BoundDetermined(sa: Skiparray, lay: Layout, i: nat, a: nat, pair: Pair, answer: int, b: Layout, b': Layout)
    requires sa.maxLevel > 0 && sa.BoundIn(lay, i, a, pair, answer, b) && sa.BoundIn(lay, i, a, pair, answer, b')
    ensures b == b'
  {
    if |lay.windows[i]| == sa.nodeSize {
      AddedHeightIs(b.heights[i + 1], sa.maxLevel, answer);
      AddedHeightIs(b'.heights[i + 1], sa.maxLevel, answer);
    }
  }

  lemma SetLaysDetermined(sa: Skiparray, a: State, op: Op, res: SetResult, b: Layout, b': Layout)
    requires op.Set? && Sound(sa, a)
    requires sa.SetLays(a.layout, op.key, op.value, op.replaceKey, op.levelResult, res, b)
    requires sa.SetLays(a.layout, op.key, op.value, op.replaceKey, op.levelResult, res, b')
    ensures b == b'
  {
    var ws, pair := a.layout.windows, Pair(op.key, sa.Stored(op.value));
    if res.Replaced? {
      var i: nat, n: nat :| Answers(ws, op.key, true, i, n)
        && b == Overwritten(a.layout, i, n, Pair(if op.replaceKey then op.key else ws[i][n].key, sa.Stored(op.value)));
      var i': nat, n': nat :| Answers(ws, op.key, true, i', n')
        && b' == Overwritten(a.layout, i', n', Pair(if op.replaceKey then op.key else ws[i'][n'].key, sa.Stored(op.value)));
      FoundUnique(ws, op.key, i, n, i', n');
    } else if res.Bound? {
      var i: nat, n: nat :| Answers(ws, op.key, false, i, n) && sa.BoundIn(a.layout, i, n, pair, op.levelResult, b);
      var i': nat, n': nat :| Answers(ws, op.key, false, i', n') && sa.BoundIn(a.layout, i', n', pair, op.levelResult, b');
      AnswerUnique(ws, sa.nodeSize, op.key, i, n, i', n');
      BoundDetermined(sa, a.layout, i, n, pair, op.levelResult, b, b');
    }
  }

  lemma ForgetLaysDetermined(sa: Skiparray, lay: Layout, key: Key, res: ForgetResult, b: Layout, b': Layout)
    requires sa.ForgetLays(lay, key, res, b) && sa.ForgetLays(lay, key, res, b')
    ensures b == b'
  {
    if res.Forgotten? {
      var i: nat, n: nat :| Answers(lay.windows, key, true, i, n) && Matched(lay) && b == TakenOut(lay, sa.nodeSize, i, n);
      var i': nat, n': nat :| Answers(lay.windows, key, true, i', n') && Matched(lay) && b' == TakenOut(lay, sa.nodeSize, i', n');
      FoundUnique(lay.windows, key, i, n, i', n');
    }
  }

  /** The operations that write: their result, and what they leave. */
  lemma WriteDetermined(sa: Skiparray, a: State, op: Op, out: Outcome, b: State, out': Outcome, b': State)
    requires (op.Set? || op.Forget? || op.PopFirst? || op.PopLast?) && Sound(sa, a)
    requires Step(sa, a, op, out, b) && Step(sa, a, op, out', b')
    ensures out == out' && b == b'
  {
    if op.Set? {
      SetLaysDetermined(sa, a, op, out.setting, b.layout, b'.layout);
    } else if op.Forget? {
      ForgetLaysDetermined(sa, a.layout, op.key, out.forgetting, b.layout, b'.layout);
    }
  }

  lemma StepDetermined(sa: Skiparray, a: State, op: Op, out: Outcome, b: State, out': Outcome, b': State)
    requires Sound(sa, a) && Step(sa, a, op, out, b) && Step(sa, a, op, out', b')
    ensures out == out' && b == b'
  {
    if op.Set? || op.Forget? || op.PopFirst? || op.PopLast? {
      WriteDetermined(sa, a, op, out, b, out', b');
    }
  }

  /** Two runs of the same operations, from the same state and with the same answers of the
      callbacks, give the same results and leave the same nodes, all along. */
  lemma {:induction false} RunDetermined(sa: Skiparray, ops: seq<Op>, outs: seq<Outcome>, states: seq<State>,
                                         outs': seq<Outcome>, states': seq<State>)
    requires Trace(sa, ops, outs, states) && Trace(sa, ops, outs', states') && states[0] == states'[0]
    ensures outs == outs' && states == states'
  {
    if ops != [] {
      var n := |ops| - 1;
      TracePrefix(sa, ops, outs, states, n);
      TracePrefix(sa, ops, outs', states', n);
      RunDetermined(sa, ops[..n], outs[..n], states[..n + 1], outs'[..n], states'[..n + 1]);
      assert states[n] == states[..n + 1][n] == states'[..n + 1][n] == states'[n];
      StepDetermined(sa, states[n], ops[n], outs[n], states[n + 1], outs'[n], states'[n + 1]);
      assert outs == outs[..n] + [outs[n]] && outs' == outs'[..n] + [outs'[n]];
      assert states == states[..n + 1] + [states[n + 1]] && states' == states'[..n + 1] + [states'[n + 1]];
    }
  }

  // ----- When memory is needed -----

  /** A set adds a node exactly where it needs one, and a pair where the key is new. */
  lemma SetGrows(sa: Skiparray, a: State, op: Op, out: Outcome, b: State)
    requires op.Set? && Sound(sa, a) && Step(sa, a, op, out, b)
    ensures |b.pairs| == |a.pairs| + (if out.setting.Bound? then 1 else 0)
    ensures |b.layout.windows| == |a.layout.windows| + (if out.setting.Bound? && NeedsNode(sa, a, op) then 1 else 0)
  {
    var ws := a.layout.windows;
    if out.setting.Bound? {
      MapSetAscending(a.pairs, op.key, sa.Stored(op.value), op.replaceKey);
      var pair := Pair(op.key, sa.Stored(op.value));
      var i: nat, n: nat :| Answers(ws, op.key, false, i, n) && sa.BoundIn(a.layout, i, n, pair, op.levelResult, b.layout);
      if NeedsNode(sa, a, op) {
        var i': nat, n': nat :| Answers(ws, op.key, false, i', n') && |ws[i']| == sa.nodeSize;
        AnswerUnique(ws, sa.nodeSize, op.key, i, n, i', n');
      }
      if |ws[i]| == sa.nodeSize {
        EnteredSplitSizes(a.layout, sa.nodeSize, i, n, pair, b.layout.heights[i + 1]);
      }
    } else if out.setting.Replaced? {
      MapSetAscending(a.pairs, op.key, sa.Stored(op.value), op.replaceKey);
    }
  }

  /** The only node there is is full exactly when it holds as many pairs as fit. */
  lemma LoneNeeds(sa: Skiparray, st: State, op: Op)
    requires Sound(sa, st) && |st.layout.windows| == 1 && op.Set?
    ensures NeedsNode(sa, st, op) <==> !Has(st.pairs, op.key) && |st.pairs| == sa.nodeSize
  {
    var ws := st.layout.windows;
    FlattenOne(ws[0]);
    assert ws == [ws[0]] && ws[..0] == [];
    assert !Has(st.pairs, op.key) ==> Answers(ws, op.key, false, 0, Pos(st.pairs, op.key));
  }

  /** Sets alone fill the first node before they need another one. */
  lemma {:induction false} SetsFillFirst(sa: Skiparray, ops: seq<Op>, outs: seq<Outcome>, states: seq<State>)
    requires Trace(sa, ops, outs, states) && |states[0].layout.windows| == 1
    requires forall k :: 0 <= k < |ops| ==> ops[k].Set?
    ensures |states[|ops|].pairs| <= sa.nodeSize ==> |states[|ops|].layout.windows| == 1
  {
    if ops != [] {
      var n := |ops| - 1;
      TracePrefix(sa, ops, outs, states, n);
      SetsFillFirst(sa, ops[..n], outs[..n], states[..n + 1]);
      assert Step(sa, states[n], ops[n], outs[n], states[n + 1]) && Sound(sa, states[n]);
      SetGrows(sa, states[n], ops[n], outs[n], states[n + 1]);
      if |states[n + 1].pairs| <= sa.nodeSize {
        LoneNeeds(sa, states[n], ops[n]);
      }
    }
  }

  /** So after sets alone, the first that can fail for memory is that of the first key too many,
      and it does exactly when it is not granted a node. */
  lemma FirstRefusal(sa: Skiparray, ops: seq<Op>, outs: seq<Outcome>, states: seq<State>, k: nat)
    requires Trace(sa, ops, outs, states) && |states[0].layout.windows| == 1 && states[0].cursors == [] && k < |ops|
    requires forall j :: 0 <= j <= k ==> ops[j].Set?
    requires |states[k].pairs| <= sa.nodeSize
    ensures outs[k] == SetDone(SetErrorMemory) <==>
              |states[k].pairs| == sa.nodeSize && !Has(states[k].pairs, ops[k].key) && !ops[k].allocOk
  {
    TracePrefix(sa, ops, outs, states, k);
    SetsFillFirst(sa, ops[..k], outs[..k], states[..k + 1]);
    NoneOpen(sa, ops[..k], outs[..k], states[..k + 1]);
    assert Step(sa, states[k], ops[k], outs[k], states[k + 1]) && Sound(sa, states[k]);
    LoneNeeds(sa, states[k], ops[k]);
  }

  lemma {:induction false} NoneOpen(sa: Skiparray, ops: seq<Op>, outs: seq<Outcome>, states: seq<State>)
    requires Trace(sa, ops, outs, states) && states[0].cursors == []
    requires forall j :: 0 <= j < |ops| ==> ops[j].Set?
    ensures states[|ops|].cursors == []
  {
    if ops != [] {
      var n := |ops| - 1;
      TracePrefix(sa, ops, outs, states, n);
      NoneOpen(sa, ops[..n], outs[..n], states[..n + 1]);
      assert Step(sa, states[n], ops[n], outs[n], states[n + 1]);
    }
  }

  // ----- How tall nodes are -----

  /** Every node but the first is on an express level. */
  ghost predicate Tall(hs: seq<nat>) {
    forall i {:trigger hs[i]} :: 0 < i < |hs| ==> hs[i] >= 2
  }

  ghost predicate StaysTall(hs: seq<nat>, hs': seq<nat>) {
    hs != [] && hs' != [] && hs'[0] == hs[0] && (Tall(hs) ==> Tall(hs'))
  }

  lemma TallWithout(hs: seq<nat>, k: nat)
    requires 0 < k < |hs|
    ensures StaysTall(hs, Removed(hs, k)) && StaysTall(hs, hs[..k])
  {
    forall i | 0 < i < |hs| - 1 && Tall(hs) ensures Removed(hs, k)[i] >= 2 {
      assert Removed(hs, k)[i] == hs[if i < k then i else i + 1];
    }
  }

  lemma TallMadeUp(lay: Layout, nodeSize: nat, i: nat)
    requires Matched(lay) && i < |lay.windows| && |lay.windows[i]| < nodeSize / 2
    ensures StaysTall(lay.heights, MadeUp(lay, nodeSize, i).heights)
  {
    if i + 1 < |lay.windows| {
      TallWithout(lay.heights, i + 1);
    }
    if i > 0 {
      TallWithout(lay.heights, i);
    }
  }

  lemma TallAdded(hs: seq<nat>, k: nat, h: nat, maxLevel: nat, answer: int)
    requires k < |hs| && AddedHeight(h, maxLevel, answer) && maxLevel >= 2 && (answer + 1) % 256 != 0
    ensures StaysTall(hs, Inserted(hs, k + 1, h))
  {
    AddedHeightIs(h, maxLevel, answer);
    var hs' := Inserted(hs, k + 1, h);
    forall i | 0 < i < |hs'| && Tall(hs) ensures hs'[i] >= 2 {
      assert hs'[i] == if i <= k then hs[i] else if i == k + 1 then h else hs[i - 1];
    }
  }

  lemma TallBound(sa: Skiparray, lay: Layout, i: nat, a: nat, pair: Pair, answer: int, lay': Layout)
    requires sa.BoundIn(lay, i, a, pair, answer, lay') && sa.maxLevel >= 2 && (answer + 1) % 256 != 0
    ensures StaysTall(lay.heights, lay'.heights)
  {
    if |lay.windows[i]| == sa.nodeSize {
      TallAdded(lay.heights, i, lay'.heights[i + 1], sa.maxLevel, answer);
    }
  }

  lemma TallStep(sa: Skiparray, a: State, op: Op, out: Outcome, b: State)
    requires Sound(sa, a) && Step(sa, a, op, out, b) && sa.maxLevel >= 2
    requires op.Set? ==> (op.levelResult + 1) % 256 != 0
    ensures StaysTall(a.layout.heights, b.layout.heights)
  {
    var lay := a.layout;
    if op.Set? && out.setting.Bound? {
      var pair := Pair(op.key, sa.Stored(op.value));
      var i: nat, n: nat :| Answers(lay.windows, op.key, false, i, n) && sa.BoundIn(lay, i, n, pair, op.levelResult, b.layout);
      TallBound(sa, lay, i, n, pair, op.levelResult, b.layout);
    } else if op.Forget? && out.forgetting.Forgotten? {
      var i: nat, n: nat :| Answers(lay.windows, op.key, true, i, n) && Matched(lay) && b.layout == TakenOut(lay, sa.nodeSize, i, n);
      var less := lay.(windows := lay.windows[i := Removed(lay.windows[i], n)]);
      if |less.windows[i]| < sa.nodeSize / 2 {
        TallMadeUp(less, sa.nodeSize, i);
      }
    } else if op.PopFirst? && out.popping.Popped? {
      TallFirst(sa, lay, b.layout, out.popping);
    } else if op.PopLast? && out.popping.Popped? && |lay.windows| > 1 {
      TallWithout(lay.heights, |lay.windows| - 1);
    }
  }

  lemma TallFirst(sa: Skiparray, lay: Layout, lay': Layout, res: PopResult)
    requires res.Popped? && sa.FirstLays(lay, res, lay')
    ensures StaysTall(lay.heights, lay'.heights)
  {
    var less := lay.(windows := lay.windows[0 := Removed(lay.windows[0], 0)]);
    if |less.windows[0]| < sa.nodeSize / 2 {
      TallMadeUp(less, sa.nodeSize, 0);
    }
  }

  /** Where the level callback never wraps to zero, every node behind the first one is on two
      levels at least in every state of a run, and the first one is as tall as it always was. */
  lemma {:induction false} TallThroughout(sa: Skiparray, ops: seq<Op>, outs: seq<Outcome>, states: seq<State>, k: nat)
    requires Trace(sa, ops, outs, states) && k <= |ops| && sa.maxLevel >= 2
    requires forall j :: 0 <= j < |ops| && ops[j].Set? ==> (ops[j].levelResult + 1) % 256 != 0
    ensures StaysTall(states[0].layout.heights, states[k].layout.heights)
  {
    assert Sound(sa, states[0]);
    if k > 0 {
      TallThroughout(sa, ops, outs, states, k - 1);
      assert Sound(sa, states[k - 1]) && Step(sa, states[k - 1], ops[k - 1], outs[k - 1], states[k]);
      TallStep(sa, states[k - 1], ops[k - 1], outs[k - 1], states[k]);
    }
  }

  // ----- What iterators read, on the map -----

  /** p has the smallest of the keys that are at least this. */
  ghost predicate SmallestFrom(m: map<int, Pair>, rank: int, p: Pair) {
    p.key.rank in m && m[p.key.rank] == p && rank <= p.key.rank && forall r :: r in m && rank <= r ==> p.key.rank <= r
  }

  /** p has the largest of the keys that are at most this. */
  ghost predicate LargestUpTo(m: map<int, Pair>, rank: int, p: Pair) {
    p.key.rank in m && m[p.key.rank] == p && p.key.rank <= rank && forall r :: r in m && r <= rank ==> r <= p.key.rank
  }

  lemma FirstFrom(s: seq<Pair>, m: map<int, Pair>, rank: int, c: nat)
    requires Lists(s, m) && c <= |s|
    requires (c > 0 ==> s[c - 1].key.rank < rank) && (c < |s| ==> rank <= s[c].key.rank)
    ensures c < |s| ==> SmallestFrom(m, rank, s[c])
    ensures c == |s| <==> forall r :: r in m ==> r < rank
  {
    forall r | r in m && rank <= r ensures c < |s| && s[c].key.rank <= r {
      assert HasRank(s, r);
    }
    assert c < |s| ==> s[c].key.rank in m;
  }

  lemma LastUpTo(s: seq<Pair>, m: map<int, Pair>, rank: int, c: nat)
    requires Lists(s, m) && c <= |s|
    requires (c > 0 ==> s[c - 1].key.rank <= rank) && (c < |s| ==> rank < s[c].key.rank)
    ensures c > 0 ==> LargestUpTo(m, rank, s[c - 1])
    ensures c == 0 <==> forall r :: r in m ==> rank < r
  {
    forall r | r in m && r <= rank ensures c > 0 && r <= s[c - 1].key.rank {
      assert HasRank(s, r);
    }
    assert c > 0 ==> s[c - 1].key.rank in m;
  }

  /** What one operation on iterator i does to where it is. */
  lemma MovesOne(sa: Skiparray, ops: seq<Op>, outs: seq<Outcome>, states: seq<State>, k: nat)
    requires Trace(sa, ops, outs, states) && InRange(states[0]) && k < |ops|
    requires var op := ops[k]; op.Read? || op.Next? || op.Prev? || op.ToFirst? || op.ToLast? || op.Seek?
    requires ops[k].i < |states[k].cursors|
    ensures InRange(states[k]) && states[k].pairs != [] && states[k + 1].pairs == states[k].pairs
    ensures ops[k].i < |states[k + 1].cursors|
    ensures MoveStep(states[k].pairs, states[k].cursors[ops[k].i], ops[k], outs[k], states[k + 1].cursors[ops[k].i])
  {
    Pinned(sa, ops, outs, states, 0, k);
    assert Step(sa, states[k], ops[k], outs[k], states[k + 1]);
  }

  /** Seek finds a key exactly when it is there, and fails exactly when it is below the smallest
      or above the largest. Else a read right after it gives the smallest pair not below it. */
  lemma SeekThenRead(sa: Skiparray, ops: seq<Op>, outs: seq<Outcome>, states: seq<State>, k: nat, m: map<int, Pair>)
    requires Trace(sa, ops, outs, states) && InRange(states[0]) && k + 1 < |ops| && Lists(states[k].pairs, m)
    requires ops[k].Seek? && ops[k].i < |states[k].cursors| && ops[k + 1] == Read(ops[k].i)
    ensures var rank := ops[k].key.rank;
            && outs[k].Sought?
            && (outs[k].seek == SeekFound <==> rank in m)
            && (outs[k].seek == SeekBeforeFirst <==> forall r :: r in m ==> rank < r)
            && (outs[k].seek == SeekAfterLast <==> forall r :: r in m ==> r < rank)
            && (outs[k].seek == SeekFound || outs[k].seek == SeekNotFound ==>
                  outs[k + 1].Found? && outs[k + 1].pair.Some? && SmallestFrom(m, rank, outs[k + 1].pair.value))
  {
    MovesOne(sa, ops, outs, states, k);
    MovesOne(sa, ops, outs, states, k + 1);
    var s, key := states[k].pairs, ops[k].key;
    KeyedPair(s, m, key);
    var p := Pos(s, key);
    FirstFrom(s, m, key.rank, p);
    if !Has(s, key) {
      LastUpTo(s, m, key.rank, p);
    }
    assert s[0].key.rank in m && s[|s| - 1].key.rank in m;
  }

  /** A read right after going to an end gives the smallest or the largest pair. */
  lemma EndThenRead(sa: Skiparray, ops: seq<Op>, outs: seq<Outcome>, states: seq<State>, k: nat, m: map<int, Pair>)
    requires Trace(sa, ops, outs, states) && InRange(states[0]) && k + 1 < |ops| && Lists(states[k].pairs, m)
    requires (ops[k].ToFirst? || ops[k].ToLast?) && ops[k].i < |states[k].cursors| && ops[k + 1] == Read(ops[k].i)
    ensures outs[k + 1].Found? && outs[k + 1].pair.Some?
    ensures var p := outs[k + 1].pair.value; if ops[k].ToFirst? then Smallest(m, p) else Largest(m, p)
  {
    MovesOne(sa, ops, outs, states, k);
    MovesOne(sa, ops, outs, states, k + 1);
    EndsOfMap(states[k].pairs, m);
  }

  /** Between two reads, next leads to the smallest pair above the one read before, and says END
      exactly when that was the largest. */
  lemma ReadOn(sa: Skiparray, ops: seq<Op>, outs: seq<Outcome>, states: seq<State>, k: nat, m: map<int, Pair>)
    requires Trace(sa, ops, outs, states) && InRange(states[0]) && k + 2 < |ops| && Lists(states[k].pairs, m)
    requires ops[k].Read? && ops[k].i < |states[k].cursors| && ops[k + 1] == Next(ops[k].i) && ops[k + 2] == ops[k]
    requires outs[k].Found? && outs[k].pair.Some?
    ensures var p := outs[k].pair.value;
            && outs[k + 1] == Stepped(if Largest(m, p) then StepEnd else StepOk)
            && if Largest(m, p) then outs[k + 2] == Misuse
               else outs[k + 2].Found? && outs[k + 2].pair.Some? && SmallestFrom(m, p.key.rank + 1, outs[k + 2].pair.value)
  {
    MovesOne(sa, ops, outs, states, k);
    MovesOne(sa, ops, outs, states, k + 1);
    MovesOne(sa, ops, outs, states, k + 2);
    var s, c := states[k].pairs, states[k].cursors[ops[k].i];
    EndsOfMap(s, m);
    if c + 1 < |s| {
      FirstFrom(s, m, s[c].key.rank + 1, c + 1);
      assert s[c + 1].key.rank in m;
    }
  }

  /** And prev to the largest one below it. */
  lemma ReadBack(sa: Skiparray, ops: seq<Op>, outs: seq<Outcome>, states: seq<State>, k: nat, m: map<int, Pair>)
    requires Trace(sa, ops, outs, states) && InRange(states[0]) && k + 2 < |ops| && Lists(states[k].pairs, m)
    requires ops[k].Read? && ops[k].i < |states[k].cursors| && ops[k + 1] == Prev(ops[k].i) && ops[k + 2] == ops[k]
    requires outs[k].Found? && outs[k].pair.Some?
    ensures var p := outs[k].pair.value;
            && outs[k + 1] == Stepped(if Smallest(m, p) then StepEnd else StepOk)
            && outs[k + 2].Found? && outs[k + 2].pair.Some?
            && if Smallest(m, p) then outs[k + 2] == outs[k] else LargestUpTo(m, p.key.rank - 1, outs[k + 2].pair.value)
  {
    MovesOne(sa, ops, outs, states, k);
    MovesOne(sa, ops, outs, states, k + 1);
    MovesOne(sa, ops, outs, states, k + 2);
    var s, c := states[k].pairs, states[k].cursors[ops[k].i];
    EndsOfMap(s, m);
    if c > 0 {
      LastUpTo(s, m, s[c].key.rank - 1, c);
      assert s[c - 1].key.rank in m;
    }
  }
}
