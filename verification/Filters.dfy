/** Filtering a skiparray into a new one: a fold whose callback appends to a builder. */
module Filters {
  import opened Pairs
  import opened Windows
  import opened Layouts
  import opened Skiparrays
  import opened Builders
  import opened Queues
  import opened Merges
  import opened Folds

  /** The pairs the predicate keeps, in order. */
  ghost function Kept(s: seq<Pair>, keep: (Key, Value) -> bool): seq<Pair> {
    if s == [] then [] else
      var p := s[|s| - 1];
      Kept(s[..|s| - 1], keep) + if keep(p.key, p.value) then [p] else []
  }

  /** It keeps exactly the pairs it should. */
  lemma {:induction false} KeptExactly(s: seq<Pair>, keep: (Key, Value) -> bool, p: Pair)
    ensures p in Kept(s, keep) <==> p in s && keep(p.key, p.value)
  {
    if s != [] {
      KeptExactly(s[..|s| - 1], keep, p);
      assert s == s[..|s| - 1] + [s[|s| - 1]];
    }
  }

  lemma {:induction false} NullThroughout(ws: seq<seq<Pair>>)
    requires forall i, a :: 0 <= i < |ws| && 0 <= a < |ws[i]| ==> ws[i][a].value == Null
    ensures forall k :: 0 <= k < |Flatten(ws)| ==> Flatten(ws)[k].value == Null
  {
    if ws != [] {
      NullThroughout(ws[1..]);
    }
  }

  /** A skiparray's pairs are as it would store them. */
  lemma StoredAlready(sa: Skiparray, k: nat)
    requires sa.Valid() && k < |sa.Contents()|
    ensures sa.Stored(sa.Contents()[k].value) == sa.Contents()[k].value
  {
    if !sa.useValues {
      forall i, a | 0 <= i < |sa.wins| && 0 <= a < |sa.wins[i]| ensures sa.wins[i][a].value == Null {
        sa.NodeAt(i);
        assert sa.Suits(sa.chain[i]);
        assert sa.wins[i][a] == sa.chain[i].PairAt(a);
      }
      NullThroughout(sa.wins);
    }
  }

  /** The builder would store these pairs as they are. */
  ghost predicate AllStored(b: Builder, s: seq<Pair>) {
    forall k {:trigger s[k]} :: 0 <= k < |s| ==> b.sa.Stored(s[k].value) == s[k].value
  }

  /** What the builder holds once the first n pairs have been passed on. */
  ghost predicate Filtering(t: seq<Pair>, s: seq<Pair>, n: nat, keep: (Key, Value) -> bool, ok: bool) {
    && n <= |s| && (forall p :: p in t ==> p in s[..n]) && (ok ==> t == Kept(s[..n], keep))
  }

  lemma FilteringMore(t: seq<Pair>, s: seq<Pair>, n: nat, keep: (Key, Value) -> bool, ok: bool)
    requires Filtering(t, s, n, keep, ok) && n < |s|
    ensures Filtering(t + [s[n]], s, n + 1, keep, ok && keep(s[n].key, s[n].value))
    ensures Filtering(t, s, n + 1, keep, ok && !keep(s[n].key, s[n].value))
  {
    assert s[..n + 1] == s[..n] + [s[n]];
    assert s[..n + 1][..n] == s[..n];
  }

  /** Where nodes hold this many pairs, pair n passes and is the first of a node behind the first
      one, and that node is not granted. */
  ghost predicate Starves(s: seq<Pair>, n: nat, keep: (Key, Value) -> bool, nodeSize: nat, allocOk: bool)
    requires 0 < nodeSize
  {
    && n < |s| && keep(s[n].key, s[n].value) && !allocOk
    && var k := |Kept(s[..n], keep)|; k > 0 && k % nodeSize == 0
  }

  /** None of the first n pairs does. */
  ghost predicate Nourished(s: seq<Pair>, n: nat, keep: (Key, Value) -> bool, nodeSize: nat, allocOk: nat -> bool)
    requires 0 < nodeSize
  {
    forall k: nat :: k < n ==> !Starves(s, k, keep, nodeSize, allocOk(k))
  }

  /** Pair n passes, and k before it do. */
  ghost predicate Passes(s: seq<Pair>, n: nat, keep: (Key, Value) -> bool, k: nat) {
    n < |s| && keep(s[n].key, s[n].value) && |Kept(s[..n], keep)| == k
  }

  /** Passing on pair n adds a node exactly where it passes and the nodes there are are full. */
  ghost predicate Opens(hs: seq<nat>, s: seq<Pair>, n: nat, keep: (Key, Value) -> bool, nodeSize: nat, maxLevel: nat,
                        answer: int, hs': seq<nat>) {
    hs != [] && Extended(hs, Passes(s, n, keep, |hs| * nodeSize), maxLevel, answer, hs')
  }

  /** A node of this height is one for the level callback's answer at that of the first n
      pairs which passes with k before it. */
  ghost predicate Answered(h: nat, s: seq<Pair>, n: nat, keep: (Key, Value) -> bool, k: nat, maxLevel: nat, levels: nat -> int) {
    exists j: nat {:trigger levels(j)} :: j < n && Passes(s, j, keep, k) && AddedHeight(h, maxLevel, levels(j))
  }

  /** With n pairs passed on, each node is as tall as the level callback has it when its first
      pair comes. */
  ghost predicate FilledHeights(hs: seq<nat>, s: seq<Pair>, n: nat, keep: (Key, Value) -> bool, nodeSize: nat, maxLevel: nat,
                                root: int, levels: nat -> int) {
    && hs != [] && RootHeight(hs[0], maxLevel, root)
    && forall i {:trigger hs[i]} :: 0 < i < |hs| ==> Answered(hs[i], s, n, keep, i * nodeSize, maxLevel, levels)
  }

  lemma FilledMore(hs: seq<nat>, s: seq<Pair>, n: nat, keep: (Key, Value) -> bool, nodeSize: nat, maxLevel: nat,
                   root: int, levels: nat -> int, hs': seq<nat>)
    requires FilledHeights(hs, s, n, keep, nodeSize, maxLevel, root, levels)
    requires Opens(hs, s, n, keep, nodeSize, maxLevel, levels(n), hs')
    ensures FilledHeights(hs', s, n + 1, keep, nodeSize, maxLevel, root, levels)
  {
    forall i | 0 < i < |hs'| ensures Answered(hs'[i], s, n + 1, keep, i * nodeSize, maxLevel, levels) {
      if i < |hs| {
        assert hs'[i] == hs[i];
        var j: nat :| j < n && Passes(s, j, keep, i * nodeSize) && AddedHeight(hs[i], maxLevel, levels(j));
        assert Answered(hs[i], s, n + 1, keep, i * nodeSize, maxLevel, levels);
      } else {
        assert Passes(s, n, keep, i * nodeSize) && AddedHeight(hs'[i], maxLevel, levels(n));
      }
    }
  }

  /** The nodes of a skiparray filtered from these pairs. */
  ghost predicate HeightsOf(res: Skiparray, s: seq<Pair>, keep: (Key, Value) -> bool, root: int, levels: nat -> int)
    reads res`chain
  {
    FilledHeights(Heights(res.chain), s, |s|, keep, res.nodeSize, res.maxLevel, root, levels)
  }

  /** Nothing of the builder is read by the fold, nor the other way round. */
  ghost predicate Aside(f: Fold, b: Builder)
    reads f, b, b.sa
  {
    && b.sa.Repr !! f.nodes && b.sa !in f.sas && b !in f.nodes && b.sa !in f.nodes
    && f !in b.sa.Repr && f.current !in b.sa.Repr
    && (forall s :: s in f.sas ==> s !in b.sa.Repr) && (forall o :: o in f.handles ==> o !in b.sa.Repr)
  }

  /** A builder's last node is full exactly when it holds as many pairs as fit. */
  lemma FullHolds(b: Builder)
    requires b.Valid()
    ensures 0 < b.sa.nodeSize && |b.sa.chain| > 0
    ensures b.Full() <==> 0 < |b.sa.Contents()| && |b.sa.Contents()| % b.sa.nodeSize == 0
    ensures b.Full() <==> |b.sa.Contents()| == |b.sa.chain| * b.sa.nodeSize
  {
    PackedFull(b.sa.wins, b.sa.nodeSize);
    PackedBelow(b.sa.wins, b.sa.nodeSize);
  }

  /** filter_append */
  method FilterAppend(b: Builder, keep: (Key, Value) -> bool, key: Key, value: Value, wasOk: bool, levelResult: int,
                      allocOk: bool, ghost s: seq<Pair>, ghost n: nat) returns (ok: bool)
    requires b.Valid() && !b.checkAscending && Ascending(s) && n < |s| && s[n] == Pair(key, value)
    requires b.sa.Stored(value) == value && Filtering(b.sa.Contents(), s, n, keep, wasOk)
    modifies b, b.sa`nodes, b.sa`height, b.sa`chain, b.sa`wins, b.sa`Repr, b.sa.Repr
    ensures b.Valid() && fresh(b.sa.Repr - old(b.sa.Repr))
    ensures Filtering(b.sa.Contents(), s, n + 1, keep, ok)
    ensures 0 < b.sa.nodeSize && (ok <==> wasOk && !Starves(s, n, keep, b.sa.nodeSize, allocOk))
    ensures ok ==> Opens(old(Heights(b.sa.chain)), s, n, keep, b.sa.nodeSize, b.sa.maxLevel, levelResult, Heights(b.sa.chain))
  {
    ghost var t := b.sa.Contents();
    FullHolds(b);
    FilteringMore(t, s, n, keep, wasOk);
    if t != [] {
      assert t[|t| - 1] in s[..n];
    }
    ok := wasOk;
    if keep(key, value) {
      var res := b.Append(key, value, levelResult, allocOk);
      if res != AppendOk {
        ok := false;
      }
    }
  }

  /** A fold to the left over one skiparray passes on its next pair. */
  lemma PassesOn(f: Fold, s: seq<Pair>, spent: seq<nat>, call: Call, spent': seq<nat>)
    requires |f.input| == 1 && f.input[0] == s && StepMeets(f.input, f.merge, spent, call, spent')
    ensures spent[0] < |s| && Pair(call.key, call.value) == s[spent[0]] && spent'[0] == spent[0] + 1
  {
    var id := StepPlain(f.input, f.merge, spent, call, spent');
    assert spent'[0] == spent[0] + if 0 in call.ids then 1 else 0;
  }

  ghost predicate Reached(spent: seq<nat>, n: nat) {
    |spent| == 1 && spent[0] == n
  }

  /** Between two steps: where `n` pairs have been through the filter, `call` holds the next. */
  ghost predicate Filling(f: Fold, b: Builder, keep: (Key, Value) -> bool, spent: seq<nat>, call: Option<Call>, ok: bool)
    reads f, f.current, f.sas, f.nodes, f.handles, b, b.sa, b.sa.Repr
  {
    |spent| == 1 && forall n {:trigger Reached(spent, n)} :: Reached(spent, n) ==> FilledTo(f, b, keep, spent, n, call, ok)
  }

  ghost predicate FilledTo(f: Fold, b: Builder, keep: (Key, Value) -> bool, spent: seq<nat>, n: nat, call: Option<Call>, ok: bool)
    reads f, f.current, f.sas, f.nodes, f.handles, b, b.sa, b.sa.Repr
  {
    && b.Valid() && Aside(f, b) && !b.checkAscending
    && |f.input| == 1 && Ascending(f.input[0]) && Within(f.input, spent)
    && Filtering(b.sa.Contents(), f.input[0], n, keep, ok)
    && (call.None? ==> f.SourcesOk() && f.Released() && n == |f.input[0]|)
    && (call.Some? ==> f.Valid() && StepMeets(f.input, f.merge, spent, call.value, Spent(f.iters, f.taken)))
  }

  /** How many pairs have not been through the filter yet. */
  ghost function Left(f: Fold, spent: seq<nat>): nat {
    if |f.input| == 1 && Within(f.input, spent) then |f.input[0]| - spent[0] else 0
  }

  /** The fold goes on while the builder fills. */
  method FilterStep(f: Fold, b: Builder, keep: (Key, Value) -> bool, call: Option<Call>, wasOk: bool, levelResult: int, allocOk: bool,
                    ghost spent: seq<nat>) returns (ok: bool, next: Option<Call>, ghost now: seq<nat>)
    requires call.Some? && Filling(f, b, keep, spent, call, wasOk) && |f.input| == 1 && AllStored(b, f.input[0])
    modifies b, b.sa`nodes, b.sa`height, b.sa`chain, b.sa`wins, b.sa`Repr, b.sa.Repr
    modifies f`iters, f`offset, f`available, f`iterLive, f`taken, f`log, f.current, f.sas`iter, f.sas`iters
    modifies (f.handles - f.others)`n, (f.handles - f.others)`index, (f.handles - f.others)`at
    modifies f.handles`prev, f.handles`next
    ensures fresh(b.sa.Repr - old(b.sa.Repr)) && Filling(f, b, keep, now, next, ok)
    ensures Left(f, now) < Left(f, spent) && |now| == |spent| == 1 && now[0] == spent[0] + 1
    ensures 0 < b.sa.nodeSize && (ok <==> wasOk && !Starves(f.input[0], spent[0], keep, b.sa.nodeSize, allocOk))
    ensures ok ==> Opens(old(Heights(b.sa.chain)), f.input[0], spent[0], keep, b.sa.nodeSize, b.sa.maxLevel, levelResult,
                         Heights(b.sa.chain))
  {
    assert Reached(spent, spent[0]);
    now := Spent(f.iters, f.taken);
    ok := AppendBeside(f, b, keep, call.value, wasOk, levelResult, allocOk, spent, now);
    next := NextBeside(f, b);
  }

  /** Nor does the fold's next step touch the builder. */
  method NextBeside(f: Fold, ghost b: Builder) returns (next: Option<Call>)
    requires f.Valid() && b.Valid() && Aside(f, b)
    modifies f`iters, f`offset, f`available, f`iterLive, f`taken, f`log, f.current, f.sas`iter, f.sas`iters
    modifies (f.handles - f.others)`n, (f.handles - f.others)`index, (f.handles - f.others)`at
    modifies f.handles`prev, f.handles`next
    ensures b.Valid() && Aside(f, b) && b.sa.Contents() == old(b.sa.Contents()) && b.sa.chain == old(b.sa.chain)
    ensures next.None? ==> f.SourcesOk() && f.Released()
    ensures next.None? <==> AllSpent(f.input, old(Spent(f.iters, f.taken)))
    ensures next.Some? ==> f.Valid() && StepMeets(f.input, f.merge, old(Spent(f.iters, f.taken)), next.value, Spent(f.iters, f.taken))
  {
    next := f.Next();
  }

  /** Appending leaves the fold where it is. */
  method AppendBeside(ghost f: Fold, b: Builder, keep: (Key, Value) -> bool, call: Call, wasOk: bool, levelResult: int, allocOk: bool,
                      ghost spent: seq<nat>, ghost now: seq<nat>) returns (ok: bool)
    requires |spent| == 1 && FilledTo(f, b, keep, spent, spent[0], Some(call), wasOk) && AllStored(b, f.input[0])
    requires now == Spent(f.iters, f.taken)
    modifies b, b.sa`nodes, b.sa`height, b.sa`chain, b.sa`wins, b.sa`Repr, b.sa.Repr
    ensures b.Valid() && fresh(b.sa.Repr - old(b.sa.Repr)) && Aside(f, b) && f.Valid() && Within(f.input, now)
    ensures spent[0] < |f.input[0]| && now[0] == spent[0] + 1
    ensures Filtering(b.sa.Contents(), f.input[0], now[0], keep, ok)
    ensures 0 < b.sa.nodeSize && (ok <==> wasOk && !Starves(f.input[0], spent[0], keep, b.sa.nodeSize, allocOk))
    ensures ok ==> Opens(old(Heights(b.sa.chain)), f.input[0], spent[0], keep, b.sa.nodeSize, b.sa.maxLevel, levelResult,
                         Heights(b.sa.chain))
  {
    PassesOn(f, f.input[0], spent, call, now);
    assert b.sa.Stored(f.input[0][spent[0]].value) == call.value;
    ok := FilterAppend(b, keep, call.key, call.value, wasOk, levelResult, allocOk, f.input[0], spent[0]);
  }

  method FilterLoop(f: Fold, b: Builder, keep: (Key, Value) -> bool, ghost root: int, levels: nat -> int, allocOk: nat -> bool)
    returns (ok: bool, ghost spent: seq<nat>)
    requires b.Begun(root)
    requires f.Valid() && b.Valid() && Aside(f, b) && !b.checkAscending && b.sa.Contents() == []
    requires |f.input| == 1 && Ascending(f.input[0]) && Spent(f.iters, f.taken)[0] == 0
    requires AllStored(b, f.input[0])
    modifies b, b.sa`nodes, b.sa`height, b.sa`chain, b.sa`wins, b.sa`Repr, b.sa.Repr
    modifies f`iters, f`offset, f`available, f`iterLive, f`taken, f`log, f.current, f.sas`iter, f.sas`iters
    modifies (f.handles - f.others)`n, (f.handles - f.others)`index, (f.handles - f.others)`at
    modifies f.handles`prev, f.handles`next
    ensures fresh(b.sa.Repr - old(b.sa.Repr)) && Filling(f, b, keep, spent, None, ok)
    ensures Progress(b.sa, f.input[0], keep, root, levels, allocOk, spent, ok)
  {
    spent := Spent(f.iters, f.taken);
    var n := 0;
    var call := Start(f, b, keep);
    ok := true;
    while call.Some?
      invariant fresh(b.sa.Repr - old(b.sa.Repr)) && Filling(f, b, keep, spent, call, ok)
      invariant |spent| == 1 && spent[0] == n && Progress(b.sa, f.input[0], keep, root, levels, allocOk, spent, ok)
      decreases call.Some?, Left(f, spent)
    {
      ok, call, spent := FilterNext(f, b, keep, call, ok, root, levels, allocOk, n, spent);
      n := n + 1;
    }
  }

  /** How far the filter has come: whether the memory there was has been enough so far, and how
      tall the nodes are. */
  ghost predicate Progress(sa: Skiparray, s: seq<Pair>, keep: (Key, Value) -> bool, root: int, levels: nat -> int,
                           allocOk: nat -> bool, spent: seq<nat>, ok: bool)
    reads sa`chain
  {
    |spent| == 1 && 0 < sa.nodeSize && forall n {:trigger Reached(spent, n)} :: Reached(spent, n) ==>
      && (ok <==> Nourished(s, n, keep, sa.nodeSize, allocOk))
      && (ok ==> FilledHeights(Heights(sa.chain), s, n, keep, sa.nodeSize, sa.maxLevel, root, levels))
  }

  lemma ProgressMore(sa: Skiparray, hs: seq<nat>, s: seq<Pair>, keep: (Key, Value) -> bool, root: int, levels: nat -> int,
                     allocOk: nat -> bool, n: nat, spent: seq<nat>, wasOk: bool, ok: bool)
    requires 0 < sa.nodeSize && (wasOk <==> Nourished(s, n, keep, sa.nodeSize, allocOk))
    requires wasOk ==> FilledHeights(hs, s, n, keep, sa.nodeSize, sa.maxLevel, root, levels)
    requires ok <==> wasOk && !Starves(s, n, keep, sa.nodeSize, allocOk(n))
    requires ok ==> Opens(hs, s, n, keep, sa.nodeSize, sa.maxLevel, levels(n), Heights(sa.chain))
    requires |spent| == 1 && spent[0] == n + 1
    ensures Progress(sa, s, keep, root, levels, allocOk, spent, ok)
  {
    if ok {
      FilledMore(hs, s, n, keep, sa.nodeSize, sa.maxLevel, root, levels, Heights(sa.chain));
    }
  }

  method FilterNext(f: Fold, b: Builder, keep: (Key, Value) -> bool, call: Option<Call>, wasOk: bool, ghost root: int,
                    levels: nat -> int, allocOk: nat -> bool, n: nat, ghost spent: seq<nat>)
    returns (ok: bool, next: Option<Call>, ghost now: seq<nat>)
    requires call.Some? && Filling(f, b, keep, spent, call, wasOk) && |f.input| == 1 && AllStored(b, f.input[0])
    requires Reached(spent, n) && Progress(b.sa, f.input[0], keep, root, levels, allocOk, spent, wasOk)
    modifies b, b.sa`nodes, b.sa`height, b.sa`chain, b.sa`wins, b.sa`Repr, b.sa.Repr
    modifies f`iters, f`offset, f`available, f`iterLive, f`taken, f`log, f.current, f.sas`iter, f.sas`iters
    modifies (f.handles - f.others)`n, (f.handles - f.others)`index, (f.handles - f.others)`at
    modifies f.handles`prev, f.handles`next
    ensures fresh(b.sa.Repr - old(b.sa.Repr)) && Filling(f, b, keep, now, next, ok)
    ensures Left(f, now) < Left(f, spent) && |now| == 1 && now[0] == n + 1
    ensures Progress(b.sa, f.input[0], keep, root, levels, allocOk, now, ok)
  {
    ghost var hs := Heights(b.sa.chain);
    ok, next, now := FilterStep(f, b, keep, call, wasOk, levels(n), allocOk(n), spent);
    ProgressMore(b.sa, hs, f.input[0], keep, root, levels, allocOk, n, now, wasOk, ok);
  }

  method Start(f: Fold, b: Builder, ghost keep: (Key, Value) -> bool) returns (call: Option<Call>)
    requires f.Valid() && b.Valid() && Aside(f, b) && !b.checkAscending && b.sa.Contents() == []
    requires |f.input| == 1 && Ascending(f.input[0]) && Spent(f.iters, f.taken)[0] == 0
    modifies f`iters, f`offset, f`available, f`iterLive, f`taken, f`log, f.current, f.sas`iter, f.sas`iters
    modifies (f.handles - f.others)`n, (f.handles - f.others)`index, (f.handles - f.others)`at
    modifies f.handles`prev, f.handles`next
    ensures Filling(f, b, keep, old(Spent(f.iters, f.taken)), call, true) && b.sa.chain == old(b.sa.chain)
  {
    call := NextBeside(f, b);
  }

  /** skiparray_fold_init */
  method InitOne(sa: Skiparray, foldOk: bool, iterOk: bool) returns (f: Fold?)
    requires sa.Valid() && sa.Iterating()
    modifies sa`iter, sa`iters, sa.iters`prev, sa.iters`next
    ensures f != null <==> foldOk && (iterOk || sa.Contents() == [])
    ensures f == null ==> sa.Valid() && sa.Iterating() && LiveIters([sa]) == old(LiveIters([sa]))
    ensures f != null ==> fresh(f) && f.Valid() && fresh(f.current) && fresh(f.handles - f.others)
    ensures f != null ==> f.sas == [sa] && |f.input| == 1 && f.input[0] == sa.Contents() && Spent(f.iters, f.taken)[0] == 0
    ensures f != null ==> f.nodes == sa.Repr && f.others == old(LiveIters([sa]))
  {
    OneLive(sa);
    assert AllGranted([sa], [iterOk]) <==> Granted([sa][0], [iterOk][0]);
    f := Init(true, [sa], NoMerge, foldOk, [iterOk]);
    if f == null {
      OneOk(sa, sa.Repr, LiveIters([sa]));
    } else {
      OneFace(f, sa);
    }
  }

  lemma OneFace(f: Fold, sa: Skiparray)
    requires f.Valid() && f.left && f.sas == [sa]
    ensures |f.input| == 1 && f.input[0] == sa.Contents()
  {
    assert InOrder(true, [sa][0].Contents(), f.input[0]);
  }

  /** skiparray_filter: a new skiparray of the pairs that pass, in order, unless memory runs
      out; the one filtered keeps its pairs and its iterators. */
  method Filter(sa: Skiparray, keep: (Key, Value) -> bool, rootLevel: int, levels: nat -> int, builderOk: bool,
                foldOk: bool, iterOk: bool, allocOk: nat -> bool) returns (res: Skiparray?)
    requires sa.Valid() && sa.Iterating() && (rootLevel + 1) % 256 != 0
    modifies sa`iter, sa`iters, sa.iters`prev, sa.iters`next
    ensures sa.Valid() && sa.Iterating() && sa.Contents() == old(sa.Contents())
    ensures forall o :: o in sa.iters <==> o in old(sa.iters)
    ensures res != null ==> fresh(res) && (forall o {:trigger o in res.Repr} :: o in res.Repr ==> fresh(o))
    ensures res != null ==> res.Valid() && res.Iterating() && res.iters == [] && Packed(res.wins, res.nodeSize)
    ensures res != null ==> res.Contents() == Kept(sa.Contents(), keep)
    ensures res != null ==> HeightsOf(res, sa.Contents(), keep, rootLevel, levels)
    ensures res != null ==> res.nodeSize == sa.nodeSize && res.maxLevel == sa.maxLevel && res.useValues == sa.useValues
    ensures res != null <==> builderOk && foldOk && (iterOk || sa.Contents() == [])
                             && Nourished(sa.Contents(), |sa.Contents()|, keep, sa.nodeSize, allocOk)
  {
    OneLive(sa);
    if !builderOk {
      return null;
    }
    res := FilterNew(sa, keep, rootLevel, levels, foldOk, iterOk, allocOk);
    OneLive(sa);
  }

  method FilterNew(sa: Skiparray, keep: (Key, Value) -> bool, rootLevel: int, levels: nat -> int, foldOk: bool,
                   iterOk: bool, allocOk: nat -> bool) returns (res: Skiparray?)
    requires sa.Valid() && sa.Iterating() && (rootLevel + 1) % 256 != 0
    modifies sa`iter, sa`iters, sa.iters`prev, sa.iters`next
    ensures sa.Valid() && sa.Iterating() && LiveIters([sa]) == old(LiveIters([sa]))
    ensures res != null ==> fresh(res) && (forall o {:trigger o in res.Repr} :: o in res.Repr ==> fresh(o))
    ensures res != null ==> res.Valid() && res.Iterating() && res.iters == [] && Packed(res.wins, res.nodeSize)
    ensures res != null ==> res.Contents() == Kept(sa.Contents(), keep)
    ensures res != null ==> HeightsOf(res, sa.Contents(), keep, rootLevel, levels)
    ensures res != null ==> res.nodeSize == sa.nodeSize && res.maxLevel == sa.maxLevel && res.useValues == sa.useValues
    ensures res != null <==> foldOk && (iterOk || sa.Contents() == [])
                             && Nourished(sa.Contents(), |sa.Contents()|, keep, sa.nodeSize, allocOk)
  {
    var b := NewBeside(sa, rootLevel);
    res := FilterBy(sa, b, keep, rootLevel, levels, foldOk, iterOk, allocOk);
  }

  ghost predicate Beside(sa: Skiparray, b: Builder)
    reads sa, b, b.sa, b.sa.Repr
  {
    && b.Valid() && !b.checkAscending && b.sa.Contents() == [] && b.sa.useValues == sa.useValues
    && b.sa.nodeSize == sa.nodeSize
    && b.sa != sa && b !in sa.Repr && b.sa !in sa.Repr && b.sa.Repr !! sa.Repr && sa !in b.sa.Repr
    && (forall o :: o in sa.iters ==> o !in b.sa.Repr)
  }

  method NewBeside(sa: Skiparray, rootLevel: int) returns (b: Builder)
    requires sa.Valid() && sa.Iterating() && (rootLevel + 1) % 256 != 0
    ensures fresh(b) && fresh(b.sa) && fresh(b.sa.Repr) && Beside(sa, b)
    ensures b.sa.nodeSize == sa.nodeSize && b.sa.maxLevel == sa.maxLevel && b.Begun(rootLevel)
  {
    b := new Builder(sa.nodeSize, sa.maxLevel, sa.useValues, rootLevel, true);
  }

  method InitBeside(sa: Skiparray, ghost b: Builder, foldOk: bool, iterOk: bool) returns (f: Fold?)
    requires sa.Valid() && sa.Iterating() && Beside(sa, b)
    modifies sa`iter, sa`iters, sa.iters`prev, sa.iters`next
    ensures f != null <==> foldOk && (iterOk || sa.Contents() == [])
    ensures f == null ==> sa.Valid() && sa.Iterating() && LiveIters([sa]) == old(LiveIters([sa]))
    ensures f == null ==> b.Valid()
    ensures f != null ==> fresh(f) && f.Valid() && fresh(f.current) && fresh(f.handles - f.others)
    ensures f != null ==> f.sas == [sa] && |f.input| == 1 && f.input[0] == sa.Contents() && Spent(f.iters, f.taken)[0] == 0
    ensures f != null ==> f.others == old(LiveIters([sa]))
    ensures f != null ==> b.Valid() && Aside(f, b) && b.sa.Contents() == [] && b.sa.chain == old(b.sa.chain)
  {
    OneLive(sa);
    f := InitOne(sa, foldOk, iterOk);
  }

  method FilterFrom(sa: Skiparray, b: Builder, keep: (Key, Value) -> bool, ghost root: int, levels: nat -> int, foldOk: bool, iterOk: bool,
                    allocOk: nat -> bool) returns (ok: bool)
    requires sa.Valid() && sa.Iterating() && Beside(sa, b) && b.Begun(root)
    modifies b, b.sa`nodes, b.sa`height, b.sa`chain, b.sa`wins, b.sa`Repr, b.sa.Repr
    modifies sa`iter, sa`iters, sa.iters`prev, sa.iters`next
    ensures b.Valid()
    ensures forall o {:trigger o in b.sa.Repr} :: o in b.sa.Repr ==> o in old(b.sa.Repr) || fresh(o)
    ensures sa.Valid() && sa.Iterating() && LiveIters([sa]) == old(LiveIters([sa]))
    ensures ok ==> b.sa.Contents() == Kept(sa.Contents(), keep)
    ensures ok ==> HeightsOf(b.sa, sa.Contents(), keep, root, levels)
    ensures ok <==> foldOk && (iterOk || sa.Contents() == [])
                    && Nourished(sa.Contents(), |sa.Contents()|, keep, sa.nodeSize, allocOk)
  {
    var f := InitBeside(sa, b, foldOk, iterOk);
    if f == null {
      return false;
    }
    ok := FilterInto(sa, f, b, keep, root, levels, allocOk);
  }

  method FilterBy(sa: Skiparray, b: Builder, keep: (Key, Value) -> bool, ghost root: int, levels: nat -> int, foldOk: bool, iterOk: bool,
                  allocOk: nat -> bool) returns (res: Skiparray?)
    requires sa.Valid() && sa.Iterating() && Beside(sa, b) && b.Begun(root)
    modifies b, b.sa`nodes, b.sa`height, b.sa`chain, b.sa`wins, b.sa`Repr, b.sa.Repr
    modifies sa`iter, sa`iters, sa.iters`prev, sa.iters`next
    ensures sa.Valid() && sa.Iterating() && LiveIters([sa]) == old(LiveIters([sa]))
    ensures forall o {:trigger o in b.sa.Repr} :: o in b.sa.Repr ==> o in old(b.sa.Repr) || fresh(o)
    ensures res != null ==> res == b.sa && res.Valid() && res.Iterating() && res.iters == [] && Packed(res.wins, res.nodeSize)
    ensures res != null ==> res.Contents() == Kept(sa.Contents(), keep)
    ensures res != null ==> HeightsOf(res, sa.Contents(), keep, root, levels)
    ensures res != null <==> foldOk && (iterOk || sa.Contents() == [])
                             && Nourished(sa.Contents(), |sa.Contents()|, keep, sa.nodeSize, allocOk)
  {
    var ok := FilterFrom(sa, b, keep, root, levels, foldOk, iterOk, allocOk);
    if !ok {
      return null;
    }
    res := b.Finish();
  }

  method FilterInto(sa: Skiparray, f: Fold, b: Builder, keep: (Key, Value) -> bool, ghost root: int, levels: nat -> int,
                    allocOk: nat -> bool) returns (ok: bool)
    requires b.Begun(root)
    requires f.Valid() && b.Valid() && Aside(f, b) && !b.checkAscending && b.sa.Contents() == []
    requires f.sas == [sa] && |f.input| == 1 && f.input[0] == sa.Contents() && Spent(f.iters, f.taken)[0] == 0
    requires b.sa.useValues == sa.useValues && b.sa.nodeSize == sa.nodeSize
    modifies b, b.sa`nodes, b.sa`height, b.sa`chain, b.sa`wins, b.sa`Repr, b.sa.Repr
    modifies f`iters, f`offset, f`available, f`iterLive, f`taken, f`log, f.current, sa`iter, sa`iters
    modifies (f.handles - f.others)`n, (f.handles - f.others)`index, (f.handles - f.others)`at
    modifies f.handles`prev, f.handles`next
    ensures b.Valid()
    ensures forall o {:trigger o in b.sa.Repr} :: o in b.sa.Repr ==> o in old(b.sa.Repr) || fresh(o)
    ensures sa.Valid() && sa.Iterating() && LiveIters([sa]) == f.others
    ensures ok ==> b.sa.Contents() == Kept(sa.Contents(), keep)
    ensures ok ==> HeightsOf(b.sa, sa.Contents(), keep, root, levels)
    ensures ok <==> Nourished(sa.Contents(), |sa.Contents()|, keep, sa.nodeSize, allocOk)
  {
    assert SourceOk(f.sas[0], f.nodes, f.handles);
    forall k: nat | k < |sa.Contents()| ensures b.sa.Stored(sa.Contents()[k].value) == sa.Contents()[k].value {
      StoredAlready(sa, k);
    }
    ghost var spent;
    ok, spent := FilterLoop(f, b, keep, root, levels, allocOk);
    assert Reached(spent, spent[0]);
    assert f.input[0][..spent[0]] == f.input[0];
    assert HeightsOf(b.sa, f.input[0], keep, root, levels) <==>
           FilledHeights(Heights(b.sa.chain), f.input[0], |f.input[0]|, keep, b.sa.nodeSize, b.sa.maxLevel, root, levels);
    OnlyOthers(f);
    OneLive(sa);
    assert SourceOk(f.sas[0], f.nodes, f.others);
  }
}
