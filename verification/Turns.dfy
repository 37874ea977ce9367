/** Whose turn it is among equal keys. The inputs settle the whole run, and with it the order in
    which the merge callback gets its arguments, which need not be that of the skiparrays. */
module Turns {
  import opened Pairs
  import opened Chains
  import opened Queues
  import opened Merges

  // ----- A run is settled by its inputs -----

  lemma NextInTurn(input: Inputs, merge: (seq<Key>, seq<Value>) -> (nat, Value), log: seq<Call>, spent: seq<nat>,
                   c: Call, spentC: seq<nat>, d: Call, spentD: seq<nat>, n: nat)
    requires Steps(input, merge, log, spent, c, spentC) && Steps(input, merge, log, spent, d, spentD)
    requires c.key.rank == d.key.rank && n < |c.ids| == |d.ids| && c.ids[..n] == d.ids[..n]
    ensures c.ids[n] == d.ids[n] || ReadAfter(log, c.ids[n], d.ids[n])
  {
    var y := d.ids[n];
    assert d.pairs[n].key.rank == d.key.rank;
    assert y in Heads(input, spent, c.key.rank);
    if y in c.ids {
      var b :| 0 <= b < |c.ids| && c.ids[b] == y;
      assert forall a :: 0 <= a < n ==> c.ids[..n][a] == c.ids[a] && d.ids[..n][a] == d.ids[a] != y;
    }
  }

  lemma {:induction false} SameIds(input: Inputs, merge: (seq<Key>, seq<Value>) -> (nat, Value), log: seq<Call>, spent: seq<nat>,
                                   c: Call, spentC: seq<nat>, d: Call, spentD: seq<nat>, n: nat)
    requires Steps(input, merge, log, spent, c, spentC) && Steps(input, merge, log, spent, d, spentD)
    requires c.key.rank == d.key.rank && n <= |c.ids| == |d.ids|
    ensures c.ids[..n] == d.ids[..n]
  {
    if n > 0 {
      SameIds(input, merge, log, spent, c, spentC, d, spentD, n - 1);
      NextInTurn(input, merge, log, spent, c, spentC, d, spentD, n - 1);
      NextInTurn(input, merge, log, spent, d, spentD, c, spentC, n - 1);
      assert c.ids[..n] == c.ids[..n - 1] + [c.ids[n - 1]];
      assert d.ids[..n] == d.ids[..n - 1] + [d.ids[n - 1]];
    }
  }

  /** There is only one step to take: whose pairs, in which order, and what is passed on. */
  lemma StepDetermined(input: Inputs, merge: (seq<Key>, seq<Value>) -> (nat, Value), log: seq<Call>, spent: seq<nat>,
                       c: Call, spentC: seq<nat>, d: Call, spentD: seq<nat>)
    requires Steps(input, merge, log, spent, c, spentC) && Steps(input, merge, log, spent, d, spentD)
    ensures c == d && spentC == spentD
  {
    var x, y := c.ids[0], d.ids[0];
    assert c.pairs[0] == input[x][spent[x]] && d.pairs[0] == input[y][spent[y]];
    assert c.key.rank == d.key.rank;
    SameIds(input, merge, log, spent, c, spentC, d, spentD, |c.ids|);
    assert c.ids == c.ids[..|c.ids|] == d.ids[..|d.ids|] == d.ids;
    assert c.pairs == d.pairs by {
      forall a | 0 <= a < |c.pairs| ensures c.pairs[a] == d.pairs[a] {
        assert c.ids[a] == d.ids[a];
      }
    }
    assert spentC == spentD by {
      forall i | 0 <= i < |input| ensures spentC[i] == spentD[i] {
        assert spentC[i] == spent[i] + if i in c.ids then 1 else 0;
      }
    }
  }

  lemma {:induction false} SameSoFar(input: Inputs, merge: (seq<Key>, seq<Value>) -> (nat, Value),
                                     log: seq<Call>, spents: seq<seq<nat>>, log': seq<Call>, spents': seq<seq<nat>>, n: nat)
    requires Run(input, merge, log, spents) && Run(input, merge, log', spents') && n <= |log| && n <= |log'|
    ensures log[..n] == log'[..n] && spents[n] == spents'[n]
  {
    if n > 0 {
      SameSoFar(input, merge, log, spents, log', spents', n - 1);
      assert StepAt(input, merge, log, spents, n - 1) && StepAt(input, merge, log', spents', n - 1);
      StepDetermined(input, merge, log[..n - 1], spents[n - 1], log[n - 1], spents[n], log'[n - 1], spents'[n]);
      assert log[..n] == log[..n - 1] + [log[n - 1]] && log'[..n] == log'[..n - 1] + [log'[n - 1]];
    }
  }

  lemma NotDone(input: Inputs, merge: (seq<Key>, seq<Value>) -> (nat, Value), spent: seq<nat>, call: Call, spent': seq<nat>)
    requires StepMeets(input, merge, spent, call, spent')
    ensures !AllSpent(input, spent)
  {
    assert spent[call.ids[0]] < |input[call.ids[0]]|;
  }

  lemma NotLonger(input: Inputs, merge: (seq<Key>, seq<Value>) -> (nat, Value),
                  log: seq<Call>, spents: seq<seq<nat>>, log': seq<Call>, spents': seq<seq<nat>>)
    requires Run(input, merge, log, spents) && Run(input, merge, log', spents') && AllSpent(input, spents[|log|])
    ensures |log'| <= |log|
  {
    var n := |log|;
    if n < |log'| {
      SameSoFar(input, merge, log, spents, log', spents', n);
      assert StepAt(input, merge, log', spents', n);
      NotDone(input, merge, spents'[n], log'[n], spents'[n + 1]);
    }
  }

  /** All calls of a whole fold, with their arguments and their order, follow from the inputs
      and the merge callback. */
  lemma RunDetermined(input: Inputs, merge: (seq<Key>, seq<Value>) -> (nat, Value),
                      log: seq<Call>, spents: seq<seq<nat>>, log': seq<Call>, spents': seq<seq<nat>>)
    requires Run(input, merge, log, spents) && AllSpent(input, spents[|log|])
    requires Run(input, merge, log', spents') && AllSpent(input, spents'[|log'|])
    ensures log == log'
  {
    NotLonger(input, merge, log, spents, log', spents');
    NotLonger(input, merge, log', spents', log, spents);
    SameSoFar(input, merge, log, spents, log', spents', |log|);
    assert log == log[..|log|] == log'[..|log'|] == log';
  }

  // ----- There is a run for all inputs -----

  lemma {:induction false} LastRead(log: seq<Call>, s: set<nat>) returns (x: nat)
    requires s != {}
    ensures x in s && forall y :: y in s && y != x ==> ReadAfter(log, x, y)
  {
    var one :| one in s;
    x := one;
    var rest := s - {one};
    assert forall y :: y in s ==> y == one || y in rest;
    if rest != {} {
      var z := LastRead(log, rest);
      if ReadAfter(log, z, one) {
        x := z;
      }
      forall y | y in s && y != x ensures ReadAfter(log, x, y) {
        assert y in rest && y != z ==> ReadAfter(log, z, y);
      }
    }
  }

  lemma {:induction false} Queueing(log: seq<Call>, s: set<nat>) returns (w: seq<nat>)
    ensures Distinct(w) && Members(w) == s
    ensures forall a, b {:trigger w[a], w[b]} :: 0 <= a < b < |w| ==> ReadAfter(log, w[a], w[b])
  {
    if s == {} {
      w := [];
      assert Members(w) == {};
    } else {
      var x := LastRead(log, s);
      var rest := Queueing(log, s - {x});
      w := [x] + rest;
      assert forall i :: i in rest <==> i in Members(rest);
      assert Members(w) == {x} + Members(rest);
      assert forall a :: 1 <= a < |w| ==> w[a] == rest[a - 1] && rest[a - 1] in Members(rest);
    }
  }

  lemma {:induction false} SmallestHead(input: Inputs, spent: seq<nat>, n: nat) returns (m: nat)
    requires Within(input, spent) && n <= |input| && exists i :: 0 <= i < n && spent[i] < |input[i]|
    ensures m < n && spent[m] < |input[m]|
    ensures forall i :: 0 <= i < n && spent[i] < |input[i]| ==> input[m][spent[m]].key.rank <= input[i][spent[i]].key.rank
  {
    m := n - 1;
    if exists i :: 0 <= i < n - 1 && spent[i] < |input[i]| {
      var k := SmallestHead(input, spent, n - 1);
      if spent[m] == |input[m]| || input[k][spent[k]].key.rank < input[m][spent[m]].key.rank {
        m := k;
      }
    }
  }

  ghost predicate AtHeads(input: Inputs, spent: seq<nat>, ids: seq<nat>, rank: int)
    requires Within(input, spent)
  {
    forall a {:trigger ids[a]} :: 0 <= a < |ids| ==> ids[a] in Heads(input, spent, rank)
  }

  /** The pairs at these heads, called with in this order. */
  ghost function CallOn(input: Inputs, merge: (seq<Key>, seq<Value>) -> (nat, Value), spent: seq<nat>, ids: seq<nat>,
                        rank: int, plain: bool): (c: Call)
    requires Within(input, spent) && Chooses(merge) && ids != [] && AtHeads(input, spent, ids, rank)
    ensures c.ids == ids && |c.pairs| == |ids| && c.key.rank == rank
    ensures forall a :: 0 <= a < |ids| ==> c.pairs[a] == input[ids[a]][spent[ids[a]]]
    ensures if plain then Pair(c.key, c.value) == c.pairs[0]
            else var m := merge(Keys(c.pairs), Values(c.pairs));
                 m.0 < |c.pairs| && c.key == c.pairs[m.0].key && c.value == m.1
  {
    var pairs := seq(|ids|, a requires 0 <= a < |ids| => input[ids[a]][spent[ids[a]]]);
    var m := merge(Keys(pairs), Values(pairs));
    assert |Keys(pairs)| == |Values(pairs)| == |ids|;
    if plain then Call(ids, pairs, pairs[0].key, pairs[0].value) else Call(ids, pairs, pairs[m.0].key, m.1)
  }

  ghost function SpentBy(spent: seq<nat>, ids: seq<nat>): seq<nat> {
    seq(|spent|, i requires 0 <= i < |spent| => spent[i] + if i in ids then 1 else 0)
  }

  lemma SpentByWithin(input: Inputs, spent: seq<nat>, ids: seq<nat>, rank: int)
    requires Within(input, spent) && AtHeads(input, spent, ids, rank)
    ensures Within(input, SpentBy(spent, ids))
  {
    forall i | 0 <= i < |input| && i in ids ensures spent[i] < |input[i]| {
      var a :| 0 <= a < |ids| && ids[a] == i;
    }
  }

  /** All heads with the smallest key but the one read first, unless it is the only one. */
  lemma NextIds(input: Inputs, log: seq<Call>, spent: seq<nat>, rank: int) returns (ids: seq<nat>)
    requires Within(input, spent) && Heads(input, spent, rank) != {}
    ensures AtHeads(input, spent, ids, rank) && Distinct(ids)
    ensures var n := |Heads(input, spent, rank)|; |ids| == if n == 1 then 1 else n - 1
    ensures forall a, b {:trigger ids[a], ids[b]} :: 0 <= a < b < |ids| ==> ReadAfter(log, ids[a], ids[b])
    ensures forall a, i {:trigger ReadAfter(log, ids[a], i)} ::
              0 <= a < |ids| && i in Heads(input, spent, rank) && i !in ids ==> ReadAfter(log, ids[a], i)
  {
    var heads := Heads(input, spent, rank);
    var w := Queueing(log, heads);
    DistinctCount(w);
    ids := if |w| == 1 then w else w[..|w| - 1];
    forall a | 0 <= a < |ids| ensures ids[a] in heads {
      assert ids[a] == w[a] && w[a] in Members(w);
    }
    forall a, i | 0 <= a < |ids| && i in heads && i !in ids ensures ReadAfter(log, ids[a], i) {
      assert i in Members(w);
      assert forall b :: 0 <= b < |ids| ==> w[b] == ids[b];
      var b :| 0 <= b < |w| && w[b] == i;
    }
  }

  lemma StepExists(input: Inputs, merge: (seq<Key>, seq<Value>) -> (nat, Value), log: seq<Call>, spent: seq<nat>)
    returns (call: Call, spent': seq<nat>)
    requires Within(input, spent) && !AllSpent(input, spent) && Chooses(merge)
    ensures Steps(input, merge, log, spent, call, spent')
  {
    var x := SmallestHead(input, spent, |input|);
    var r := input[x][spent[x]].key.rank;
    assert x in Heads(input, spent, r);
    var ids := NextIds(input, log, spent, r);
    call := CallOn(input, merge, spent, ids, r, |Heads(input, spent, r)| == 1);
    spent' := SpentBy(spent, ids);
    SpentByWithin(input, spent, ids, r);
  }

  /** A run that is not at its end can be brought there. */
  lemma {:induction false} RunOn(input: Inputs, merge: (seq<Key>, seq<Value>) -> (nat, Value), log: seq<Call>, spents: seq<seq<nat>>)
    returns (whole: seq<Call>, wholeSpents: seq<seq<nat>>)
    requires Run(input, merge, log, spents) && Within(input, spents[|log|]) && Chooses(merge)
    ensures Run(input, merge, whole, wholeSpents) && AllSpent(input, wholeSpents[|whole|])
    decreases Unspent(input, spents[|log|])
  {
    whole, wholeSpents := log, spents;
    if !AllSpent(input, spents[|log|]) {
      var call, spent := StepExists(input, merge, log, spents[|log|]);
      RunMore(input, merge, log, spents, call, spent);
      StepShrinks(input, merge, spents[|log|], call, spent);
      whole, wholeSpents := RunOn(input, merge, log + [call], spents + [spent]);
    }
  }

  lemma RunExists(input: Inputs, merge: (seq<Key>, seq<Value>) -> (nat, Value)) returns (log: seq<Call>, spents: seq<seq<nat>>)
    requires Chooses(merge)
    ensures Run(input, merge, log, spents) && AllSpent(input, spents[|log|])
  {
    log, spents := RunOn(input, merge, [], [seq(|input|, _ => 0)]);
  }

  // ----- The order of the merge callback's arguments -----

  /** When each input was last used, and for what. */
  lemma {:induction false} LastUseIs(input: Inputs, merge: (seq<Key>, seq<Value>) -> (nat, Value),
                                     log: seq<Call>, spents: seq<seq<nat>>, k: nat, i: nat)
    requires Run(input, merge, log, spents) && k <= |log| && i < |input|
    ensures Within(input, spents[k])
    ensures LastUse(log[..k], i) == 0 <==> spents[k][i] == 0
    ensures var n := LastUse(log[..k], i);
            n > 0 ==> n <= |log| && i in log[n - 1].ids && log[n - 1].key.rank == input[i][spents[k][i] - 1].key.rank
  {
    if k > 0 {
      LastUseIs(input, merge, log, spents, k - 1, i);
      assert StepAt(input, merge, log, spents, k - 1);
      assert log[..k][k - 1] == log[k - 1] && log[..k][..k - 1] == log[..k - 1];
      assert spents[k][i] == spents[k - 1][i] + if i in log[k - 1].ids then 1 else 0;
      if i in log[k - 1].ids {
        var a :| 0 <= a < |log[k - 1].ids| && log[k - 1].ids[a] == i;
        assert log[k - 1].pairs[a] == input[i][spents[k - 1][i]];
      }
    }
  }

  /** As documented: in the order in which the skiparrays were given. */
  ghost predicate InGivenOrder(ids: seq<nat>) {
    forall a, b :: 0 <= a < b < |ids| ==> ids[a] < ids[b]
  }

  /** Of two merged inputs the one given first is the one that was used later. */
  ghost predicate UsedBackwards(log: seq<Call>, ids: seq<nat>) {
    forall i, j {:trigger LastUse(log, i), LastUse(log, j)} :: i in ids && j in ids && i < j ==> LastUse(log, i) > LastUse(log, j)
  }

  /** The merge callback gets its arguments in the skiparrays' order exactly when, of any two
      merged inputs, the one given first was used by a later call than the other. */
  lemma GivenOrderIff(input: Inputs, merge: (seq<Key>, seq<Value>) -> (nat, Value), log: seq<Call>, spents: seq<seq<nat>>, k: nat)
    returns (ks: seq<Key>, vs: seq<Value>)
    requires Run(input, merge, log, spents) && k < |log|
    ensures Arguments(input, spents[k], log[k], ks, vs)
    ensures |Heads(input, spents[k], log[k].key.rank)| > 1 ==> PassesMerged(log[k], merge, ks, vs)
    ensures InGivenOrder(log[k].ids) <==> UsedBackwards(log[..k], log[k].ids)
  {
    assert StepAt(input, merge, log, spents, k);
    ks, vs := MergeArguments(input, merge, spents[k], log[k], spents[k + 1]);
    var ids := log[k].ids;
    if InGivenOrder(ids) {
      forall i, j | i in ids && j in ids && i < j ensures LastUse(log[..k], i) > LastUse(log[..k], j) {
        var a :| 0 <= a < |ids| && ids[a] == i;
        var b :| 0 <= b < |ids| && ids[b] == j;
        assert ReadAfter(log[..k], ids[a], ids[b]);
      }
    }
    if UsedBackwards(log[..k], ids) {
      forall a, b | 0 <= a < b < |ids| ensures ids[a] < ids[b] {
        assert ReadAfter(log[..k], ids[a], ids[b]);
        assert LastUse(log[..k], ids[a]) >= LastUse(log[..k], ids[b]);
      }
    }
  }

  /** The key before the next one of input i, for those that have been used at all. */
  ghost function KeyBefore(input: Inputs, spent: seq<nat>, i: nat): int
    requires Within(input, spent) && i < |input| && spent[i] > 0
  {
    input[i][spent[i] - 1].key.rank
  }

  /** Input i was last used as what a merge had left over: by the second call with its key. */
  ghost predicate WasLeft(log: seq<Call>, i: nat) {
    var n := LastUse(log, i);
    n > 1 && log[n - 1].key.rank == log[n - 2].key.rank
  }

  /** Over ascending inputs, who was used later is seen from the keys before the equal ones: the
      one with the larger key, or with equal keys the one that was left over, or one that was
      used at all. */
  lemma UsedLaterIff(input: Inputs, merge: (seq<Key>, seq<Value>) -> (nat, Value), log: seq<Call>, spents: seq<seq<nat>>,
                     k: nat, i: nat, j: nat)
    requires AllAscending(input) && Run(input, merge, log, spents) && k <= |log| && i < |input| && j < |input|
    ensures Within(input, spents[k])
    ensures LastUse(log[..k], i) > LastUse(log[..k], j) <==>
              && spents[k][i] > 0
              && (spents[k][j] == 0 || KeyBefore(input, spents[k], j) < KeyBefore(input, spents[k], i)
                  || (KeyBefore(input, spents[k], j) == KeyBefore(input, spents[k], i)
                      && WasLeft(log[..k], i) && !WasLeft(log[..k], j)))
  {
    LastUseIs(input, merge, log, spents, k, i);
    LastUseIs(input, merge, log, spents, k, j);
    var m, n := LastUse(log[..k], i), LastUse(log[..k], j);
    if 0 < m && 0 < n {
      SecondCall(input, merge, log, spents, m - 1, n - 1);
      SecondCall(input, merge, log, spents, n - 1, m - 1);
    }
  }

  /** Of two calls with the same key the later one comes right after the other, which is the
      first with that key. */
  lemma SecondCall(input: Inputs, merge: (seq<Key>, seq<Value>) -> (nat, Value), log: seq<Call>, spents: seq<seq<nat>>, m: nat, n: nat)
    requires AllAscending(input) && Run(input, merge, log, spents) && m < |log| && n < |log|
    ensures m < n ==> log[m].key.rank <= log[n].key.rank
    ensures m < n && log[m].key.rank == log[n].key.rank ==> n == m + 1
    ensures m < n && log[m].key.rank == log[n].key.rank && m > 0 ==> log[m - 1].key.rank != log[m].key.rank
    ensures log[m].key.rank == log[n].key.rank && n > 0 && log[n - 1].key.rank == log[n].key.rank ==> n - 1 <= m <= n
  {
    if m < n {
      Ordered(input, merge, log, spents, m, n);
    }
    if m + 1 < n {
      AtMostTwice(input, merge, log, spents, m, n);
    }
    if 0 < m < n {
      AtMostTwice(input, merge, log, spents, m - 1, n);
    }
    if n < m && n > 0 {
      AtMostTwice(input, merge, log, spents, n - 1, m);
    }
  }

  ghost function ThreeEqual(): Inputs {
    [[Pair(Key(0, 1), Pointer(1))], [Pair(Key(0, 2), Pointer(2))], [Pair(Key(0, 3), Pointer(3))]]
  }

  lemma ThreeEqualHeads(spent: seq<nat>)
    requires Within(ThreeEqual(), spent)
    ensures forall i :: 0 <= i < 3 ==> |ThreeEqual()[i]| == 1 && ThreeEqual()[i][0].key.rank == 0
    ensures Heads(ThreeEqual(), spent, 0) == set i: nat | i < 3 && spent[i] == 0
    ensures spent == [0, 0, 0] ==> |Heads(ThreeEqual(), spent, 0)| == 3
  {
    assert |ThreeEqual()[0]| == |ThreeEqual()[1]| == |ThreeEqual()[2]| == 1;
    if spent == [0, 0, 0] {
      assert Heads(ThreeEqual(), spent, 0) == {0, 1, 2};
    }
  }

  lemma BeforeLeft(input: Inputs, spent: seq<nat>, log: seq<Call>, call: Call, a: nat, i: nat)
    requires Within(input, spent) && InTurn(input, spent, log, call) && a < |call.ids|
    requires i in Heads(input, spent, call.key.rank) && i !in call.ids
    ensures ReadAfter(log, call.ids[a], i)
  {
  }

  lemma ThreeEqualStep(merge: (seq<Key>, seq<Value>) -> (nat, Value), log: seq<Call>, spent: seq<nat>, call: Call, spent': seq<nat>)
    requires Steps(ThreeEqual(), merge, log, spent, call, spent')
    ensures |spent| == 3 && spent != [1, 1, 1]
    ensures spent == [0, 0, 0] && log == [] ==> call.ids == [2, 1] && spent' == [0, 1, 1]
    ensures spent == [0, 1, 1] ==> call.ids == [0] && spent' == [1, 1, 1]
  {
    ThreeEqualHeads(spent);
    var x := call.ids[0];
    assert call.pairs[0] == ThreeEqual()[x][spent[x]];
    if spent == [0, 0, 0] && log == [] {
      assert |call.ids| == 2;
      var y := call.ids[1];
      assert call.pairs[1] == ThreeEqual()[y][spent[y]];
      assert ReadAfter(log, x, y);
      assert forall i :: i in call.ids <==> i == x || i == y;
      assert 0 in Heads(ThreeEqual(), spent, 0) && 1 in Heads(ThreeEqual(), spent, 0);
      assert y != 0 by {
        if y == 0 {
          BeforeLeft(ThreeEqual(), spent, log, call, 1, 3 - x);
          assert false;
        }
      }
    } else if spent == [0, 1, 1] {
      assert Heads(ThreeEqual(), spent, 0) == {0};
    }
    assert forall i :: 0 <= i < 3 ==> spent'[i] == spent[i] + if i in call.ids then 1 else 0;
  }

  lemma ThreeEqualMerged(merge: (seq<Key>, seq<Value>) -> (nat, Value), spent: seq<nat>, call: Call, spent': seq<nat>)
    requires StepMeets(ThreeEqual(), merge, spent, call, spent') && spent == [0, 0, 0] && call.ids == [2, 1]
    ensures PassesMerged(call, merge, [Key(0, 3), Key(0, 2)], [Pointer(3), Pointer(2)])
  {
    ThreeEqualHeads(spent);
    var ks, vs := MergeArguments(ThreeEqual(), merge, spent, call, spent');
    assert call.pairs[0] == ThreeEqual()[2][0];
    assert Pair(ks[0], vs[0]) == ThreeEqual()[call.ids[0]][0] && Pair(ks[1], vs[1]) == ThreeEqual()[call.ids[1]][0];
    assert ks == [Key(0, 3), Key(0, 2)] && vs == [Pointer(3), Pointer(2)];
  }

  lemma ThreeEqualLeft(merge: (seq<Key>, seq<Value>) -> (nat, Value), spent: seq<nat>, call: Call, spent': seq<nat>)
    requires StepMeets(ThreeEqual(), merge, spent, call, spent') && spent == [0, 1, 1] && call.ids == [0]
    ensures Pair(call.key, call.value) == Pair(Key(0, 1), Pointer(1))
  {
    ThreeEqualHeads(spent);
    var ks, vs := MergeArguments(ThreeEqual(), merge, spent, call, spent');
    assert call.pairs[0] == ThreeEqual()[0][0];
    assert Heads(ThreeEqual(), spent, 0) == {0};
  }

  /** So it is not the skiparrays' order: three of one pair each, with equal keys, are merged
      third before second, and the first is left over. */
  lemma NotInGivenOrder(merge: (seq<Key>, seq<Value>) -> (nat, Value)) returns (log: seq<Call>, spents: seq<seq<nat>>)
    requires Chooses(merge)
    ensures Run(ThreeEqual(), merge, log, spents) && AllSpent(ThreeEqual(), spents[|log|])
    ensures |log| == 2 && log[0].ids == [2, 1] && log[1].ids == [0] && !InGivenOrder(log[0].ids)
    ensures PassesMerged(log[0], merge, [Key(0, 3), Key(0, 2)], [Pointer(3), Pointer(2)])
    ensures Pair(log[1].key, log[1].value) == Pair(Key(0, 1), Pointer(1))
  {
    log, spents := RunExists(ThreeEqual(), merge);
    ThreeEqualHeads(spents[0]);
    assert spents[0] == [0, 0, 0];
    assert |log| > 0;
    assert StepAt(ThreeEqual(), merge, log, spents, 0);
    ThreeEqualStep(merge, log[..0], spents[0], log[0], spents[1]);
    ThreeEqualMerged(merge, spents[0], log[0], spents[1]);
    assert log[0].ids[0] > log[0].ids[1];
    ThreeEqualHeads(spents[1]);
    assert !AllSpent(ThreeEqual(), spents[1]) by {
      assert spents[1][0] < |ThreeEqual()[0]|;
    }
    assert StepAt(ThreeEqual(), merge, log, spents, 1);
    ThreeEqualStep(merge, log[..1], spents[1], log[1], spents[2]);
    ThreeEqualLeft(merge, spents[1], log[1], spents[2]);
    if |log| > 2 {
      assert StepAt(ThreeEqual(), merge, log, spents, 2);
      ThreeEqualStep(merge, log[..2], spents[2], log[2], spents[3]);
    }
  }
}
