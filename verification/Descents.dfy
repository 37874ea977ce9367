/** Right folds over several inputs. Each is read from its largest key down, but the queue still
    puts the smallest head first. */
module Descents {
  import opened Pairs
  import opened Queues
  import opened Merges
  import opened Turns

  ghost predicate Descending(s: seq<Pair>) {
    forall i, j {:trigger s[i].key.rank, s[j].key.rank} :: 0 <= i < j < |s| ==> s[j].key.rank < s[i].key.rank
  }

  ghost predicate AllDescending(input: Inputs) {
    forall i :: 0 <= i < |input| ==> Descending(input[i])
  }

  /** As documented: keys reach the fold callback in descending order. */
  ghost predicate Falls(log: seq<Call>) {
    forall j, k {:trigger log[j], log[k]} :: 0 <= j < k < |log| ==> log[k].key.rank < log[j].key.rank
  }

  ghost predicate NeverRises(log: seq<Call>) {
    forall j, k {:trigger log[j], log[k]} :: 0 <= j < k < |log| ==> log[k].key.rank <= log[j].key.rank
  }

  ghost predicate AtMostOne(input: Inputs) {
    forall i, j {:trigger input[i], input[j]} :: 0 <= i < j < |input| ==> input[i] == [] || input[j] == []
  }

  /** All that are not empty share their largest key, and all of those but the first hold
      nothing else. */
  ghost predicate OnlyFirstLong(input: Inputs) {
    forall i, j {:trigger input[i], input[j]} :: 0 <= i < j < |input| && input[i] != [] && input[j] != [] ==>
      |input[j]| == 1 && input[i][0].key.rank == input[j][0].key.rank
  }

  /** The pair a call's key is from. */
  lemma CallFrom(input: Inputs, merge: (seq<Key>, seq<Value>) -> (nat, Value), log: seq<Call>, spents: seq<seq<nat>>, k: nat)
    returns (i: nat)
    requires Run(input, merge, log, spents) && k < |log|
    ensures Within(input, spents[k]) && Within(input, spents[k + 1])
    ensures i < |input| && i in log[k].ids && spents[k][i] < |input[i]| && spents[k + 1][i] == spents[k][i] + 1
    ensures log[k].key.rank == input[i][spents[k][i]].key.rank
  {
    assert StepAt(input, merge, log, spents, k);
    i := log[k].ids[0];
    assert log[k].pairs[0] == input[i][spents[k][i]];
  }

  /** The first call is for the smallest of the largest keys. */
  lemma FirstCall(input: Inputs, merge: (seq<Key>, seq<Value>) -> (nat, Value), log: seq<Call>, spents: seq<seq<nat>>, i: nat)
    requires Run(input, merge, log, spents) && AllSpent(input, spents[|log|])
    requires i < |input| && input[i] != []
    ensures log != [] && log[0].key.rank <= input[i][0].key.rank
    ensures NeverRises(log) ==> log[0].key.rank == input[i][0].key.rank
  {
    var k := UsedBy(input, merge, log, spents, i, 0, |log|);
    assert StepAt(input, merge, log, spents, 0);
    assert spents[0][i] == 0;
  }

  /** Where two inputs share the first key called with, the later one is merged by that call, so
      its next pair, if it has one, comes before what is left over: the key rises again. */
  lemma RisesAgain(input: Inputs, merge: (seq<Key>, seq<Value>) -> (nat, Value), log: seq<Call>, spents: seq<seq<nat>>,
                   i: nat, j: nat) returns (m: nat)
    requires AllDescending(input) && Run(input, merge, log, spents) && AllSpent(input, spents[|log|]) && log != []
    requires i < j < |input| && input[i] != [] && |input[j]| > 1
    requires input[i][0].key.rank == input[j][0].key.rank == log[0].key.rank
    ensures 1 < m < |log| && log[1].key.rank < log[m].key.rank
  {
    assert StepAt(input, merge, log, spents, 0);
    var x := FirstLeft(input, merge, spents[0], log[0], spents[1], i, j);
    assert spents[1][j] == 1 && spents[1][x] == 0;
    m := UsedBy(input, merge, log, spents, x, 0, |log|);
    var k := UsedBy(input, merge, log, spents, j, 1, |log|);
    assert StepAt(input, merge, log, spents, 1);
    assert Descending(input[j]);
    assert log[1].key.rank <= input[j][1].key.rank;
  }

  /** Where no key rises, a later input holds nothing below the shared key. */
  lemma LaterIsShort(input: Inputs, merge: (seq<Key>, seq<Value>) -> (nat, Value), log: seq<Call>, spents: seq<seq<nat>>, i: nat, j: nat)
    requires AllDescending(input) && Run(input, merge, log, spents) && AllSpent(input, spents[|log|])
    requires i < j < |input| && input[i] != [] && input[j] != [] && NeverRises(log)
    ensures |input[j]| == 1 && input[i][0].key.rank == input[j][0].key.rank
  {
    FirstCall(input, merge, log, spents, i);
    FirstCall(input, merge, log, spents, j);
    if |input[j]| > 1 {
      var m := RisesAgain(input, merge, log, spents, i, j);
      assert false;
    }
  }

  /** Of two heads with the smallest key at the very start, the later input's is used first. */
  lemma FirstLeft(input: Inputs, merge: (seq<Key>, seq<Value>) -> (nat, Value), spent: seq<nat>, call: Call, spent': seq<nat>,
                  i: nat, j: nat) returns (x: nat)
    requires Steps(input, merge, [], spent, call, spent') && i < j < |input| && spent[i] == spent[j] == 0
    requires input[i] != [] && input[j] != [] && input[i][0].key.rank == input[j][0].key.rank == call.key.rank
    ensures j in call.ids
    ensures x in Heads(input, spent, call.key.rank) && x !in call.ids
  {
    var heads := Heads(input, spent, call.key.rank);
    assert {i, j} <= heads && |{i, j}| == 2;
    Cardinal({i, j}, heads);
    x := OneLeft(input, merge, spent, call, spent');
    if j !in call.ids {
      assert i in Members(call.ids);
      var a :| 0 <= a < |call.ids| && call.ids[a] == i;
      BeforeLeft(input, spent, [], call, a, j);
    }
  }

  lemma {:induction false} Cardinal(s: set<nat>, t: set<nat>)
    requires s <= t
    ensures |s| <= |t|
  {
    assert t == s + (t - s);
  }

  /** Two inputs that share their largest key: the later one's is used first. */
  lemma LaterFirst(input: Inputs, merge: (seq<Key>, seq<Value>) -> (nat, Value), log: seq<Call>, spents: seq<seq<nat>>,
                   i: nat, j: nat, n: nat)
    requires Run(input, merge, log, spents) && n <= |log| && i < j < |input|
    requires input[i] != [] && input[j] != [] && input[i][0].key.rank == input[j][0].key.rank
    requires Within(input, spents[n]) && spents[n][i] > 0
    ensures spents[n][j] > 0
  {
    var k := UsedBy(input, merge, log, spents, i, 0, n);
    SpentGrows(input, merge, log, spents, k, n, j);
    LastUseIs(input, merge, log, spents, k, i);
    LastUseIs(input, merge, log, spents, k, j);
    if spents[k][j] == 0 {
      SpentGrows(input, merge, log, spents, k + 1, n, j);
      assert spents[k + 1][j] == spents[k][j] + if j in log[k].ids then 1 else 0;
      if j !in log[k].ids {
        var a :| 0 <= a < |log[k].ids| && log[k].ids[a] == i;
        BeforeLeft(input, spents[k], log[..k], log[k], a, j);
      }
    }
  }

  /** Where only the first input goes on below the shared key, no call is for a larger key than
      one before. */
  lemma NoRise(input: Inputs, merge: (seq<Key>, seq<Value>) -> (nat, Value), log: seq<Call>, spents: seq<seq<nat>>, j: nat, k: nat)
    requires AllDescending(input) && OnlyFirstLong(input) && Run(input, merge, log, spents) && j < k < |log|
    ensures log[k].key.rank <= log[j].key.rank
  {
    var a := CallFrom(input, merge, log, spents, j);
    var b := CallFrom(input, merge, log, spents, k);
    SpentGrows(input, merge, log, spents, j, k, b);
    assert Descending(input[a]) && Descending(input[b]);
    if a < b {
      assert |input[b]| == 1 && input[a][0].key.rank == input[b][0].key.rank;
      if spents[j][a] > 0 {
        LaterFirst(input, merge, log, spents, a, b, j);
      }
    } else if b < a {
      assert |input[a]| == 1 && input[b][0].key.rank == input[a][0].key.rank;
    }
  }

  /** Keys never rise exactly when all inputs that are not empty share their largest key and all
      of those but the first hold nothing else. */
  lemma NeverRisesIff(input: Inputs, merge: (seq<Key>, seq<Value>) -> (nat, Value), log: seq<Call>, spents: seq<seq<nat>>)
    requires AllDescending(input) && Run(input, merge, log, spents) && AllSpent(input, spents[|log|])
    ensures NeverRises(log) <==> OnlyFirstLong(input)
  {
    if NeverRises(log) {
      forall i, j | 0 <= i < j < |input| && input[i] != [] && input[j] != []
        ensures |input[j]| == 1 && input[i][0].key.rank == input[j][0].key.rank
      {
        LaterIsShort(input, merge, log, spents, i, j);
      }
    }
    if OnlyFirstLong(input) {
      forall j, k | 0 <= j < k < |log| ensures log[k].key.rank <= log[j].key.rank {
        NoRise(input, merge, log, spents, j, k);
      }
    }
  }

  lemma OneFalls(input: Inputs, merge: (seq<Key>, seq<Value>) -> (nat, Value), log: seq<Call>, spents: seq<seq<nat>>, j: nat, k: nat)
    requires AllDescending(input) && AtMostOne(input) && Run(input, merge, log, spents) && j < k < |log|
    ensures log[k].key.rank < log[j].key.rank
  {
    var a := CallFrom(input, merge, log, spents, j);
    var b := CallFrom(input, merge, log, spents, k);
    assert a == b;
    SpentGrows(input, merge, log, spents, j + 1, k, b);
    assert Descending(input[a]);
  }

  /** The documented descending order holds exactly when at most one input is not empty. */
  lemma FallsIff(input: Inputs, merge: (seq<Key>, seq<Value>) -> (nat, Value), log: seq<Call>, spents: seq<seq<nat>>)
    requires AllDescending(input) && Run(input, merge, log, spents) && AllSpent(input, spents[|log|])
    ensures Falls(log) <==> AtMostOne(input)
  {
    if AtMostOne(input) {
      forall j, k | 0 <= j < k < |log| ensures log[k].key.rank < log[j].key.rank {
        OneFalls(input, merge, log, spents, j, k);
      }
    }
    if Falls(log) {
      forall i, j | 0 <= i < j < |input| ensures input[i] == [] || input[j] == [] {
        if input[i] != [] && input[j] != [] {
          LaterIsShort(input, merge, log, spents, i, j);
          var k, m := SameTwice(input, merge, log, spents, i, 0, j, 0);
          assert false;
        }
      }
    }
  }

  ghost function TwoApart(): Inputs {
    [[Pair(Key(1, 1), Null)], [Pair(Key(2, 2), Null)]]
  }

  lemma TwoApartStep(merge: (seq<Key>, seq<Value>) -> (nat, Value), spent: seq<nat>, call: Call, spent': seq<nat>)
    requires StepMeets(TwoApart(), merge, spent, call, spent')
    ensures |TwoApart()[0]| == |TwoApart()[1]| == 1 && |spent| == 2 && spent != [1, 1]
    ensures spent == [0, 0] ==> call.key.rank == 1 && spent' == [1, 0]
    ensures spent == [1, 0] ==> call.key.rank == 2 && spent' == [1, 1]
  {
    assert |TwoApart()[0]| == |TwoApart()[1]| == 1;
    forall a | 0 <= a < |call.ids|
      ensures call.ids[a] < 2 && spent[call.ids[a]] == 0 && call.key.rank == TwoApart()[call.ids[a]][0].key.rank
    {
      assert call.pairs[a] == TwoApart()[call.ids[a]][spent[call.ids[a]]];
    }
    assert call.ids[0] in call.ids;
    assert forall i :: 0 <= i < 2 ==> spent'[i] == spent[i] + if i in call.ids then 1 else 0;
  }

  /** So it does not descend: from two skiparrays of one pair each the smaller key comes first. */
  lemma NotDescending(merge: (seq<Key>, seq<Value>) -> (nat, Value)) returns (log: seq<Call>, spents: seq<seq<nat>>)
    requires Chooses(merge)
    ensures AllDescending(TwoApart()) && Run(TwoApart(), merge, log, spents) && AllSpent(TwoApart(), spents[|log|])
    ensures |log| == 2 && log[0].key.rank == 1 && log[1].key.rank == 2
  {
    log, spents := RunExists(TwoApart(), merge);
    assert spents[0] == [0, 0] && |TwoApart()[0]| == |TwoApart()[1]| == 1;
    assert StepAt(TwoApart(), merge, log, spents, 0);
    TwoApartStep(merge, spents[0], log[0], spents[1]);
    assert StepAt(TwoApart(), merge, log, spents, 1);
    TwoApartStep(merge, spents[1], log[1], spents[2]);
    if |log| > 2 {
      assert StepAt(TwoApart(), merge, log, spents, 2);
      TwoApartStep(merge, spents[2], log[2], spents[3]);
    }
  }
}
