/** Whole folds over actual skiparrays. */
module WholeFolds {
  import opened Pairs
  import opened Skiparrays
  import opened Queues
  import opened Merges
  import opened Descents
  import opened Folds

  /** A fold in either direction over any number of skiparrays: a run that uses up every pair of
      every skiparray, and leaves the skiparrays with the iterators they had. None where memory
      runs out. */
  method FoldSome(left: bool, sas: seq<Skiparray>, merge: (seq<Key>, seq<Value>) -> (nat, Value), allocOk: bool, memory: seq<bool>)
    returns (res: Option<seq<Call>>, ghost input: Inputs, ghost spents: seq<seq<nat>>)
    requires 1 <= |sas| < 256 && |memory| == |sas| && Chooses(merge)
    requires forall s :: s in sas ==> s.Valid() && s.Iterating()
    modifies sas`iter, sas`iters, LiveIters(sas)`prev, LiveIters(sas)`next
    ensures res.Some? <==> allocOk && AllGranted(sas, memory)
    ensures res.Some? ==> Run(input, merge, res.value, spents) && AllSpent(input, spents[|res.value|])
    ensures res.Some? ==> InputsOf(left, sas, input)
    ensures AllOk(sas, old(NodesOf(sas)), LiveIters(sas)) && LiveIters(sas) == old(LiveIters(sas))
  {
    input, spents := [], [];
    var f := Init(left, sas, merge, allocOk, memory);
    if f == null {
      return None, input, spents;
    }
    input := f.input;
    assert InputsOf(left, sas, input);
    var log;
    log, spents := FoldAll(f);
    res := Some(log);
  }

  /** The inputs are the skiparrays' pairs, in the order of the fold. */
  ghost predicate InputsOf(left: bool, sas: seq<Skiparray>, input: Inputs)
    reads sas`wins
  {
    && |input| == |sas|
    && forall i {:trigger InOrder(left, sas[i].Contents(), input[i])} :: 0 <= i < |sas| ==> InOrder(left, sas[i].Contents(), input[i])
  }

  ghost predicate Held(sas: seq<Skiparray>, p: Pair)
    reads sas`wins
  {
    exists i :: 0 <= i < |sas| && p in sas[i].Contents()
  }

  /** Only pairs that the skiparrays hold are passed on. */
  ghost predicate PassesHeld(log: seq<Call>, sas: seq<Skiparray>)
    reads sas`wins
  {
    forall k {:trigger log[k]} :: 0 <= k < |log| ==> Held(sas, Pair(log[k].key, log[k].value))
  }

  lemma HeldAll(left: bool, sas: seq<Skiparray>, input: Inputs, merge: (seq<Key>, seq<Value>) -> (nat, Value),
                log: seq<Call>, spents: seq<seq<nat>>)
    requires InputsOf(left, sas, input) && Run(input, merge, log, spents)
    ensures Honest(merge) ==> PassesHeld(log, sas)
  {
    if !Honest(merge) {
      return;
    }
    forall k | 0 <= k < |log| ensures Held(sas, Pair(log[k].key, log[k].value)) {
      var i := PassesOwn(input, merge, log, spents, k);
      var n := spents[k][i];
      assert InOrder(left, sas[i].Contents(), input[i]);
      var c := sas[i].Contents();
      assert c[if left then n else |c| - 1 - n] == input[i][n];
    }
  }

  lemma AllAscend(sas: seq<Skiparray>)
    requires forall s :: s in sas ==> s.Valid()
    ensures forall i :: 0 <= i < |sas| ==> Ascending(sas[i].Contents())
  {
    forall i | 0 <= i < |sas| ensures Ascending(sas[i].Contents()) {
      assert sas[i] in sas;
    }
  }

  /** A left fold's inputs are the skiparrays' contents, which ascend. */
  lemma LeftInputs(sas: seq<Skiparray>, input: Inputs)
    requires InputsOf(true, sas, input) && forall i :: 0 <= i < |sas| ==> Ascending(sas[i].Contents())
    ensures AllAscending(input)
    ensures forall i :: 0 <= i < |sas| ==> input[i] == sas[i].Contents()
  {
    forall i | 0 <= i < |sas| ensures input[i] == sas[i].Contents() && Ascending(input[i]) {
      assert InOrder(true, sas[i].Contents(), input[i]);
    }
  }

  /** A right fold's inputs descend. */
  lemma RightInputs(sas: seq<Skiparray>, input: Inputs)
    requires InputsOf(false, sas, input) && forall i :: 0 <= i < |sas| ==> Ascending(sas[i].Contents())
    ensures AllDescending(input)
  {
    forall i | 0 <= i < |sas| ensures Descending(input[i]) {
      assert InOrder(false, sas[i].Contents(), input[i]);
    }
  }

  /** A left fold over any number of skiparrays is an ordered, conserving merge: every pair of
      every skiparray is used exactly once, in order, and keys reach the fold callback in
      non-decreasing order. Exactly the keys that two skiparrays share reach it twice, in
      adjacent calls. Where there are none, what reaches it is the sorted merge. */
  method MergeAll(sas: seq<Skiparray>, merge: (seq<Key>, seq<Value>) -> (nat, Value), allocOk: bool, memory: seq<bool>)
    returns (res: Option<seq<Call>>, ghost input: Inputs, ghost spents: seq<seq<nat>>)
    requires 1 <= |sas| < 256 && |memory| == |sas| && Chooses(merge)
    requires forall s :: s in sas ==> s.Valid() && s.Iterating()
    modifies sas`iter, sas`iters, LiveIters(sas)`prev, LiveIters(sas)`next
    ensures res.Some? <==> allocOk && AllGranted(sas, memory)
    ensures res.Some? ==> |input| == |sas| && forall i :: 0 <= i < |sas| ==> input[i] == old(sas[i].Contents()) == sas[i].Contents()
    ensures res.Some? ==> AllAscending(input) && Merging(input, res.value)
    ensures res.Some? ==> Run(input, merge, res.value, spents) && AllSpent(input, spents[|res.value|])
    ensures res.Some? && Honest(merge) ==> PassesHeld(res.value, sas)
    ensures AllOk(sas, old(NodesOf(sas)), LiveIters(sas)) && LiveIters(sas) == old(LiveIters(sas))
  {
    AllAscend(sas);
    res, input, spents := FoldSome(true, sas, merge, allocOk, memory);
    if res.Some? {
      LeftInputs(sas, input);
      MergingAll(input, merge, res.value, spents);
      HeldAll(true, sas, input, merge, res.value, spents);
    }
  }

  /** A right fold over any number of skiparrays uses every pair exactly once, each skiparray's
      from the last to the first, but the keys reach the fold callback in descending order
      exactly when at most one skiparray has any. */
  method MergeBack(sas: seq<Skiparray>, merge: (seq<Key>, seq<Value>) -> (nat, Value), allocOk: bool, memory: seq<bool>)
    returns (res: Option<seq<Call>>, ghost input: Inputs, ghost spents: seq<seq<nat>>)
    requires 1 <= |sas| < 256 && |memory| == |sas| && Chooses(merge)
    requires forall s :: s in sas ==> s.Valid() && s.Iterating()
    modifies sas`iter, sas`iters, LiveIters(sas)`prev, LiveIters(sas)`next
    ensures res.Some? <==> allocOk && AllGranted(sas, memory)
    ensures forall i :: 0 <= i < |sas| ==> sas[i].Contents() == old(sas[i].Contents())
    ensures res.Some? ==> InputsOf(false, sas, input) && forall i :: 0 <= i < |input| ==> Consumed(res.value, i) == input[i]
    ensures res.Some? ==> (Falls(res.value) <==> AtMostOne(input)) && (NeverRises(res.value) <==> OnlyFirstLong(input))
    ensures res.Some? ==> Run(input, merge, res.value, spents) && AllSpent(input, spents[|res.value|])
    ensures res.Some? && Honest(merge) ==> PassesHeld(res.value, sas)
    ensures AllOk(sas, old(NodesOf(sas)), LiveIters(sas)) && LiveIters(sas) == old(LiveIters(sas))
  {
    AllAscend(sas);
    res, input, spents := FoldSome(false, sas, merge, allocOk, memory);
    if res.Some? {
      RightInputs(sas, input);
      AllConsumed(input, merge, res.value, spents);
      FallsIff(input, merge, res.value, spents);
      NeverRisesIff(input, merge, res.value, spents);
      HeldAll(false, sas, input, merge, res.value, spents);
    }
  }

  /** skiparray_fold: the pairs of one skiparray, one by one, in the order of the fold. */
  method FoldOne(left: bool, sa: Skiparray, allocOk: bool, iterOk: bool) returns (res: Option<seq<Call>>)
    requires sa.Valid() && sa.Iterating()
    modifies sa`iter, sa`iters, sa.iters`prev, sa.iters`next
    ensures res.Some? <==> allocOk && (iterOk || sa.Contents() == [])
    ensures res.Some? ==> InOrder(left, old(sa.Contents()), Outputs(res.value))
    ensures sa.Valid() && sa.Iterating() && forall o :: o in sa.iters <==> o in old(sa.iters)
  {
    OneLive(sa);
    assert AllGranted([sa], [iterOk]) <==> Granted([sa][0], [iterOk][0]);
    ghost var input, spents;
    res, input, spents := FoldSome(left, [sa], NoMerge, allocOk, [iterOk]);
    OneLive(sa);
    OneOk(sa, old(NodesOf([sa])), LiveIters([sa]));
    if res.Some? {
      OneInput(input, NoMerge, res.value, spents);
      assert InOrder(left, [sa][0].Contents(), input[0]);
      assert input[0][..|res.value|] == input[0];
    }
  }
}
