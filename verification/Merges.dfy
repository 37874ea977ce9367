/** What a fold over several inputs does, seen from outside: one call after another, each
    using up pairs at the heads of the inputs. */
module Merges {
  import opened Pairs
  import opened Chains
  import opened Queues

  type Inputs = seq<seq<Pair>>

  /** How many pairs of each input have been used up. */
  ghost predicate Within(input: Inputs, spent: seq<nat>) {
    |spent| == |input| && forall i :: 0 <= i < |input| ==> spent[i] <= |input[i]|
  }

  ghost predicate AllSpent(input: Inputs, spent: seq<nat>) {
    |spent| == |input| && forall i :: 0 <= i < |input| ==> spent[i] == |input[i]|
  }

  /** The inputs whose next pair has this rank. */
  ghost function Heads(input: Inputs, spent: seq<nat>, rank: int): set<nat>
    requires Within(input, spent)
  {
    set i: nat | i < |input| && spent[i] < |input[i]| && input[i][spent[i]].key.rank == rank
  }

  /** One step: its key is the smallest at any head. If only one head has it, that pair goes
      to the fold callback as it is. If several do, all of them but one are merged first. */
  ghost predicate StepMeets(input: Inputs, merge: (seq<Key>, seq<Value>) -> (nat, Value),
                            spent: seq<nat>, call: Call, spent': seq<nat>) {
    && Within(input, spent) && Within(input, spent')
    && Distinct(call.ids) && |call.pairs| == |call.ids| > 0
    && (forall a {:trigger call.ids[a]} :: 0 <= a < |call.ids| ==>
          var id := call.ids[a];
          && id < |input| && spent[id] < |input[id]|
          && call.pairs[a] == input[id][spent[id]]
          && call.pairs[a].key.rank == call.key.rank)
    && (forall i {:trigger spent'[i]} :: 0 <= i < |input| ==> spent'[i] == spent[i] + if i in call.ids then 1 else 0)
    && (forall i {:trigger spent[i]} :: 0 <= i < |input| && spent[i] < |input[i]| ==>
          call.key.rank <= input[i][spent[i]].key.rank)
    && var heads := Heads(input, spent, call.key.rank);
       && |call.ids| == (if |heads| == 1 then 1 else |heads| - 1)
       && if |heads| == 1 then Pair(call.key, call.value) == call.pairs[0]
          else var m := merge(Keys(call.pairs), Values(call.pairs));
               m.0 < |call.pairs| && call.key == call.pairs[m.0].key && call.value == m.1
  }

  /** Which of several heads a step uses, and in what order: the merge callback gets the one
      read last first, and the one read first is what is left over. */
  ghost predicate InTurn(input: Inputs, spent: seq<nat>, log: seq<Call>, call: Call)
    requires Within(input, spent)
  {
    && (forall a, b {:trigger call.ids[a], call.ids[b]} :: 0 <= a < b < |call.ids| ==> ReadAfter(log, call.ids[a], call.ids[b]))
    && (forall a, i {:trigger ReadAfter(log, call.ids[a], i)} ::
          0 <= a < |call.ids| && i in Heads(input, spent, call.key.rank) && i !in call.ids ==> ReadAfter(log, call.ids[a], i))
  }

  /** One step after the calls so far. */
  ghost predicate Steps(input: Inputs, merge: (seq<Key>, seq<Value>) -> (nat, Value), log: seq<Call>,
                        spent: seq<nat>, call: Call, spent': seq<nat>) {
    StepMeets(input, merge, spent, call, spent') && InTurn(input, spent, log, call)
  }

  /** How many pairs of each input have been used up: those read, but for the one waiting in
      the queue. */
  ghost function Spent(its: seq<IterState>, taken: seq<nat>): (spent: seq<nat>)
    requires |its| == |taken|
  {
    seq(|its|, i requires 0 <= i < |its| => if its[i].state.NotAvailable? || taken[i] == 0 then taken[i] else taken[i] - 1)
  }

  /** Having been read and not used up, a pair is still to be spent. */
  lemma StillUnspent(its: seq<IterState>, its': seq<IterState>, taken: seq<nat>, id: nat)
    requires |its| == |its'| == |taken| && id < |its|
    requires its[id].state.NotAvailable? && !its'[id].state.NotAvailable?
    requires forall j {:trigger its'[j]} :: 0 <= j < |its| && j != id ==> its'[j] == its[j]
    ensures Spent(its', taken[id := taken[id] + 1]) == Spent(its, taken)
  {
  }

  lemma SameStates(its: seq<IterState>, its': seq<IterState>, id: nat)
    requires |its| == |its'| && id < |its| && its[id].state == its'[id].state
    requires forall j {:trigger its'[j]} :: 0 <= j < |its| && j != id ==> its'[j] == its[j]
    ensures forall t {:trigger Spent(its', t)} :: |t| == |its| ==> Spent(its', t) == Spent(its, t)
  {
    forall t: seq<nat> | |t| == |its| ensures Spent(its', t) == Spent(its, t) {
    }
  }

  /** What an input has in the queue is the last pair read from it. */
  ghost predicate Waits(input: Inputs, its: seq<IterState>, taken: seq<nat>, i: nat)
    requires i < |its| == |taken| == |input|
  {
    !its[i].state.NotAvailable? ==> 0 < taken[i] <= |input[i]| && its[i].pair == input[i][taken[i] - 1]
  }

  /** So it is for every input, but perhaps for this one. */
  ghost predicate WaitBut(input: Inputs, its: seq<IterState>, taken: seq<nat>, but: int) {
    && |its| == |taken| == |input|
    && forall i {:trigger Waits(input, its, taken, i)} :: 0 <= i < |input| && i != but ==> Waits(input, its, taken, i)
  }

  /** Counting the pair of the one that did not, it does too. */
  lemma WaitsNow(input: Inputs, its: seq<IterState>, taken: seq<nat>, id: nat)
    requires WaitBut(input, its, taken, id) && id < |its|
    requires !its[id].state.NotAvailable? && taken[id] < |input[id]| && its[id].pair == input[id][taken[id]]
    ensures WaitBut(input, its, taken[id := taken[id] + 1], -1)
  {
    var taken' := taken[id := taken[id] + 1];
    forall i | 0 <= i < |its| ensures Waits(input, its, taken', i) {
      assert i != id ==> Waits(input, its, taken, i);
    }
  }

  lemma OthersWait(input: Inputs, its: seq<IterState>, taken: seq<nat>, its': seq<IterState>, id: nat)
    requires (WaitBut(input, its, taken, -1) || WaitBut(input, its, taken, id)) && id < |its| == |its'|
    requires forall j {:trigger its'[j]} :: 0 <= j < |its| && j != id ==> its'[j] == its[j]
    ensures WaitBut(input, its', taken, id)
  {
    forall i | 0 <= i < |its| && i != id ensures Waits(input, its', taken, i) {
      assert Waits(input, its, taken, i);
    }
  }

  lemma UsedWait(input: Inputs, its: seq<IterState>, taken: seq<nat>, ids: seq<nat>)
    requires WaitBut(input, its, taken, -1)
    ensures WaitBut(input, Used(its, ids), taken, -1)
  {
    forall i | 0 <= i < |its| ensures Waits(input, Used(its, ids), taken, i) {
      assert Waits(input, its, taken, i);
    }
  }

  ghost function Members(w: seq<nat>): set<nat> {
    set i | i in w
  }

  lemma {:induction false} DistinctCount(w: seq<nat>)
    requires Distinct(w)
    ensures |Members(w)| == |w|
  {
    if w == [] {
      assert Members(w) == {};
    } else {
      var n := |w| - 1;
      DistinctCount(w[..n]);
      assert w == w[..n] + [w[n]];
      assert Members(w) == Members(w[..n]) + {w[n]};
    }
  }

  /** The queue has read exactly one pair ahead of every input that is not at its end. */
  ghost predicate ReadAhead(input: Inputs, its: seq<IterState>, taken: seq<nat>) {
    && |its| == |taken| == |input|
    && forall i {:trigger its[i]} :: 0 <= i < |its| ==>
         if its[i].state.NotAvailable? then taken[i] == |input[i]|
         else 0 < taken[i] <= |input[i]| && its[i].pair == input[i][taken[i] - 1]
  }

  /** Where the queue has an input's pair, that pair is the input's head; elsewhere there is
      no pair left. */
  lemma HeadOf(input: Inputs, its: seq<IterState>, taken: seq<nat>, w: seq<nat>, i: nat)
    requires ReadAhead(input, its, taken) && Queued(its, w) && i < |input|
    ensures Within(input, Spent(its, taken))
    ensures i in w <==> Spent(its, taken)[i] < |input[i]|
    ensures i in w ==> its[i].pair == input[i][Spent(its, taken)[i]]
  {
    forall j | 0 <= j < |its| ensures Spent(its, taken)[j] <= |input[j]| {
      assert its[j] == its[j];
    }
  }

  /** The inputs whose head equals the first entry's key are those of the front run. */
  lemma InRun(its: seq<IterState>, w: seq<nat>, n: nat, a: nat)
    requires Queued(its, w) && n < |w| && a < |w|
    requires forall b :: 0 <= b < n ==> its[w[b]].state.AvailableEq?
    requires its[w[n]].state.AvailableLt?
    ensures Rank(its, w[0]) <= Rank(its, w[a])
    ensures Rank(its, w[a]) == Rank(its, w[0]) <==> a <= n
  {
    FrontRun(its, w, n);
    if a > n {
      assert Marked(its, w, n) && Before(its, w, n, n + 1) && (a > n + 1 ==> Before(its, w, n + 1, a));
      assert Rank(its, w[n]) < Rank(its, w[n + 1]) <= Rank(its, w[a]);
    }
  }

  lemma RunHeads(input: Inputs, its: seq<IterState>, taken: seq<nat>, w: seq<nat>, n: nat)
    requires ReadAhead(input, its, taken) && Queued(its, w) && n < |w|
    requires forall a :: 0 <= a < n ==> its[w[a]].state.AvailableEq?
    requires its[w[n]].state.AvailableLt?
    ensures Within(input, Spent(its, taken)) && |Heads(input, Spent(its, taken), Rank(its, w[0]))| == n + 1
  {
    var spent, r := Spent(its, taken), Rank(its, w[0]);
    HeadOf(input, its, taken, w, w[0]);
    forall i: nat | i < |input| ensures i in Heads(input, spent, r) <==> i in w[..n + 1] {
      HeadOf(input, its, taken, w, i);
      assert i in w[..n + 1] ==> i in w;
      if i in w {
        var a: nat :| a < |w| && w[a] == i;
        InRun(its, w, n, a);
        assert i in w[..n + 1] <==> a <= n by {
          SortedDistinct(its, w);
          assert a <= n ==> w[..n + 1][a] == i;
        }
      }
    }
    SortedDistinct(its, w);
    DistinctCount(w[..n + 1]);
    assert Heads(input, spent, r) == Members(w[..n + 1]);
  }

  /** What the queue's front calls for is what a step of the merge should do. */
  lemma CallMeets(input: Inputs, its: seq<IterState>, taken: seq<nat>, w: seq<nat>,
                  merge: (seq<Key>, seq<Value>) -> (nat, Value), call: Call)
    requires ReadAhead(input, its, taken) && Queued(its, w) && CallsFor(call, its, w, merge)
    ensures StepMeets(input, merge, Spent(its, taken), call, Spent(Used(its, call.ids), taken))
  {
    var spent, n := Spent(its, taken), |call.ids|;
    var run := if its[w[0]].state.AvailableLt? then 0 else n;
    assert w[0] in w && !its[w[0]].state.NotAvailable?;
    RunHeads(input, its, taken, w, run);
    forall a | 0 <= a < n
      ensures spent[w[a]] < |input[w[a]]| && call.pairs[a] == input[w[a]][spent[w[a]]]
      ensures Rank(its, w[a]) == Rank(its, w[0])
    {
      HeadOf(input, its, taken, w, w[a]);
      InRun(its, w, run, a);
    }
    forall i | 0 <= i < |input| && spent[i] < |input[i]| ensures Rank(its, w[0]) <= input[i][spent[i]].key.rank {
      HeadOf(input, its, taken, w, i);
      var a :| 0 <= a < |w| && w[a] == i;
      InRun(its, w, run, a);
    }
    SortedDistinct(its, w);
    SpentAfter(input, its, taken, w, n);
  }

  /** The queue's front is in the order of reading. */
  lemma CallInTurn(input: Inputs, its: seq<IterState>, taken: seq<nat>, w: seq<nat>, log: seq<Call>, n: nat,
                   merge: (seq<Key>, seq<Value>) -> (nat, Value), call: Call)
    requires ReadAhead(input, its, taken) && Queued(its, w) && CallsFor(call, its, w, merge) && Turned(its, w, log, n)
    ensures Within(input, Spent(its, taken)) && InTurn(input, Spent(its, taken), log, call)
  {
    var spent := Spent(its, taken);
    HeadOf(input, its, taken, w, w[0]);
    CallRank(its, w, merge, call);
    forall a, b | 0 <= a < b < |call.ids| ensures ReadAfter(log, call.ids[a], call.ids[b]) {
      assert InFront(its, w, log, a, b);
    }
    forall a, i | 0 <= a < |call.ids| && i in Heads(input, spent, call.key.rank) && i !in call.ids
      ensures ReadAfter(log, call.ids[a], i)
    {
      HeadOf(input, its, taken, w, i);
      assert forall c :: 0 <= c < |call.ids| ==> w[c] == call.ids[c];
      var b: nat :| b < |w| && w[b] == i;
      assert InFront(its, w, log, a, b);
    }
  }

  /** The pairs called with share the call's key. */
  lemma CallRank(its: seq<IterState>, w: seq<nat>, merge: (seq<Key>, seq<Value>) -> (nat, Value), call: Call)
    requires Queued(its, w) && CallsFor(call, its, w, merge)
    ensures forall a :: 0 <= a < |call.ids| ==> Rank(its, call.ids[a]) == call.key.rank
  {
    assert w[0] in w && !its[w[0]].state.NotAvailable?;
    if its[w[0]].state.AvailableEq? {
      FrontRun(its, w, |call.ids|);
    }
  }

  lemma SpentAfter(input: Inputs, its: seq<IterState>, taken: seq<nat>, w: seq<nat>, n: nat)
    requires ReadAhead(input, its, taken) && Queued(its, w) && n <= |w|
    ensures var spent, spent' := Spent(its, taken), Spent(Used(its, w[..n]), taken);
            && Within(input, spent')
            && forall i {:trigger spent'[i]} :: 0 <= i < |input| ==> spent'[i] == spent[i] + if i in w[..n] then 1 else 0
  {
    var spent, spent' := Spent(its, taken), Spent(Used(its, w[..n]), taken);
    forall i | 0 <= i < |input| ensures spent'[i] == spent[i] + (if i in w[..n] then 1 else 0) <= |input[i]| {
      HeadOf(input, its, taken, w, i);
      assert i in w[..n] ==> i in w;
    }
  }

  /** How many pairs have not been used up yet. */
  ghost function Unspent(input: Inputs, spent: seq<nat>): nat
    requires Within(input, spent)
  {
    if input == [] then 0 else
      var n := |input| - 1;
      assert |input[n]| - spent[n] >= 0;
      Unspent(input[..n], spent[..n]) + |input[n]| - spent[n]
  }

  lemma {:induction false} UnspentShrinks(input: Inputs, spent: seq<nat>, spent': seq<nat>, id: nat)
    requires Within(input, spent) && Within(input, spent')
    requires forall i :: 0 <= i < |input| ==> spent[i] <= spent'[i]
    requires id < |input| ==> spent[id] < spent'[id]
    ensures Unspent(input, spent') <= Unspent(input, spent)
    ensures id < |input| ==> Unspent(input, spent') < Unspent(input, spent)
  {
    if input != [] {
      var n := |input| - 1;
      UnspentShrinks(input[..n], spent[..n], spent'[..n], id);
    }
  }

  /** Every step uses something up, so there are only so many. */
  lemma StepShrinks(input: Inputs, merge: (seq<Key>, seq<Value>) -> (nat, Value),
                    spent: seq<nat>, call: Call, spent': seq<nat>)
    requires StepMeets(input, merge, spent, call, spent')
    ensures Unspent(input, spent') < Unspent(input, spent)
  {
    var id := call.ids[0];
    assert spent[id] < |input[id]|;
    forall i | 0 <= i < |input| ensures spent'[i] == spent[i] + (if i in call.ids then 1 else 0) {
    }
    UnspentShrinks(input, spent, spent', id);
  }

  /** A run can be extended by a step. */
  lemma RunMore(input: Inputs, merge: (seq<Key>, seq<Value>) -> (nat, Value), log: seq<Call>, spents: seq<seq<nat>>,
                call: Call, spent': seq<nat>)
    requires Run(input, merge, log, spents) && Steps(input, merge, log, spents[|log|], call, spent')
    ensures Run(input, merge, log + [call], spents + [spent'])
  {
    var more := log + [call];
    forall k | 0 <= k < |more| ensures StepAt(input, merge, more, spents + [spent'], k) {
      assert more[..k] == log[..k];
      assert k < |log| ==> more[k] == log[k] && StepAt(input, merge, log, spents, k);
      assert log[..|log|] == log;
    }
  }

  ghost predicate StepAt(input: Inputs, merge: (seq<Key>, seq<Value>) -> (nat, Value), log: seq<Call>,
                         spents: seq<seq<nat>>, k: nat)
    requires |spents| == |log| + 1 && k < |log|
  {
    Steps(input, merge, log[..k], spents[k], log[k], spents[k + 1])
  }

  /** A run of steps from the start. */
  ghost predicate Run(input: Inputs, merge: (seq<Key>, seq<Value>) -> (nat, Value), log: seq<Call>, spents: seq<seq<nat>>) {
    && |spents| == |log| + 1
    && Within(input, spents[0]) && (forall i :: 0 <= i < |input| ==> spents[0][i] == 0)
    && (forall k {:trigger StepAt(input, merge, log, spents, k)} :: 0 <= k < |log| ==> StepAt(input, merge, log, spents, k))
  }

  // ----- What is passed on -----

  /** These are the pairs at the heads of the inputs a call uses, one argument each. */
  ghost predicate Arguments(input: Inputs, spent: seq<nat>, call: Call, ks: seq<Key>, vs: seq<Value>) {
    && Within(input, spent) && |ks| == |vs| == |call.ids|
    && forall a {:trigger call.ids[a]} :: 0 <= a < |call.ids| ==>
         var id := call.ids[a];
         id < |input| && spent[id] < |input[id]| && Pair(ks[a], vs[a]) == input[id][spent[id]]
  }

  /** What a call passes on is the key that the merge callback chooses among those, and the value
      it gives. */
  ghost predicate PassesMerged(call: Call, merge: (seq<Key>, seq<Value>) -> (nat, Value), ks: seq<Key>, vs: seq<Value>) {
    var m := merge(ks, vs);
    m.0 < |ks| && call.key == ks[m.0] && call.value == m.1
  }

  /** Of several heads with the smallest key, the merge callback gets key and value of each that
      the call uses, in the call's order. */
  lemma MergeArguments(input: Inputs, merge: (seq<Key>, seq<Value>) -> (nat, Value), spent: seq<nat>, call: Call, spent': seq<nat>)
    returns (ks: seq<Key>, vs: seq<Value>)
    requires StepMeets(input, merge, spent, call, spent')
    ensures Arguments(input, spent, call, ks, vs)
    ensures if |Heads(input, spent, call.key.rank)| > 1 then PassesMerged(call, merge, ks, vs)
            else ks == [call.key] && vs == [call.value]
  {
    ks, vs := Keys(call.pairs), Values(call.pairs);
    HeadThere(input, merge, spent, call, spent');
    if |Heads(input, spent, call.key.rank)| == 1 {
      assert ks[0] == call.key && vs[0] == call.value;
    }
  }

  /** The merge callback chooses one of the pairs it is given. */
  ghost predicate Honest(merge: (seq<Key>, seq<Value>) -> (nat, Value)) {
    forall ks, vs {:trigger merge(ks, vs)} :: |ks| == |vs| > 0 ==> merge(ks, vs).0 < |ks| && merge(ks, vs).1 == vs[merge(ks, vs).0]
  }

  /** Then every call passes on one of the heads it uses. */
  lemma PassesOwn(input: Inputs, merge: (seq<Key>, seq<Value>) -> (nat, Value), log: seq<Call>, spents: seq<seq<nat>>, k: nat)
    returns (i: nat)
    requires Honest(merge) && Run(input, merge, log, spents) && k < |log|
    ensures Within(input, spents[k]) && i in log[k].ids && i < |input| && spents[k][i] < |input[i]|
    ensures Pair(log[k].key, log[k].value) == input[i][spents[k][i]]
  {
    assert StepAt(input, merge, log, spents, k);
    var ks, vs := MergeArguments(input, merge, spents[k], log[k], spents[k + 1]);
    var a := if |Heads(input, spents[k], log[k].key.rank)| > 1 then merge(ks, vs).0 else 0;
    i := log[k].ids[a];
    assert Pair(ks[a], vs[a]) == input[i][spents[k][i]];
  }

  /** It always chooses the same place, or the last where there are fewer. */
  ghost predicate ChoosesPlace(merge: (seq<Key>, seq<Value>) -> (nat, Value), a: nat) {
    forall ks, vs {:trigger merge(ks, vs)} :: |ks| == |vs| > 0 ==>
      var m := if a < |ks| then a else |ks| - 1; merge(ks, vs) == (m, vs[m])
  }

  /** Then every call passes on the head of the input at that place. */
  lemma PassesPlace(input: Inputs, merge: (seq<Key>, seq<Value>) -> (nat, Value), log: seq<Call>, spents: seq<seq<nat>>,
                    k: nat, a: nat)
    requires ChoosesPlace(merge, a) && Run(input, merge, log, spents) && k < |log|
    ensures var ids := log[k].ids;
            && |ids| > 0 && Within(input, spents[k])
            && var id := ids[if a < |ids| then a else |ids| - 1];
               id < |input| && spents[k][id] < |input[id]| && Pair(log[k].key, log[k].value) == input[id][spents[k][id]]
  {
    assert StepAt(input, merge, log, spents, k);
    var ks, vs := MergeArguments(input, merge, spents[k], log[k], spents[k + 1]);
    var m := if a < |ks| then a else |ks| - 1;
    assert Pair(ks[m], vs[m]) == input[log[k].ids[m]][spents[k][log[k].ids[m]]];
  }

  // ----- Conservation -----

  /** The pairs of input i that a log uses up, in the order it does. */
  ghost function Consumed(log: seq<Call>, i: nat): seq<Pair> {
    if log == [] then [] else
      var call := log[|log| - 1];
      Consumed(log[..|log| - 1], i) + ConsumedBy(call, i)
  }

  ghost function ConsumedBy(call: Call, i: nat): seq<Pair> {
    if exists a :: 0 <= a < |call.ids| && a < |call.pairs| && call.ids[a] == i
    then (var a :| 0 <= a < |call.ids| && a < |call.pairs| && call.ids[a] == i; [call.pairs[a]])
    else []
  }

  /** Conservation: at any point of a run, exactly the spent pairs of each input have been
      consumed, once each and in order. */
  lemma {:induction false} Conserving(input: Inputs, merge: (seq<Key>, seq<Value>) -> (nat, Value),
                                      log: seq<Call>, spents: seq<seq<nat>>, i: nat)
    requires Run(input, merge, log, spents) && i < |input|
    ensures Within(input, spents[|log|])
    ensures Consumed(log, i) == input[i][..spents[|log|][i]]
  {
    if log != [] {
      var n := |log| - 1;
      RunPrefix(input, merge, log, spents);
      Conserving(input, merge, log[..n], spents[..n + 1], i);
      assert StepAt(input, merge, log, spents, n);
      var call, p := log[n], spents[n][i];
      if i in call.ids {
        var a :| 0 <= a < |call.ids| && call.ids[a] == i;
        assert ConsumedBy(call, i) == [input[i][p]];
        assert input[i][..p + 1] == input[i][..p] + [input[i][p]];
      } else {
        assert ConsumedBy(call, i) == [];
      }
    }
  }

  lemma RunPrefix(input: Inputs, merge: (seq<Key>, seq<Value>) -> (nat, Value), log: seq<Call>, spents: seq<seq<nat>>)
    requires Run(input, merge, log, spents) && log != []
    ensures Run(input, merge, log[..|log| - 1], spents[..|log|])
  {
    var log', spents' := log[..|log| - 1], spents[..|log|];
    forall k | 0 <= k < |log'| ensures StepAt(input, merge, log', spents', k) {
      assert log'[..k] == log[..k];
      assert StepAt(input, merge, log, spents, k);
    }
  }

  ghost predicate AllAscending(input: Inputs) {
    forall i :: 0 <= i < |input| ==> Ascending(input[i])
  }

  /** What is spent later, at any head, is not smaller. */
  lemma StepBelow(input: Inputs, merge: (seq<Key>, seq<Value>) -> (nat, Value),
                  spent: seq<nat>, call: Call, spent': seq<nat>, i: nat, t: nat)
    requires AllAscending(input) && StepMeets(input, merge, spent, call, spent')
    requires i < |input| && spent[i] <= t < |input[i]|
    ensures call.key.rank <= input[i][t].key.rank
    ensures spent'[i] <= t && i in call.ids ==> call.key.rank < input[i][t].key.rank
  {
    assert call.key.rank <= input[i][spent[i]].key.rank;
    assert Ascending(input[i]);
    assert t > spent[i] ==> input[i][spent[i]].key.rank < input[i][t].key.rank;
    assert spent'[i] == spent[i] + if i in call.ids then 1 else 0;
  }

  /** Spending only ever grows. */
  lemma {:induction false} SpentGrows(input: Inputs, merge: (seq<Key>, seq<Value>) -> (nat, Value),
                                      log: seq<Call>, spents: seq<seq<nat>>, j: nat, k: nat, i: nat)
    requires Run(input, merge, log, spents) && j <= k <= |log| && i < |input|
    ensures Within(input, spents[j]) && Within(input, spents[k]) && spents[j][i] <= spents[k][i]
    decreases k - j
  {
    if j > 0 {
      assert StepAt(input, merge, log, spents, j - 1);
    }
    if j < k {
      assert StepAt(input, merge, log, spents, j);
      SpentGrows(input, merge, log, spents, j + 1, k, i);
      assert spents[j + 1][i] == spents[j][i] + if i in log[j].ids then 1 else 0;
    }
  }

  /** When input i's pair t has been spent, some step used it. */
  lemma {:induction false} UsedBy(input: Inputs, merge: (seq<Key>, seq<Value>) -> (nat, Value),
                                  log: seq<Call>, spents: seq<seq<nat>>, i: nat, t: nat, n: nat) returns (k: nat)
    requires Run(input, merge, log, spents) && i < |input| && n <= |log|
    requires Within(input, spents[n]) && t < spents[n][i]
    ensures k < n && StepAt(input, merge, log, spents, k)
    ensures i in log[k].ids && spents[k][i] == t && log[k].key.rank == input[i][t].key.rank
  {
    k := n - 1;
    assert StepAt(input, merge, log, spents, k);
    assert spents[n][i] == spents[k][i] + if i in log[k].ids then 1 else 0;
    if t < spents[k][i] {
      k := UsedBy(input, merge, log, spents, i, t, k);
    } else {
      var a :| 0 <= a < |log[k].ids| && log[k].ids[a] == i;
      assert log[k].pairs[a] == input[i][t];
    }
  }

  /** What merging several heads leaves over. */
  lemma OneLeft(input: Inputs, merge: (seq<Key>, seq<Value>) -> (nat, Value), spent: seq<nat>, call: Call, spent': seq<nat>)
    returns (x: nat)
    requires StepMeets(input, merge, spent, call, spent') && |Heads(input, spent, call.key.rank)| > 1
    ensures x !in call.ids && Heads(input, spent, call.key.rank) == Members(call.ids) + {x}
  {
    var heads, used := Heads(input, spent, call.key.rank), Members(call.ids);
    assert used <= heads by {
      forall i | i in used ensures i in heads {
        var a :| 0 <= a < |call.ids| && call.ids[a] == i;
        assert call.pairs[a].key.rank == call.key.rank;
      }
    }
    DistinctCount(call.ids);
    assert |heads - used| == 1;
    x := Singleton(heads - used);
  }

  /** A key that two inputs hold reaches the fold callback twice, whether the inputs ascend or
      not: where one call merges both pairs, another passes on what it leaves over. */
  lemma SameTwice(input: Inputs, merge: (seq<Key>, seq<Value>) -> (nat, Value), log: seq<Call>, spents: seq<seq<nat>>,
                  i: nat, a: nat, j: nat, b: nat) returns (k: nat, m: nat)
    requires Run(input, merge, log, spents) && AllSpent(input, spents[|log|])
    requires i < |input| && j < |input| && i != j && a < |input[i]| && b < |input[j]|
    requires input[i][a].key.rank == input[j][b].key.rank
    ensures k < m < |log| && log[k].key.rank == log[m].key.rank == input[i][a].key.rank
  {
    k := UsedBy(input, merge, log, spents, i, a, |log|);
    m := UsedBy(input, merge, log, spents, j, b, |log|);
    if k == m {
      DistinctPair(log[k].ids, i, j);
      var x := OneLeft(input, merge, spents[k], log[k], spents[k + 1]);
      assert x in Heads(input, spents[k], log[k].key.rank);
      m := UsedBy(input, merge, log, spents, x, spents[k][x], |log|);
    }
    if m < k {
      k, m := m, k;
    }
  }

  lemma DistinctPair(w: seq<nat>, i: nat, j: nat)
    requires i in w && j in w && i != j
    ensures |w| > 1
  {
  }

  /** Order: folding inputs that ascend, keys reach the fold callback in non-decreasing
      order. */
  lemma Ordered(input: Inputs, merge: (seq<Key>, seq<Value>) -> (nat, Value),
                log: seq<Call>, spents: seq<seq<nat>>, j: nat, k: nat)
    requires AllAscending(input) && Run(input, merge, log, spents) && j < k < |log|
    ensures log[j].key.rank <= log[k].key.rank
  {
    assert StepAt(input, merge, log, spents, k);
    assert StepAt(input, merge, log, spents, j);
    var id := log[k].ids[0];
    SpentGrows(input, merge, log, spents, j, k, id);
    StepBelow(input, merge, spents[j], log[j], spents[j + 1], id, spents[k][id]);
  }

  /** A step leaves none of the heads equal to its key where there was one, and exactly one
      where there were several. */
  lemma HeadsAfter(input: Inputs, merge: (seq<Key>, seq<Value>) -> (nat, Value), spent: seq<nat>, call: Call, spent': seq<nat>)
    requires AllAscending(input) && StepMeets(input, merge, spent, call, spent')
    ensures Members(call.ids) <= Heads(input, spent, call.key.rank)
    ensures Heads(input, spent', call.key.rank) == Heads(input, spent, call.key.rank) - Members(call.ids)
    ensures |Heads(input, spent', call.key.rank)| == if |Heads(input, spent, call.key.rank)| == 1 then 0 else 1
  {
    var r := call.key.rank;
    var before, after, used := Heads(input, spent, r), Heads(input, spent', r), Members(call.ids);
    forall i | i in used ensures i in before && i !in after {
      var a :| 0 <= a < |call.ids| && call.ids[a] == i;
      assert call.pairs[a].key.rank == r;
      assert spent'[i] == spent[i] + 1;
      if spent'[i] < |input[i]| {
        StepBelow(input, merge, spent, call, spent', i, spent'[i]);
      }
    }
    forall i: nat | i < |input| && i !in used ensures i in before <==> i in after {
      assert spent'[i] == spent[i];
    }
    DistinctCount(call.ids);
    assert after == before - used;
  }

  /** Whose key is at how many heads: a step calls with a head of its own key's rank. */
  lemma HeadThere(input: Inputs, merge: (seq<Key>, seq<Value>) -> (nat, Value), spent: seq<nat>, call: Call, spent': seq<nat>)
    requires StepMeets(input, merge, spent, call, spent')
    ensures Heads(input, spent, call.key.rank) != {}
  {
    var id := call.ids[0];
    assert call.pairs[0].key.rank == call.key.rank;
    assert id in Heads(input, spent, call.key.rank);
  }

  /** Several heads with the smallest key take two calls: one merges all of them but the one
      read first, and the very next passes that one on as it is, after which the key is used
      up. */
  lemma LeftOver(input: Inputs, merge: (seq<Key>, seq<Value>) -> (nat, Value), log: seq<Call>, spent: seq<nat>, call: Call,
                 spent': seq<nat>, next: Call, spent'': seq<nat>)
    requires AllAscending(input)
    requires Steps(input, merge, log, spent, call, spent') && StepMeets(input, merge, spent', next, spent'')
    requires |Heads(input, spent, call.key.rank)| > 1
    ensures next.key.rank == call.key.rank && |next.ids| == 1 && Pair(next.key, next.value) == next.pairs[0]
    ensures Heads(input, spent, call.key.rank) == Members(call.ids) + {next.ids[0]} && next.ids[0] !in call.ids
    ensures forall a :: 0 <= a < |call.ids| ==> ReadAfter(log, call.ids[a], next.ids[0])
    ensures Heads(input, spent'', call.key.rank) == {}
  {
    var r := call.key.rank;
    HeadsAfter(input, merge, spent, call, spent');
    var i := Singleton(Heads(input, spent', r));
    SameKeyNext(input, merge, spent, call, spent', next, spent'', i);
    HeadsAfter(input, merge, spent', next, spent'');
    assert next.ids[0] in Members(next.ids);
  }

  lemma Singleton(s: set<nat>) returns (i: nat)
    requires |s| == 1
    ensures s == {i}
  {
    i :| i in s;
    assert |s - {i}| == 0;
  }

  lemma SameKeyNext(input: Inputs, merge: (seq<Key>, seq<Value>) -> (nat, Value), spent: seq<nat>, call: Call,
                    spent': seq<nat>, next: Call, spent'': seq<nat>, i: nat)
    requires AllAscending(input) && i < |input|
    requires StepMeets(input, merge, spent, call, spent') && StepMeets(input, merge, spent', next, spent'')
    requires i in Heads(input, spent', call.key.rank)
    ensures next.key.rank == call.key.rank
  {
    assert next.key.rank <= input[i][spent'[i]].key.rank;
    var id := next.ids[0];
    assert next.pairs[0].key.rank == next.key.rank;
    assert spent'[id] == spent[id] + if id in call.ids then 1 else 0;
    StepBelow(input, merge, spent, call, spent', id, spent'[id]);
  }

  /** After two calls with the same key there is no head left for a third. */
  lemma UsedUpAfterTwo(input: Inputs, merge: (seq<Key>, seq<Value>) -> (nat, Value),
                       log: seq<Call>, spents: seq<seq<nat>>, j: nat)
    requires AllAscending(input) && Run(input, merge, log, spents) && j + 1 < |log|
    requires log[j].key.rank == log[j + 1].key.rank
    ensures Within(input, spents[j + 2]) && Heads(input, spents[j + 2], log[j].key.rank) == {}
  {
    assert StepAt(input, merge, log, spents, j) && StepAt(input, merge, log, spents, j + 1);
    HeadsAfter(input, merge, spents[j], log[j], spents[j + 1]);
    HeadsAfter(input, merge, spents[j + 1], log[j + 1], spents[j + 2]);
    HeadThere(input, merge, spents[j + 1], log[j + 1], spents[j + 2]);
  }

  /** So each key reaches the fold callback at most twice, in adjacent calls. */
  lemma AtMostTwice(input: Inputs, merge: (seq<Key>, seq<Value>) -> (nat, Value),
                    log: seq<Call>, spents: seq<seq<nat>>, j: nat, k: nat)
    requires AllAscending(input) && Run(input, merge, log, spents) && j + 1 < k < |log|
    ensures log[j].key.rank < log[k].key.rank
  {
    Ordered(input, merge, log, spents, j, j + 1);
    Ordered(input, merge, log, spents, j + 1, j + 2);
    if j + 2 < k {
      Ordered(input, merge, log, spents, j + 2, k);
    }
    if log[j].key.rank == log[j + 1].key.rank {
      UsedUpAfterTwo(input, merge, log, spents, j);
      assert StepAt(input, merge, log, spents, j + 2);
      HeadThere(input, merge, spents[j + 2], log[j + 2], spents[j + 3]);
    }
  }

  ghost predicate Again(log: seq<Call>, j: nat)
    requires j < |log|
  {
    j + 1 < |log| && log[j].key.rank == log[j + 1].key.rank
  }

  /** A call is followed by another with the same key exactly when several heads had it. */
  lemma AgainIff(input: Inputs, merge: (seq<Key>, seq<Value>) -> (nat, Value),
                 log: seq<Call>, spents: seq<seq<nat>>, j: nat)
    requires AllAscending(input) && Run(input, merge, log, spents) && AllSpent(input, spents[|log|]) && j < |log|
    ensures Within(input, spents[j])
    ensures Again(log, j) <==> |Heads(input, spents[j], log[j].key.rank)| > 1
  {
    assert StepAt(input, merge, log, spents, j);
    HeadThere(input, merge, spents[j], log[j], spents[j + 1]);
    HeadsAfter(input, merge, spents[j], log[j], spents[j + 1]);
    if j + 1 < |log| {
      assert StepAt(input, merge, log, spents, j + 1);
      HeadThere(input, merge, spents[j + 1], log[j + 1], spents[j + 2]);
      if |Heads(input, spents[j], log[j].key.rank)| > 1 {
        LeftOver(input, merge, log[..j], spents[j], log[j], spents[j + 1], log[j + 1], spents[j + 2]);
      }
    } else {
      assert Heads(input, spents[j + 1], log[j].key.rank) == {};
    }
  }

  ghost predicate CalledTwice(log: seq<Call>, rank: int) {
    exists j, k {:trigger log[j], log[k]} :: 0 <= j < k < |log| && log[j].key.rank == rank && log[k].key.rank == rank
  }

  ghost predicate Holds(input: Inputs, i: nat, rank: int)
    requires i < |input|
  {
    exists a :: 0 <= a < |input[i]| && input[i][a].key.rank == rank
  }

  ghost predicate HeldTwice(input: Inputs, rank: int) {
    exists i, j {:trigger Holds(input, i, rank), Holds(input, j, rank)} ::
      0 <= i < j < |input| && Holds(input, i, rank) && Holds(input, j, rank)
  }

  /** A key reaches the fold callback twice exactly when two inputs hold it. */
  lemma TwiceIff(input: Inputs, merge: (seq<Key>, seq<Value>) -> (nat, Value),
                 log: seq<Call>, spents: seq<seq<nat>>, rank: int)
    requires AllAscending(input) && Run(input, merge, log, spents) && AllSpent(input, spents[|log|])
    ensures CalledTwice(log, rank) <==> HeldTwice(input, rank)
  {
    if HeldTwice(input, rank) {
      var i: nat, j: nat :| i < j < |input| && Holds(input, i, rank) && Holds(input, j, rank);
      var a: nat :| a < |input[i]| && input[i][a].key.rank == rank;
      var b: nat :| b < |input[j]| && input[j][b].key.rank == rank;
      var k, m := SameTwice(input, merge, log, spents, i, a, j, b);
    }
    if CalledTwice(log, rank) {
      var j: nat, k: nat :| j < k < |log| && log[j].key.rank == rank && log[k].key.rank == rank;
      HeldByTwo(input, merge, log, spents, j, k);
    }
  }

  lemma HeldByTwo(input: Inputs, merge: (seq<Key>, seq<Value>) -> (nat, Value),
                  log: seq<Call>, spents: seq<seq<nat>>, j: nat, k: nat)
    requires AllAscending(input) && Run(input, merge, log, spents) && j < k < |log|
    requires log[j].key.rank == log[k].key.rank
    ensures HeldTwice(input, log[j].key.rank)
  {
    assert StepAt(input, merge, log, spents, j) && StepAt(input, merge, log, spents, k);
    var x, y, r := log[j].ids[0], log[k].ids[0], log[j].key.rank;
    assert log[j].pairs[0] == input[x][spents[j][x]] && log[k].pairs[0] == input[y][spents[k][y]];
    SpentGrows(input, merge, log, spents, j + 1, k, y);
    assert spents[j + 1][x] == spents[j][x] + 1;
    assert Ascending(input[x]);
    assert Holds(input, x, r) && Holds(input, y, r);
  }

  ghost function TwoEqual(): Inputs {
    [[Pair(Key(0, 1), Null)], [Pair(Key(0, 2), Null)]]
  }

  lemma TwoEqualHeads(spent: seq<nat>)
    requires Within(TwoEqual(), spent)
    ensures spent[0] <= 1 && spent[1] <= 1
    ensures |Heads(TwoEqual(), spent, 0)| == 2 - spent[0] - spent[1]
  {
    assert |TwoEqual()[0]| == 1 && |TwoEqual()[1]| == 1;
    var heads := Heads(TwoEqual(), spent, 0);
    assert heads == (if spent[0] == 0 then {0} else {}) + (if spent[1] == 0 then {1} else {});
  }

  lemma TwoEqualStep(merge: (seq<Key>, seq<Value>) -> (nat, Value), spent: seq<nat>, call: Call, spent': seq<nat>)
    requires StepMeets(TwoEqual(), merge, spent, call, spent')
    ensures call.key.rank == 0
    ensures |spent| == |spent'| == 2 && spent[0] + spent[1] < 2
    ensures spent'[0] + spent'[1] == spent[0] + spent[1] + 1
  {
    var id := call.ids[0];
    assert call.pairs[0] == TwoEqual()[id][spent[id]];
    TwoEqualHeads(spent);
    assert call.ids == [id];
    assert spent'[0] == spent[0] + if 0 in call.ids then 1 else 0;
    assert spent'[1] == spent[1] + if 1 in call.ids then 1 else 0;
  }

  /** So it is not one call per distinct key: two inputs of one pair each, with equal keys,
      make for two calls. */
  lemma NotOncePerKey(merge: (seq<Key>, seq<Value>) -> (nat, Value), log: seq<Call>, spents: seq<seq<nat>>)
    requires Run(TwoEqual(), merge, log, spents) && AllSpent(TwoEqual(), spents[|log|])
    ensures |log| == 2 && log[0].key.rank == log[1].key.rank
  {
    assert AllSpent(TwoEqual(), spents[|log|]) && |TwoEqual()[0]| == 1;
    if log != [] {
      assert StepAt(TwoEqual(), merge, log, spents, 0);
      TwoEqualStep(merge, spents[0], log[0], spents[1]);
    }
    if |log| > 1 {
      assert StepAt(TwoEqual(), merge, log, spents, 1);
      TwoEqualStep(merge, spents[1], log[1], spents[2]);
    }
    if |log| > 2 {
      assert StepAt(TwoEqual(), merge, log, spents, 2);
      TwoEqualStep(merge, spents[2], log[2], spents[3]);
    }
  }

  // ----- Without equal keys -----

  /** What reaches the fold callback. */
  ghost function Outputs(log: seq<Call>): (s: seq<Pair>)
    ensures |s| == |log| && forall k :: 0 <= k < |log| ==> s[k] == Pair(log[k].key, log[k].value)
  {
    seq(|log|, k requires 0 <= k < |log| => Pair(log[k].key, log[k].value))
  }

  /** No key of one input equals a key of another. */
  ghost predicate Disjoint(input: Inputs) {
    forall i, j, a, b :: 0 <= i < |input| && 0 <= j < |input| && i != j && 0 <= a < |input[i]| && 0 <= b < |input[j]| ==>
      input[i][a].key.rank != input[j][b].key.rank
  }

  /** Where no two inputs have equal keys, nothing is merged: each step passes on one pair. */
  lemma StepPlain(input: Inputs, merge: (seq<Key>, seq<Value>) -> (nat, Value),
                  spent: seq<nat>, call: Call, spent': seq<nat>) returns (id: nat)
    requires Disjoint(input) && StepMeets(input, merge, spent, call, spent')
    ensures id < |input| && call.ids == [id] && spent[id] < |input[id]|
    ensures Pair(call.key, call.value) == call.pairs[0] == input[id][spent[id]]
  {
    id := call.ids[0];
    var heads := Heads(input, spent, call.key.rank);
    assert call.pairs[0].key.rank == call.key.rank;
    assert heads == {id} by {
      forall i | i in heads ensures i == id {
        assert input[i][spent[i]].key.rank == input[id][spent[id]].key.rank;
      }
    }
    assert |heads| == 1;
  }

  /** Disjoint inputs give exactly their sorted merge. */
  lemma SortedMerge(input: Inputs, merge: (seq<Key>, seq<Value>) -> (nat, Value), log: seq<Call>, spents: seq<seq<nat>>)
    requires AllAscending(input) && Disjoint(input) && Run(input, merge, log, spents)
    requires AllSpent(input, spents[|log|])
    ensures Ascending(Outputs(log))
    ensures forall p :: p in Outputs(log) <==> exists i :: 0 <= i < |input| && p in input[i]
  {
    var out := Outputs(log);
    forall j, k | 0 <= j < k < |out| ensures out[j].key.rank < out[k].key.rank {
      StrictlyOrdered(input, merge, log, spents, j, k);
    }
    forall p | p in out ensures exists i :: 0 <= i < |input| && p in input[i] {
      var k :| 0 <= k < |out| && out[k] == p;
      assert StepAt(input, merge, log, spents, k);
      var id := StepPlain(input, merge, spents[k], log[k], spents[k + 1]);
      assert p in input[id];
    }
    forall p, i | 0 <= i < |input| && p in input[i] ensures p in out {
      var t: nat :| t < |input[i]| && input[i][t] == p;
      var k := UsedBy(input, merge, log, spents, i, t, |log|);
      var id := StepPlain(input, merge, spents[k], log[k], spents[k + 1]);
      assert out[k] == p;
    }
  }

  lemma StrictlyOrdered(input: Inputs, merge: (seq<Key>, seq<Value>) -> (nat, Value),
                        log: seq<Call>, spents: seq<seq<nat>>, j: nat, k: nat)
    requires AllAscending(input) && Disjoint(input) && Run(input, merge, log, spents) && j < k < |log|
    ensures log[j].key.rank < log[k].key.rank
  {
    assert StepAt(input, merge, log, spents, j);
    assert StepAt(input, merge, log, spents, k);
    var a := StepPlain(input, merge, spents[j], log[j], spents[j + 1]);
    var b := StepPlain(input, merge, spents[k], log[k], spents[k + 1]);
    SpentGrows(input, merge, log, spents, j + 1, k, b);
    SpentGrows(input, merge, log, spents, j, j + 1, b);
    StepBelow(input, merge, spents[j], log[j], spents[j + 1], b, spents[k][b]);
    if a == b {
      assert spents[j + 1][b] == spents[j][b] + if b in log[j].ids then 1 else 0;
    }
  }

  /** Inputs are disjoint exactly when no key reaches the fold callback twice. */
  lemma DisjointIff(input: Inputs, merge: (seq<Key>, seq<Value>) -> (nat, Value), log: seq<Call>, spents: seq<seq<nat>>)
    requires AllAscending(input) && Run(input, merge, log, spents) && AllSpent(input, spents[|log|])
    ensures Ascending(Outputs(log)) <==> Disjoint(input)
  {
    if Disjoint(input) {
      SortedMerge(input, merge, log, spents);
    }
    if Ascending(Outputs(log)) {
      var out := Outputs(log);
      assert forall k, m {:trigger log[k], log[m]} :: 0 <= k < m < |log| ==> out[k].key.rank < out[m].key.rank;
      forall i, j, a, b | 0 <= i < |input| && 0 <= j < |input| && i != j && 0 <= a < |input[i]| && 0 <= b < |input[j]|
        ensures input[i][a].key.rank != input[j][b].key.rank
      {
        if input[i][a].key.rank == input[j][b].key.rank {
          var k, m := SameTwice(input, merge, log, spents, i, a, j, b);
          assert false;
        }
      }
    }
  }

  lemma AllConsumed(input: Inputs, merge: (seq<Key>, seq<Value>) -> (nat, Value), log: seq<Call>, spents: seq<seq<nat>>)
    requires Run(input, merge, log, spents) && AllSpent(input, spents[|log|])
    ensures forall i {:trigger Consumed(log, i)} :: 0 <= i < |input| ==> Consumed(log, i) == input[i]
  {
    forall i | 0 <= i < |input| ensures Consumed(log, i) == input[i] {
      Conserving(input, merge, log, spents, i);
      assert input[i][..|input[i]|] == input[i];
    }
  }

  /** What a whole fold over ascending inputs amounts to. */
  ghost predicate Merging(input: Inputs, log: seq<Call>) {
    && (forall i {:trigger Consumed(log, i)} :: 0 <= i < |input| ==> Consumed(log, i) == input[i])
    && (forall j, k {:trigger log[j], log[k]} :: 0 <= j < k < |log| ==> log[j].key.rank <= log[k].key.rank)
    && (forall j, k {:trigger log[j], log[k]} :: 0 <= j && j + 1 < k < |log| ==> log[j].key.rank < log[k].key.rank)
    && (forall rank {:trigger CalledTwice(log, rank)} :: CalledTwice(log, rank) <==> HeldTwice(input, rank))
    && (Ascending(Outputs(log)) <==> Disjoint(input))
    && (Disjoint(input) ==> forall p :: p in Outputs(log) <==> exists i :: 0 <= i < |input| && p in input[i])
  }

  lemma MergingAll(input: Inputs, merge: (seq<Key>, seq<Value>) -> (nat, Value), log: seq<Call>, spents: seq<seq<nat>>)
    requires AllAscending(input) && Run(input, merge, log, spents) && AllSpent(input, spents[|log|])
    ensures Merging(input, log)
  {
    AllConsumed(input, merge, log, spents);
    forall j, k | 0 <= j < k < |log| ensures log[j].key.rank <= log[k].key.rank {
      Ordered(input, merge, log, spents, j, k);
    }
    forall j, k | 0 <= j && j + 1 < k < |log| ensures log[j].key.rank < log[k].key.rank {
      AtMostTwice(input, merge, log, spents, j, k);
    }
    forall rank ensures CalledTwice(log, rank) <==> HeldTwice(input, rank) {
      TwiceIff(input, merge, log, spents, rank);
    }
    DisjointIff(input, merge, log, spents);
    if Disjoint(input) {
      SortedMerge(input, merge, log, spents);
    }
  }

  /** A fold over one input, in whichever direction, passes on its pairs one by one. */
  lemma {:induction false} OneInput(input: Inputs, merge: (seq<Key>, seq<Value>) -> (nat, Value),
                                    log: seq<Call>, spents: seq<seq<nat>>)
    requires |input| == 1 && Run(input, merge, log, spents)
    ensures Within(input, spents[|log|]) && spents[|log|][0] == |log|
    ensures Outputs(log) == input[0][..|log|]
  {
    if log != [] {
      var n := |log| - 1;
      RunPrefix(input, merge, log, spents);
      OneInput(input, merge, log[..n], spents[..n + 1]);
      assert StepAt(input, merge, log, spents, n);
      var id := StepPlain(input, merge, spents[n], log[n], spents[n + 1]);
      assert spents[n + 1][0] == spents[n][0] + if 0 in log[n].ids then 1 else 0;
      assert Outputs(log) == Outputs(log[..n]) + [input[0][n]];
    }
  }
}
