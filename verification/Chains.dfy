/** Where each level's links must point, as a function of the level-0 chain and of the
    nodes' fixed heights alone. */
module Chains {
  import opened Pairs
  import opened Nodes

  ghost predicate IsNext(c: seq<Node>, i: nat, l: nat, r: nat) {
    && i <= r <= |c|
    && (r < |c| ==> l < c[r].height)
    && (forall j {:trigger c[j].height} :: i <= j < r ==> c[j].height <= l)
  }

  lemma {:induction false} NextExists(c: seq<Node>, i: nat, l: nat)
    requires i <= |c|
    ensures exists r: nat :: IsNext(c, i, l, r)
    decreases |c| - i
  {
    if i == |c| || l < c[i].height {
      assert IsNext(c, i, l, i);
    } else {
      NextExists(c, i + 1, l);
      var r: nat :| IsNext(c, i + 1, l, r);
      assert IsNext(c, i, l, r);
    }
  }

  /** Index of the first node from i on that is taller than level l, or the chain's
      length when there is none. */
  ghost function Next(c: seq<Node>, i: nat, l: nat): (r: nat)
    requires i <= |c|
    ensures IsNext(c, i, l, r)
  {
    NextExists(c, i, l);
    var r: nat :| IsNext(c, i, l, r);
    r
  }

  ghost function At(c: seq<Node>, i: nat): Node? {
    if i < |c| then c[i] else null
  }

  /** The node that a link at level l leads to, from just before index i. */
  ghost function LinkFrom(c: seq<Node>, i: nat, l: nat): Node?
    requires i <= |c|
  {
    At(c, Next(c, i, l))
  }

  ghost predicate Distinct<T>(c: seq<T>) {
    forall i, j :: 0 <= i < j < |c| ==> c[i] != c[j]
  }

  lemma RemovedMembers<T>(s: seq<T>, k: nat)
    requires Distinct(s) && k < |s|
    ensures forall o :: o in Removed(s, k) <==> o in s && o != s[k]
  {
    var t := Removed(s, k);
    forall o | o in s && o != s[k] ensures o in t {
      var j :| 0 <= j < |s| && s[j] == o;
      assert t[if j < k then j else j - 1] == o;
    }
  }

  lemma NextIs(c: seq<Node>, i: nat, l: nat, r: nat)
    requires i <= r <= |c|
    requires r < |c| ==> l < c[r].height
    requires forall j :: i <= j < r ==> c[j].height <= l
    ensures Next(c, i, l) == r
  {
    var q := Next(c, i, l);
    assert q < |c| ==> l < c[q].height;
  }

  /** A lower level's link leads no further. */
  lemma NextLower(c: seq<Node>, i: nat, l: nat, m: nat)
    requires i <= |c| && m <= l
    ensures Next(c, i, m) <= Next(c, i, l)
  {
    var r := Next(c, i, l);
    assert r < |c| ==> l < c[r].height;
  }

  lemma NextGround(c: seq<Node>, i: nat)
    requires i <= |c| && forall j :: i <= j < |c| ==> 1 <= c[j].height
    ensures Next(c, i, 0) == i
  {
    NextIs(c, i, 0, i);
  }

  /** Indices skipped by a link lead to the same place. */
  lemma NextSkips(c: seq<Node>, i: nat, j: nat, l: nat)
    requires i <= |c| && i <= j <= Next(c, i, l)
    ensures Next(c, j, l) == Next(c, i, l)
  {
    NextIs(c, j, l, Next(c, i, l));
  }

  /** How links change when x enters the chain at index k: those from before k that
      pointed at or past k now lead to x if x is tall enough; the others stay. */
  lemma LinkInserted(c: seq<Node>, k: nat, x: Node, i: nat, l: nat)
    requires k <= |c| && i <= |c|
    ensures i <= k ==> LinkFrom(Inserted(c, k, x), i, l) ==
                       if k <= Next(c, i, l) && l < x.height then x else LinkFrom(c, i, l)
    ensures k <= i ==> LinkFrom(Inserted(c, k, x), i + 1, l) == LinkFrom(c, i, l)
  {
    var d, r := Inserted(c, k, x), Next(c, i, l);
    assert d[k] == x;
    assert forall j :: 0 <= j < k ==> d[j] == c[j];
    assert forall j :: k < j < |d| ==> d[j] == c[j - 1];
    if i <= k {
      NextIs(d, i, l, if r < k then r else if l < x.height then k else r + 1);
    }
    if k <= i {
      NextIs(d, i + 1, l, r + 1);
    }
  }

  lemma InsertedThenRemoved(c: seq<Node>, k: nat, x: Node)
    requires k <= |c|
    ensures Inserted(c, k, x)[k] == x && Removed(Inserted(c, k, x), k) == c
  {
  }

  lemma RemovedThenInserted(c: seq<Node>, k: nat)
    requires k < |c|
    ensures Inserted(Removed(c, k), k, c[k]) == c
  {
  }

  /** How links change when the node at index k leaves the chain. */
  lemma LinkRemoved(c: seq<Node>, k: nat, i: nat, l: nat)
    requires k < |c| && i <= |c|
    ensures i <= k ==> LinkFrom(Removed(c, k), i, l) ==
                       if Next(c, i, l) == k then LinkFrom(c, k + 1, l) else LinkFrom(c, i, l)
    ensures k < i ==> LinkFrom(Removed(c, k), i - 1, l) == LinkFrom(c, i, l)
  {
    var d := Removed(c, k);
    assert forall j :: 0 <= j < k ==> d[j] == c[j];
    assert forall j :: k <= j < |d| ==> d[j] == c[j + 1];
    if i <= k {
      var r := Next(c, i, l);
      if r == k {
        NextIs(d, i, l, Next(c, k + 1, l) - 1);
      } else {
        NextIs(d, i, l, if r < k then r else r - 1);
      }
    } else {
      NextIs(d, i - 1, l, Next(c, i, l) - 1);
    }
  }

  // ----- The links as they are on the heap -----

  ghost predicate HeadLinked(nodes: seq<Node?>, c: seq<Node>, l: nat) {
    l < |nodes| && nodes[l] == LinkFrom(c, 0, l)
  }

  ghost predicate FwdLinked(c: seq<Node>, l: nat)
    reads c`fwd
  {
    forall i {:trigger c[i].fwd} :: 0 <= i < |c| && l < c[i].height ==> l < |c[i].fwd| && c[i].fwd[l] == LinkFrom(c, i + 1, l)
  }

  ghost predicate BackLinked(c: seq<Node>)
    reads c`back
  {
    forall i {:trigger c[i].back} :: 0 <= i < |c| ==> c[i].back == if i == 0 then null else c[i - 1]
  }

  // ----- One level's links after a node enters or leaves the chain -----

  /** The last node before k on level l, or -1 when there is none. */
  ghost predicate IsPred(c: seq<Node>, k: nat, l: nat, p: int) {
    && -1 <= p < k <= |c|
    && (p >= 0 ==> l < c[p].height)
    && k <= Next(c, p + 1, l)
  }

  /** Once x is in at k, its predecessor's link leads to it, and no other link before it
      leads elsewhere than it did. */
  lemma LinkBefore(c: seq<Node>, k: nat, x: Node, p: int, i: nat, l: nat)
    requires IsPred(c, k, l, p) && l < x.height && i < k && l < c[i].height
    ensures LinkFrom(Inserted(c, k, x), i + 1, l) == if i == p then x else LinkFrom(c, i + 1, l)
  {
    LinkInserted(c, k, x, i + 1, l);
    NextIsAtMost(c, p + 1, i, l);
    if i < p {
      NextIsAtMost(c, i + 1, p, l);
    }
  }

  lemma HeadInserted(c: seq<Node>, k: nat, x: Node, p: int, l: nat)
    requires IsPred(c, k, l, p) && l < x.height
    ensures LinkFrom(Inserted(c, k, x), 0, l) == if p < 0 then x else LinkFrom(c, 0, l)
  {
    LinkInserted(c, k, x, 0, l);
    if p >= 0 {
      NextIsAtMost(c, 0, p, l);
    }
  }

  /** What must be written on level l for x to enter before index k: x points where its
      predecessor did, and the predecessor, or the head link, points to x. */
  lemma LevelInserted(nodes: seq<Node?>, c: seq<Node>, k: nat, x: Node, p: int, l: nat)
    requires IsPred(c, k, l, p) && l < |nodes| && l < x.height
    requires l < |x.fwd| && x.fwd[l] == LinkFrom(c, k, l)
    requires nodes[l] == if p < 0 then x else LinkFrom(c, 0, l)
    requires forall i {:trigger c[i].fwd} :: 0 <= i < |c| && l < c[i].height ==>
               l < |c[i].fwd| && c[i].fwd[l] == if i == p then x else LinkFrom(c, i + 1, l)
    ensures HeadLinked(nodes, Inserted(c, k, x), l) && FwdLinked(Inserted(c, k, x), l)
  {
    var d := Inserted(c, k, x);
    HeadInserted(c, k, x, p, l);
    forall i | 0 <= i < |d| && l < d[i].height
      ensures l < |d[i].fwd| && d[i].fwd[l] == LinkFrom(d, i + 1, l)
    {
      if i < k {
        assert d[i] == c[i];
        LinkBefore(c, k, x, p, i, l);
      } else if i == k {
        assert d[i] == x;
        LinkInserted(c, k, x, k, l);
      } else {
        assert d[i] == c[i - 1];
        LinkInserted(c, k, x, i, l);
      }
    }
  }

  lemma NextIsAtMost(c: seq<Node>, i: nat, j: int, l: nat)
    requires i <= |c|
    ensures i <= j < |c| && l < c[j].height ==> Next(c, i, l) <= j
  {
  }

  /** A level x is too short for stays linked as x enters the chain. */
  lemma LevelSkipped(nodes: seq<Node?>, c: seq<Node>, k: nat, x: Node, l: nat)
    requires k <= |c| && x.height <= l
    requires HeadLinked(nodes, c, l) && FwdLinked(c, l)
    ensures HeadLinked(nodes, Inserted(c, k, x), l) && FwdLinked(Inserted(c, k, x), l)
  {
    var d := Inserted(c, k, x);
    LinkInserted(c, k, x, 0, l);
    forall i | 0 <= i < |d| && l < d[i].height
      ensures l < |d[i].fwd| && d[i].fwd[l] == LinkFrom(d, i + 1, l)
    {
      if i < k {
        assert d[i] == c[i];
        LinkInserted(c, k, x, i + 1, l);
      } else if i > k {
        assert d[i] == c[i - 1];
        LinkInserted(c, k, x, i, l);
      }
    }
  }

  /** What must be written on level l for the node at k to leave: whatever pointed to it
      points where it did. */
  lemma FwdRemoved(c: seq<Node>, k: nat, l: nat)
    requires k < |c|
    requires forall i {:trigger c[i].fwd} :: 0 <= i < |c| && i != k && l < c[i].height ==>
               l < |c[i].fwd| &&
               c[i].fwd[l] == if Next(c, i + 1, l) == k then LinkFrom(c, k + 1, l) else LinkFrom(c, i + 1, l)
    ensures FwdLinked(Removed(c, k), l)
  {
    var d := Removed(c, k);
    forall i | 0 <= i < |d| && l < d[i].height
      ensures l < |d[i].fwd| && d[i].fwd[l] == LinkFrom(d, i + 1, l)
    {
      if i < k {
        assert d[i] == c[i];
        LinkRemoved(c, k, i + 1, l);
      } else {
        assert d[i] == c[i + 1];
        LinkRemoved(c, k, i + 2, l);
      }
    }
  }

  /** Where nothing before the node at k links to it, level l can stay as it is. */
  lemma FwdUntouched(c: seq<Node>, k: nat, l: nat)
    requires FwdLinked(c, l) && k < |c|
    requires forall i {:trigger c[i].height} :: 0 <= i < k && l < c[i].height ==> Next(c, i + 1, l) != k
    ensures FwdLinked(Removed(c, k), l)
  {
    FwdRemoved(c, k, l);
  }

  /** Where the node at k is not on a level, the level can stay as it is. */
  lemma HeadUntouched(nodes: seq<Node?>, c: seq<Node>, k: nat, l: nat)
    requires HeadLinked(nodes, c, l) && k < |c| && Next(c, 0, l) != k
    ensures HeadLinked(nodes, Removed(c, k), l)
  {
    LinkRemoved(c, k, 0, l);
  }

  // ----- Which nodes a level's links lead to -----

  /** The head link of level l or some node's link leads to the node at k. */
  ghost predicate Led(nodes: seq<Node?>, c: seq<Node>, l: nat, k: nat)
    requires k < |c|
    reads c`fwd
  {
    || (l < |nodes| && nodes[l] == c[k])
    || exists i {:trigger c[i].fwd} :: 0 <= i < |c| && l < |c[i].fwd| && c[i].fwd[l] == c[k]
  }

  lemma {:induction false} PredExists(c: seq<Node>, k: nat, m: nat, l: nat) returns (p: int)
    requires m <= k < |c| && l < c[k].height && Next(c, m, l) == k
    ensures IsPred(c, k, l, p)
    decreases m
  {
    p := m - 1;
    if m > 0 && c[m - 1].height <= l {
      NextIs(c, m - 1, l, k);
      p := PredExists(c, k, m - 1, l);
    }
  }

  /** A node is linked on a level exactly when it is tall enough for it. */
  lemma LedIff(nodes: seq<Node?>, c: seq<Node>, l: nat, k: nat)
    requires Distinct(c) && HeadLinked(nodes, c, l) && FwdLinked(c, l) && k < |c|
    requires forall i {:trigger c[i].fwd} :: 0 <= i < |c| ==> |c[i].fwd| == c[i].height
    ensures Led(nodes, c, l, k) <==> l < c[k].height
  {
    if l < c[k].height {
      NextIs(c, k, l, k);
      var p := PredExists(c, k, k, l);
      assert Next(c, p + 1, l) == k;
      assert p >= 0 ==> c[p].fwd[l] == c[k];
    }
    if Led(nodes, c, l, k) && nodes[l] != c[k] {
      var i: nat :| i < |c| && l < |c[i].fwd| && c[i].fwd[l] == c[k];
      assert c[Next(c, i + 1, l)] == c[k];
    }
  }
}
