/** Building a skiparray from pairs in ascending order, without searching. */
module Builders {
  import opened Pairs
  import opened Windows
  import opened Layouts
  import opened Nodes
  import opened Chains
  import opened Skiparrays

  datatype AppendResult = AppendOk | AppendErrorMisuse | AppendErrorMemory

  class Builder {
    const sa: Skiparray
    const checkAscending: bool
    var last: Node
    var hasPrevKey: bool
    var prevKey: Key
    var trail: seq<Node?>  // the last node of each level
    ghost var preds: seq<int>  // their places in the chain, -1 where there is none

    ghost predicate Trailing(c: seq<Node>)
      reads `trail, `preds
    {
      |trail| == sa.maxLevel && IsTrail(c, trail, preds)
    }

    static ghost predicate IsTrail(c: seq<Node>, trail: seq<Node?>, preds: seq<int>) {
      && |trail| == |preds|
      && (forall l {:trigger preds[l]} :: 0 <= l < |preds| ==> IsPred(c, |c|, l, preds[l]))
      && (forall l {:trigger trail[l]} :: 0 <= l < |preds| ==>
            trail[l] == if preds[l] < 0 then null else At(c, preds[l]))
    }

    ghost predicate Valid()
      reads this, sa, sa.Repr
    {
      && this !in sa.Repr
      && sa.Assembled() && sa.iter == null && sa.iters == []
      && Packed(sa.wins, sa.nodeSize)
      && last == sa.chain[|sa.chain| - 1] && last.offset == 0
      && Trailing(sa.chain)
      && (hasPrevKey <==> checkAscending && sa.Contents() != [])
      && (hasPrevKey ==> prevKey == sa.Contents()[|sa.Contents()| - 1].key)
    }

    /** There is one node, as tall as the level callback has it. */
    ghost predicate Begun(levelResult: int)
      reads sa`chain
    {
      |sa.chain| == 1 && RootHeight(sa.chain[0].height, sa.maxLevel, levelResult)
    }

    /** skiparray_builder_new */
    constructor (nodeSize: nat, maxLevel: nat, useValues: bool, levelResult: int, skipAscendingKeyCheck: bool)
      requires 2 <= nodeSize < 0x1_0000 && 1 <= maxLevel <= 32
      requires (levelResult + 1) % 256 != 0
      ensures Valid() && fresh(sa) && fresh(sa.Repr) && sa.Contents() == []
      ensures sa.nodeSize == nodeSize && sa.maxLevel == maxLevel && sa.useValues == useValues
      ensures checkAscending == !skipAscendingKeyCheck
      ensures Begun(levelResult)
    {
      var s := new Skiparray(nodeSize, maxLevel, useValues, levelResult);
      s.Neighbours(0);
      var root := s.nodes[0];
      sa, checkAscending, last := s, !skipAscendingKeyCheck, root;
      hasPrevKey, prevKey := false, Key(0, 0);
      trail := seq(root.height, _ => root) + seq(maxLevel - root.height, _ => null);
      preds := seq(maxLevel, l requires 0 <= l < maxLevel => if l < root.height then 0 else -1);
      new;
      TrailOfOne();
      Rewind();
    }

    lemma TrailOfOne()
      requires sa.Valid() && sa.Contents() == [] && last == sa.chain[0]
      requires |trail| == |preds| == sa.maxLevel
      requires forall l :: 0 <= l < sa.maxLevel ==>
                 trail[l] == (if l < last.height then last else null) && preds[l] == if l < last.height then 0 else -1
      ensures |sa.chain| == 1 && Trailing(sa.chain)
    {
      Ends(sa.wins, sa.nodeSize);
      forall l | 0 <= l < sa.maxLevel
        ensures IsPred(sa.chain, 1, l, preds[l]) && trail[l] == if preds[l] < 0 then null else At(sa.chain, preds[l])
      {
        NextIs(sa.chain, preds[l] + 1, l, 1);
      }
    }

    /** The empty first node fills from the front of its buffers. */
    method Rewind()
      requires sa.Valid() && this !in sa.Repr && sa.iter == null && sa.iters == [] && sa.Contents() == []
      requires |sa.chain| == 1 && last == sa.chain[0] && Trailing(sa.chain) && !hasPrevKey
      modifies last`offset
      ensures Valid() && sa.Contents() == []
    {
      Ends(sa.wins, sa.nodeSize);
      sa.NodeAt(0);
      last.offset := 0;
      sa.HoldsUpdated(0, []);
    }

    /** The pair may come next: its key is larger than every key so far. */
    ghost predicate Ascends(key: Key)
      reads sa`wins
    {
      sa.Contents() != [] ==> sa.Contents()[|sa.Contents()| - 1].key.rank < key.rank
    }

    /** Point the level's last node to x, as both loops of skiparray_builder_append do where
        that is the last node of all. */
    method PointTo(ghost c: seq<Node>, x: Node, l: nat, t: Node, ghost p: nat)
      requires c != [] && Distinct(c) && x !in c && sa.Grounded(c) && last == c[|c| - 1]
      requires sa.LinkedAt(c, l) && l < |x.fwd| && l < x.height && x.fwd[l] == null
      requires IsPred(c, |c|, l, p) && t == c[p]
      modifies c`fwd
      ensures sa.LinkedAt(Inserted(c, |c|, x), l)
      ensures sa.OnlyLevel(c, l) && sa.OnlyLevel([x], l)
    {
      NextIsAtMost(c, p + 1, |c| - 1, l);
      if l < last.height {
        last.fwd := last.fwd[l := x];
      }
      t.fwd := t.fwd[l := x];
      NextIsAtMost(c, 0, p, l);
      LevelInserted(sa.nodes, c, |c|, x, p, l);
    }

    /** Link x in after the trail on one level that is in use. */
    method ExtendLevel(ghost c: seq<Node>, x: Node, l: nat, t: Node, ghost p: nat, ghost done: set<nat>)
      requires c != [] && Distinct(c) && x !in c && sa.Grounded(c) && last == c[|c| - 1]
      requires sa.LinkedOn(c, |c|, x, done) && l < x.height && l < sa.height && l !in done
      requires IsPred(c, |c|, l, p) && t == c[p]
      modifies c`fwd
      ensures sa.Grounded(c) && sa.LinkedOn(c, |c|, x, done + {l})
    {
      assert sa.LinkedAt(c, l);
      PointTo(c, x, l, t, p);
      InsertedThenRemoved(c, |c|, x);
      sa.LinkedOnMore(Inserted(c, |c|, x), |c|, l, done);
    }

    method ExtendIfUsed(ghost c: seq<Node>, x: Node, l: nat, t: Node?, ghost p: int)
      requires c != [] && Distinct(c) && x !in c && sa.Grounded(c) && last == c[|c| - 1]
      requires sa.LinkedOn(c, |c|, x, sa.Levels(0, if l < sa.height then l else sa.height)) && l < x.height
      requires IsPred(c, |c|, l, p) && t == if p < 0 then null else At(c, p)
      modifies c`fwd
      ensures sa.Grounded(c)
      ensures sa.LinkedOn(c, |c|, x, sa.Levels(0, if l + 1 < sa.height then l + 1 else sa.height))
    {
      ghost var done := sa.Levels(0, if l < sa.height then l else sa.height);
      InUse(c, x, l, t, p, done);
      if t != null {
        ExtendLevel(c, x, l, t, p, done);
        assert done + {l} == sa.Levels(0, l + 1);
      }
    }

    method ExtendOne(ghost c: seq<Node>, x: Node, l: nat)
      requires c != [] && Distinct(c) && x !in c && sa.Grounded(c) && last == c[|c| - 1]
      requires sa.LinkedOn(c, |c|, x, sa.Levels(0, if l < sa.height then l else sa.height)) && l < x.height
      requires l < |trail| == |preds| && IsPred(c, |c|, l, preds[l]) && trail[l] == if preds[l] < 0 then null else At(c, preds[l])
      modifies c`fwd, `trail, `preds
      ensures sa.Grounded(c)
      ensures sa.LinkedOn(c, |c|, x, sa.Levels(0, if l + 1 < sa.height then l + 1 else sa.height))
      ensures trail == old(trail)[l := x] && preds == old(preds)[l := |c|]
    {
      ExtendIfUsed(c, x, l, trail[l], preds[l]);
      trail, preds := trail[l := x], preds[l := |c|];
    }

    /** Connect the forward links of the new last node's predecessors, along the trail. */
    method ExtendLinks(ghost c: seq<Node>, x: Node)
      requires c != [] && Distinct(c) && x !in c && sa.Grounded(c) && sa.Linked(c) && last == c[|c| - 1]
      requires 1 <= x.height <= sa.maxLevel && |x.fwd| == x.height
      requires forall l :: 0 <= l < x.height ==> x.fwd[l] == null
      requires Trailing(c)
      modifies c`fwd, `trail, `preds
      ensures sa.Grounded(c)
      ensures sa.LinkedOn(c, |c|, x, sa.Levels(0, if x.height < sa.height then x.height else sa.height))
      ensures Trailing(Inserted(c, |c|, x))
    {
      ghost var trail0, preds0 := trail, preds;
      sa.NothingLinkedYet(c, |c|, x);
      assert sa.Levels(0, 0) == {};
      for i := 0 to x.height
        invariant sa.Grounded(c)
        invariant sa.LinkedOn(c, |c|, x, sa.Levels(0, if i < sa.height then i else sa.height))
        invariant |trail| == |preds| == sa.maxLevel
        invariant forall l :: 0 <= l < i ==> trail[l] == x && preds[l] == |c|
        invariant forall l :: i <= l < sa.maxLevel ==> trail[l] == trail0[l] && preds[l] == preds0[l]
      {
        assert IsPred(c, |c|, i, preds0[i]) && trail0[i] == trail[i];
        ExtendOne(c, x, i);
      }
      TrailAfter(c, x, trail0, preds0, trail, preds);
    }

    lemma InUse(c: seq<Node>, x: Node, l: nat, t: Node?, p: int, done: set<nat>)
      requires sa.LinkedOn(c, |c|, x, done) && l !in done && l < sa.maxLevel
      requires IsPred(c, |c|, l, p) && t == if p < 0 then null else At(c, p)
      ensures t != null <==> l < sa.height
      ensures t != null ==> p >= 0 && t == c[p]
    {
      assert sa.LinkedAt(c, l);
      NextIsAtMost(c, 0, p, l);
    }

    static lemma TrailAfter(c: seq<Node>, x: Node, trail0: seq<Node?>, preds0: seq<int>, trail: seq<Node?>, preds: seq<int>)
      requires IsTrail(c, trail0, preds0) && |trail| == |preds| == |preds0| && x.height <= |preds|
      requires forall l :: 0 <= l < x.height ==> trail[l] == x && preds[l] == |c|
      requires forall l :: x.height <= l < |preds| ==> trail[l] == trail0[l] && preds[l] == preds0[l]
      ensures IsTrail(Inserted(c, |c|, x), trail, preds)
    {
      var d := Inserted(c, |c|, x);
      forall l | 0 <= l < |preds|
        ensures IsPred(d, |d|, l, preds[l]) && trail[l] == if preds[l] < 0 then null else At(d, preds[l])
      {
        if l < x.height {
          assert d[|c|] == x;
        } else {
          assert IsPred(c, |c|, l, preds0[l]) && trail0[l] == trail0[l];
          NextIs(d, preds[l] + 1, l, |d|);
        }
      }
    }

    /** Rewire for a new last node, on every level. */
    method LinkLast(ghost c: seq<Node>, x: Node)
      requires c != [] && Distinct(c) && x !in c && sa.Grounded(c) && sa.Linked(c) && last == c[|c| - 1]
      requires 1 <= x.height <= sa.maxLevel && |x.fwd| == x.height
      requires forall l :: 0 <= l < x.height ==> x.fwd[l] == null
      requires Trailing(c)
      modifies c`fwd, `trail, `preds, sa`nodes, sa`height, x`back, x`offset, `last
      ensures last == x && x.offset == 0
      ensures sa.Linked(c + [x]) && sa.Grounded(c + [x]) && Trailing(c + [x])
    {
      LinkLevels(c, x);
      BackFrom(c, x);
      x.offset := 0;
      last := x;
    }

    /** The levels in use along the trail, and then those that were not. */
    method LinkLevels(ghost c: seq<Node>, x: Node)
      requires c != [] && Distinct(c) && x !in c && sa.Grounded(c) && sa.Linked(c) && last == c[|c| - 1]
      requires 1 <= x.height <= sa.maxLevel && |x.fwd| == x.height
      requires forall l :: 0 <= l < x.height ==> x.fwd[l] == null
      requires Trailing(c)
      modifies c`fwd, `trail, `preds, sa`nodes, sa`height
      ensures sa.Grounded(c) && sa.LinkedOn(c, |c|, x, sa.Levels(0, x.height)) && Trailing(Inserted(c, |c|, x))
      ensures sa.height == if x.height > old(sa.height) then x.height else old(sa.height)
    {
      ExtendLinks(c, x);
      sa.GrowHeight(c, |c|, x, 0);
    }

    method BackFrom(ghost c: seq<Node>, x: Node)
      requires c != [] && x !in c && sa.Grounded(c) && BackLinked(c) && last == c[|c| - 1]
      requires sa.LinkedOn(c, |c|, x, sa.Levels(0, x.height)) && Trailing(Inserted(c, |c|, x))
      requires 1 <= sa.height <= sa.maxLevel && 1 <= x.height <= sa.height
      requires forall i :: 0 <= i < |c| ==> c[i].height <= sa.height
      modifies x`back
      ensures sa.Linked(c + [x]) && sa.Grounded(c + [x]) && Trailing(c + [x])
    {
      InsertedAtEnd(c, x);
      x.back := last;
      assert BackLinked(Inserted(c, |c|, x));
      sa.AllLinked(c, |c|, x);
    }

    /** A new last node, once its allocation has succeeded. */
    method AddNode(levelResult: int)
      requires Valid() && |sa.wins[|sa.wins| - 1]| == sa.nodeSize
      modifies this, sa`nodes, sa`height, sa`chain, sa`wins, sa`Repr, sa.Repr
      ensures sa.Assembled() && fresh(sa.Repr - old(sa.Repr)) && this !in sa.Repr
      ensures sa.chain != [] && last == sa.chain[|sa.chain| - 1] && last.offset == 0 && Trailing(sa.chain)
      ensures sa.wins == old(sa.wins) + [[]]
      ensures Extended(old(Heights(sa.chain)), true, sa.maxLevel, levelResult, Heights(sa.chain))
      ensures hasPrevKey == old(hasPrevKey) && prevKey == old(prevKey)
    {
      var x := new Node(sa.NodeHeight(levelResult), sa.nodeSize, sa.useValues);
      LinkNew(x);
      sa.AdoptAssembled(sa.chain + [x], sa.wins + [[]], sa.Repr + {x} + x.Buffers());
    }

    method LinkNew(x: Node)
      requires Valid() && x !in sa.Repr && x.Buffers() !! sa.Repr
      requires sa.Suits(x) && x.Fits() && x.count == 0
      requires 1 <= x.height <= sa.maxLevel && |x.fwd| == x.height
      requires forall l :: 0 <= l < x.height ==> x.fwd[l] == null
      modifies this, sa`nodes, sa`height, sa.Repr, x
      ensures sa.Holds(sa.chain + [x], sa.wins + [[]], sa.Repr + {x} + x.Buffers())
      ensures sa.Linked(sa.chain + [x]) && sa.Grounded(sa.chain + [x]) && Trailing(sa.chain + [x])
      ensures last == x && x.offset == 0
      ensures hasPrevKey == old(hasPrevKey) && prevKey == old(prevKey)
    {
      LinkLast(sa.chain, x);
      NodesStillHold(x);
    }

    twostate lemma NodesStillHold(new x: Node)
      requires old(sa.Assembled()) && sa.chain == old(sa.chain) && sa.wins == old(sa.wins) && sa.Repr == old(sa.Repr)
      requires forall j :: 0 <= j < |sa.chain| ==> sa.chain[j].Untouched()
      requires x !in sa.Repr && x.Buffers() !! sa.Repr && sa.Suits(x) && x.Fits() && x.count == 0
      ensures sa.Holds(sa.chain + [x], sa.wins + [[]], sa.Repr + {x} + x.Buffers())
    {
      InsertedAtEnd(sa.chain, x);
      InsertedAtEnd(sa.wins, []);
      sa.WindowsKept();
      sa.HoldsInserted(sa.chain, sa.wins, sa.Repr, |sa.chain|, x);
    }

    /** All nodes but the last are full, and that one has room. */
    ghost predicate Roomy()
      reads this, sa, sa.Repr
    {
      && sa.Assembled() && this !in sa.Repr && sa.iter == null && sa.iters == []
      && sa.chain != [] && last == sa.chain[|sa.chain| - 1] && last.offset == 0 && Trailing(sa.chain)
      && |sa.wins[|sa.wins| - 1]| < sa.nodeSize
      && (forall i :: 0 <= i < |sa.wins| - 1 ==> |sa.wins[i]| == sa.nodeSize)
      && Ascending(sa.Contents())
    }

    /** Store the pair in the last node, which has room. */
    method AppendToLast(key: Key, value: Value)
      requires Roomy() && Ascends(key)
      requires hasPrevKey ==> checkAscending
      modifies `hasPrevKey, `prevKey, sa`wins, sa.Repr
      ensures Valid() && sa.Repr == old(sa.Repr)
      ensures sa.chain == old(sa.chain)
      ensures sa.Contents() == old(sa.Contents()) + [Pair(key, sa.Stored(value))]
    {
      AppendedPacked(sa.wins, sa.nodeSize, Pair(key, sa.Stored(value)));
      sa.EditAppend(last, |sa.chain| - 1, key, value);
      if checkAscending {
        hasPrevKey, prevKey := true, key;
      }
    }

    /** The last node is full. */
    ghost predicate Full()
      reads sa`wins
    {
      sa.wins != [] && |sa.wins[|sa.wins| - 1]| == sa.nodeSize
    }

    /** skiparray_builder_append. Without the ascending check, the caller answers for the
        order of the keys. */
    method Append(key: Key, value: Value, levelResult: int, allocOk: bool) returns (res: AppendResult)
      requires Valid()
      requires !checkAscending ==> Ascends(key)
      modifies this, sa`nodes, sa`height, sa`chain, sa`wins, sa`Repr, sa.Repr
      ensures Valid() && fresh(sa.Repr - old(sa.Repr))
      ensures res.AppendErrorMisuse? <==> !old(Ascends(key))
      ensures res.AppendErrorMemory? <==> !allocOk && old(Ascends(key) && Full())
      ensures !res.AppendOk? ==> unchanged(this) && unchanged(sa) && unchanged(sa.Repr)
      ensures sa.Contents() == if res.AppendOk? then old(sa.Contents()) + [Pair(key, sa.Stored(value))] else old(sa.Contents())
      ensures res.AppendOk? ==> Extended(old(Heights(sa.chain)), old(Full()), sa.maxLevel, levelResult, Heights(sa.chain))
      ensures res.AppendOk? && old(Full()) ==> sa.LedAsAdded(|sa.chain| - 1, levelResult)
    {
      ghost var was := sa.chain;
      if hasPrevKey {
        if Cmp(key, prevKey) <= 0 {
          return AppendErrorMisuse;
        }
      }
      var ok := MakeRoom(levelResult, allocOk);
      if !ok {
        return AppendErrorMemory;
      }
      AppendToLast(key, value);
      if |sa.chain| > |was| {
        sa.LedAll(|sa.chain| - 1, levelResult);
      }
      return AppendOk;
    }

    /** A new last node where the last one is full. */
    method MakeRoom(levelResult: int, allocOk: bool) returns (ok: bool)
      requires Valid()
      modifies this, sa`nodes, sa`height, sa`chain, sa`wins, sa`Repr, sa.Repr
      ensures ok <==> allocOk || !old(Full())
      ensures !ok ==> Valid() && unchanged(this) && unchanged(sa) && unchanged(sa.Repr)
      ensures ok ==> Roomy() && fresh(sa.Repr - old(sa.Repr))
      ensures ok ==> Extended(old(Heights(sa.chain)), old(Full()), sa.maxLevel, levelResult, Heights(sa.chain))
      ensures sa.Contents() == old(sa.Contents()) && hasPrevKey == old(hasPrevKey)
    {
      ok := true;
      sa.NodeAt(|sa.chain| - 1);
      if last.count == sa.nodeSize {
        if !allocOk {
          return false;
        }
        FullPackedPlus(sa.wins, sa.nodeSize);
        AddNode(levelResult);
      }
    }

    /** skiparray_builder_finish: what was built is a skiparray like any other. */
    function Finish(): (s: Skiparray)
      requires Valid()
      reads this, sa, sa.Repr
      ensures s == sa && s.Valid() && s.Iterating() && Packed(s.wins, s.nodeSize)
    {
      PackedShaped(sa.wins, sa.nodeSize);
      sa
    }
  }

  /** Where a run of appends needs memory: for the first pair of each node but the root. */
  ghost predicate AllRoomed(n: nat, nodeSize: nat, memory: nat -> bool)
    requires 0 < nodeSize
  {
    forall k :: 0 < k < n && k % nodeSize == 0 ==> memory(k)
  }

  /** An ascending run of appends into a new builder: unless memory runs out, the finished
      skiparray holds exactly those pairs, and so it is what setting them one by one, in any
      order, would give. */
  method Build(nodeSize: nat, maxLevel: nat, useValues: bool, rootLevel: int, skipCheck: bool, ps: seq<Pair>,
               levels: nat -> int, memory: nat -> bool) returns (s: Skiparray?)
    requires 2 <= nodeSize < 0x1_0000 && 1 <= maxLevel <= 32 && (rootLevel + 1) % 256 != 0
    requires Ascending(ps) && (!useValues ==> forall i :: 0 <= i < |ps| ==> ps[i].value == Null)
    ensures s != null <==> AllRoomed(|ps|, nodeSize, memory)
    ensures s != null ==> s.Valid() && s.Iterating() && Packed(s.wins, s.nodeSize) && s.Contents() == ps
    ensures s != null ==> s.nodeSize == nodeSize && s.maxLevel == maxLevel && s.useValues == useValues
    ensures s != null ==> BuiltHeights(Heights(s.chain), nodeSize, maxLevel, rootLevel, levels)
    ensures forall order, replaceKey {:trigger SetAll([], order, replaceKey)} :: multiset(order) == multiset(ps) ==>
              SetAll([], order, replaceKey) == ps
  {
    forall order, replaceKey | multiset(order) == multiset(ps) ensures SetAll([], order, replaceKey) == ps {
      AnyOrder(ps, order, replaceKey);
    }
    var b := new Builder(nodeSize, maxLevel, useValues, rootLevel, skipCheck);
    var ok := AppendAll(b, ps, rootLevel, levels, memory);
    if !ok {
      return null;
    }
    s := b.Finish();
  }

  lemma NthFits(b: Builder, ps: seq<Pair>, n: nat)
    requires b.Valid() && n < |ps| && b.sa.Contents() == ps[..n] && Ascending(ps) && 0 < b.sa.nodeSize
    ensures b.Ascends(ps[n].key)
    ensures b.Full() <==> 0 < n && n % b.sa.nodeSize == 0
    ensures b.Full() ==> n == |b.sa.chain| * b.sa.nodeSize
  {
    PackedFull(b.sa.wins, b.sa.nodeSize);
    assert |ps[..n]| == n;
    PackedBelow(b.sa.wins, b.sa.nodeSize);
  }

  method AppendPair(b: Builder, p: Pair, levelResult: int, allocOk: bool) returns (ok: bool)
    requires b.Valid() && b.Ascends(p.key) && b.sa.Stored(p.value) == p.value
    modifies b, b.sa`nodes, b.sa`height, b.sa`chain, b.sa`wins, b.sa`Repr, b.sa.Repr
    ensures ok <==> allocOk || !old(b.Full())
    ensures ok ==> Extended(old(Heights(b.sa.chain)), old(b.Full()), b.sa.maxLevel, levelResult, Heights(b.sa.chain))
    ensures ok ==> b.Valid() && b.sa.Contents() == old(b.sa.Contents()) + [p]
    ensures fresh(b.sa.Repr - old(b.sa.Repr))
  {
    var res := b.Append(p.key, p.value, levelResult, allocOk);
    ok := res.AppendOk?;
  }

  method AppendAll(b: Builder, ps: seq<Pair>, ghost root: int, levels: nat -> int, memory: nat -> bool) returns (ok: bool)
    requires BuiltHeights(Heights(b.sa.chain), b.sa.nodeSize, b.sa.maxLevel, root, levels)
    requires b.Valid() && b.sa.Contents() == [] && Ascending(ps) && 0 < b.sa.nodeSize
    requires forall i :: 0 <= i < |ps| ==> b.sa.Stored(ps[i].value) == ps[i].value
    modifies b, b.sa`nodes, b.sa`height, b.sa`chain, b.sa`wins, b.sa`Repr, b.sa.Repr
    ensures ok <==> AllRoomed(|ps|, b.sa.nodeSize, memory)
    ensures ok ==> b.Valid() && b.sa.Contents() == ps
    ensures ok ==> BuiltHeights(Heights(b.sa.chain), b.sa.nodeSize, b.sa.maxLevel, root, levels)
  {
    for n := 0 to |ps|
      invariant b.Valid() && b.sa.Contents() == ps[..n] && AllRoomed(n, b.sa.nodeSize, memory)
      invariant forall o {:trigger o in b.sa.Repr} :: o in b.sa.Repr ==> o in old(b.sa.Repr) || fresh(o)
      invariant BuiltHeights(Heights(b.sa.chain), b.sa.nodeSize, b.sa.maxLevel, root, levels)
    {
      NthFits(b, ps, n);
      ghost var hs, full := Heights(b.sa.chain), b.Full();
      ok := AppendPair(b, ps[n], levels(n), memory(n));
      if !ok {
        return;
      }
      BuiltMore(hs, b.sa.nodeSize, b.sa.maxLevel, root, levels, full, n, Heights(b.sa.chain));
      assert ps[..n + 1] == ps[..n] + [ps[n]];
    }
    assert ps[..|ps|] == ps;
    ok := true;
  }
}
