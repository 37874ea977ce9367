/** The skiparray itself: searching, setting, forgetting and popping pairs, rewiring the
    level links as nodes split and merge. */
module Skiparrays {
  import opened Pairs
  import opened Windows
  import opened Layouts
  import opened Nodes
  import opened Chains

  /** Every node is owned, with its buffers, and nothing is shared between nodes. */
  ghost predicate Separate(c: seq<Node>, repr: set<object>) {
    && Distinct(c)
    && (forall i :: 0 <= i < |c| ==> c[i] in repr)
    && (forall i {:trigger c[i].Buffers()} :: 0 <= i < |c| ==> c[i].Buffers() <= repr)
    && (forall i, j {:trigger c[i].Buffers(), c[j].Buffers()} :: 0 <= i < j < |c| ==>
          c[i].Buffers() !! c[j].Buffers())
  }

  /** The nodes hold exactly these windows. */
  ghost predicate Coupled(c: seq<Node>, ws: seq<seq<Pair>>, repr: set<object>)
    requires Separate(c, repr)
    reads repr
  {
    && |c| == |ws|
    && (forall i {:trigger c[i].Fits()} {:trigger c[i].Window()} :: 0 <= i < |c| ==>
          assert c[i].Buffers() <= repr;
          c[i].Fits() && c[i].Window() == ws[i])
  }

  ghost function Heights(c: seq<Node>): (hs: seq<nat>)
    ensures |hs| == |c| && forall i {:trigger hs[i]} :: 0 <= i < |c| ==> hs[i] == c[i].height
  {
    seq(|c|, i requires 0 <= i < |c| => c[i].height)
  }

  lemma HeightsInserted(c: seq<Node>, k: nat, x: Node)
    requires k <= |c|
    ensures Heights(Inserted(c, k, x)) == Inserted(Heights(c), k, x.height)
  {
  }

  lemma HeightsRemoved(c: seq<Node>, k: nat)
    requires k < |c|
    ensures Heights(Removed(c, k)) == Removed(Heights(c), k)
  {
  }

  lemma SeparateInserted(c: seq<Node>, k: nat, x: Node, repr: set<object>)
    requires Separate(c, repr) && k <= |c|
    requires x !in repr && x.Buffers() !! repr
    ensures Separate(Inserted(c, k, x), repr + {x} + x.Buffers())
  {
    var d := Inserted(c, k, x);
    assert forall j :: 0 <= j < |d| ==> d[j] == if j < k then c[j] else if j == k then x else c[j - 1];
    forall i | 0 <= i < |c| ensures x.Buffers() !! c[i].Buffers() {
      assert c[i].Buffers() <= repr;
    }
    forall i, j | 0 <= i < j < |d| ensures d[i].Buffers() !! d[j].Buffers() {
    }
  }

  datatype ForgetResult = Forgotten(pair: Pair) | ForgetNotFound | ForgetErrorLocked
  datatype PopResult = Popped(pair: Pair) | PopEmpty | PopErrorLocked
  datatype SetResult = Bound | Replaced(previous: Pair) | SetErrorMemory | SetErrorLocked

  datatype StepResult = StepOk | StepEnd
  datatype SeekResult = SeekFound | SeekNotFound | SeekBeforeFirst | SeekAfterLast
  datatype NewIterResult = NewIter(it: Iter) | NewIterEmpty | NewIterErrorMemory

  /** An iterator: a node and an index in it. `at` is the node's place in the chain. */
  class Iter {
    const sa: Skiparray
    var prev: Iter?
    var next: Iter?
    var n: Node
    var index: nat
    ghost var at: nat

    constructor (sa: Skiparray, next: Iter?, n: Node)
      ensures this.sa == sa && this.prev == null && this.next == next
      ensures this.n == n && this.index == 0 && this.at == 0
    {
      this.sa, this.prev, this.next, this.n, this.index, this.at := sa, null, next, n, 0, 0;
    }

    /** One of its skiparray's live iterators. */
    ghost predicate Live()
      reads this, sa, sa.iters, sa.Repr
    {
      sa.Valid() && sa.Iterating() && this in sa.iters
    }

    /** Where the iterator is in the flattened contents; their length once past the end. */
    ghost function Place(): nat
      requires at <= |sa.wins|
      reads `at, `index, sa`wins
    {
      Start(sa.wins, at) + index
    }

    /** skiparray_iter_get */
    method Get() returns (pair: Pair)
      requires Live() && Place() < |sa.Contents()|
      ensures pair == sa.Contents()[Place()]
    {
      sa.InBounds(this);
      sa.PairIsAt(at, index);
      pair := n.PairAt(index);
    }

    /** Move to another slot; nothing but this iterator's position changes. */
    method MoveTo(n: Node, index: nat, ghost at: nat)
      requires Live()
      requires at < |sa.chain| && n == sa.chain[at]
      requires index < |sa.wins[at]| || (at == |sa.chain| - 1 && index == |sa.wins[at]|)
      modifies `n, `index, `at
      ensures Live() && this.n == n && this.index == index && this.at == at
    {
      assert IsHandle(this);
      this.n, this.index, this.at := n, index, at;
      sa.Moved(this);
    }

    /** skiparray_iter_next, which is not for calling again once it has answered END. */
    method Next() returns (res: StepResult)
      requires Live() && Place() < |sa.Contents()|
      modifies `n, `index, `at
      ensures Live() && Place() == old(Place()) + 1
      ensures res == if Place() == |sa.Contents()| then StepEnd else StepOk
    {
      sa.InBounds(this);
      sa.Neighbours(at);
      sa.NodeAt(at);
      sa.PlaceAfter(at, index);
      if index + 1 == n.count {
        if n.fwd[0] == null {
          MoveTo(n, index + 1, at);
          return StepEnd;
        } else {
          MoveTo(n.fwd[0], 0, at + 1);
        }
      } else {
        MoveTo(n, index + 1, at);
      }
      return StepOk;
    }

    /** skiparray_iter_prev */
    method Prev() returns (res: StepResult)
      requires Live()
      modifies `n, `index, `at
      ensures Live()
      ensures res == if old(Place()) == 0 then StepEnd else StepOk
      ensures Place() == if old(Place()) == 0 then 0 else old(Place()) - 1
    {
      if index == 0 {
        res := PrevNode();
      } else {
        MoveTo(n, index - 1, at);
        res := StepOk;
      }
    }

    /** To the last pair of the node before. */
    method PrevNode() returns (res: StepResult)
      requires Live() && index == 0
      modifies `n, `index, `at
      ensures Live()
      ensures res == if old(Place()) == 0 then StepEnd else StepOk
      ensures Place() == if old(Place()) == 0 then 0 else old(Place()) - 1
    {
      sa.Neighbours(at);
      sa.PlaceBefore(at);
      if n.back == null {
        return StepEnd;
      }
      sa.NodeAt(at - 1);
      MoveTo(n.back, n.back.count - 1, at - 1);
      return StepOk;
    }

    /** skiparray_iter_free, for any of the live iterators. */
    method Free() returns (ghost k: nat)
      requires Live()
      modifies sa`iter, sa`iters, sa.iters`prev, sa.iters`next
      ensures sa.Valid() && sa.Iterating()
      ensures k < |old(sa.iters)| && this == old(sa.iters)[k] && sa.iters == Removed(old(sa.iters), k)
    {
      k :| 0 <= k < |sa.iters| && sa.iters[k] == this;
      sa.ItersApart();
      Unlist(k);
      sa.Undisturbed();
      sa.Unlisted(k);
    }

    method Unlist(ghost k: nat)
      requires sa.Listed() && k < |sa.iters| && this == sa.iters[k]
      modifies sa`iter, sa`iters, sa.iters`prev, sa.iters`next
      ensures sa.Listed() && sa.iters == Removed(old(sa.iters), k)
    {
      ghost var its := sa.iters;
      if prev == null {
        sa.iter := next;
        if next != null {
          next.prev := null;
        }
      } else {
        prev.next := next;
        if next != null {
          next.prev := prev;
        }
      }
      sa.iters := Removed(its, k);
    }

    /** skiparray_iter_seek_endpoint */
    method SeekFirst()
      requires Live()
      modifies `n, `index, `at
      ensures Live() && Place() == 0
    {
      sa.Neighbours(0);
      Ends(sa.wins, sa.nodeSize);
      MoveTo(sa.nodes[0], 0, 0);
    }

    method SeekLast()
      requires Live()
      modifies `n, `index, `at
      ensures Live() && Place() == |sa.Contents()| - 1
    {
      var last := sa.LastNode();
      sa.LastFacts();
      MoveTo(last, last.count - 1, |sa.chain| - 1);
    }

    /** skiparray_iter_seek: to the first pair whose key is not smaller, or, where there is
        none or that would be the very first pair without being equal, nowhere. */
    method Seek(key: Key) returns (res: SeekResult)
      requires Live()
      modifies `n, `index, `at
      ensures Live()
      ensures var s, p := sa.Contents(), Pos(sa.Contents(), key);
              && res == (if Has(s, key) then SeekFound else if p == 0 then SeekBeforeFirst
                         else if p == |s| then SeekAfterLast else SeekNotFound)
              && Place() == if res == SeekFound || res == SeekNotFound then p else old(Place())
    {
      var found, m, k;
      ghost var i;
      found, m, k, i := sa.Search(key);
      sa.NodeAt(i);
      sa.Neighbours(i);
      if found {
        MoveTo(m, k, i);
        return SeekFound;
      }
      sa.SeekFacts(key, i, k);
      if k == 0 && m.back == null {
        return SeekBeforeFirst;
      }
      if k == m.count {
        m, k, i := m.fwd[0], 0, i + 1;
        if m == null {
          return SeekAfterLast;
        }
      }
      MoveTo(m, k, i);
      return SeekNotFound;
    }
  }

  lemma SeparateRemoved(c: seq<Node>, k: nat, repr: set<object>)
    requires Separate(c, repr) && k < |c|
    ensures Separate(Removed(c, k), repr)
  {
    var d := Removed(c, k);
    assert forall j :: 0 <= j < |d| ==> d[j] == c[if j < k then j else j + 1];
    forall i, j | 0 <= i < j < |d| ensures d[i].Buffers() !! d[j].Buffers() {
      assert c[if i < k then i else i + 1].Buffers() !! c[if j < k then j else j + 1].Buffers();
    }
  }

  ghost predicate IsHandle(o: object) {
    o is Iter || o is Skiparray
  }

  /** No iterator and no skiparray is among these objects. */
  ghost predicate NodesOnly(repr: set<object>) {
    forall o {:trigger IsHandle(o)} :: o in repr ==> !IsHandle(o)
  }

  class Skiparray {
    const nodeSize: nat
    const maxLevel: nat
    const useValues: bool
    var height: nat
    var nodes: seq<Node?>  // first node of each level
    var iter: Iter?  // the most recent live iterator
    ghost var iters: seq<Iter>  // the live iterators, most recent first
    ghost var chain: seq<Node>  // the nodes in level-0 order
    ghost var wins: seq<seq<Pair>>  // what each holds
    ghost var Repr: set<object>

    ghost predicate Configured()
      reads `Repr
    {
      && 2 <= nodeSize < 0x1_0000
      && 1 <= maxLevel <= 32
      && this !in Repr && NodesOnly(Repr)
    }

    /** Nodes built for this skiparray's configuration. */
    ghost predicate Suits(n: Node) {
      && n.keys.Length == nodeSize
      && (n.values != null) == useValues
      && (n.values != null ==> n.values.Length == nodeSize)
    }

    ghost predicate LinkedAt(c: seq<Node>, l: nat)
      reads `nodes, c`fwd
    {
      HeadLinked(nodes, c, l) && FwdLinked(c, l)
    }

    ghost predicate LevelsLinked(c: seq<Node>)
      reads `nodes, c`fwd
    {
      forall l :: 0 <= l < maxLevel ==> LinkedAt(c, l)
    }

    /** Every level's chain is the level-0 chain restricted to the nodes tall enough;
        `back` inverts level 0; `height` is the tallest node's. */
    ghost predicate Linked(c: seq<Node>)
      reads `nodes, `height, c`fwd, c`back
    {
      && |nodes| == maxLevel
      && LevelsLinked(c)
      && BackLinked(c)
      && 1 <= height <= maxLevel
      && nodes[height - 1] != null
      && (forall i :: 0 <= i < |c| ==> c[i].height <= height)
    }

    /** No node is above or below the levels, and each has its links. */
    ghost predicate Grounded(c: seq<Node>)
      reads c`fwd
    {
      && (forall i :: 0 <= i < |c| ==> 1 <= c[i].height <= maxLevel)
      && (forall i {:trigger c[i].fwd} :: 0 <= i < |c| ==> |c[i].fwd| == c[i].height)
    }

    /** These nodes, separate and built for this skiparray, hold these windows. */
    ghost predicate Holds(c: seq<Node>, ws: seq<seq<Pair>>, repr: set<object>)
      reads repr
    {
      && Separate(c, repr)
      && Coupled(c, ws, repr)
      && (forall i {:trigger c[i].keys} {:trigger c[i].values} :: 0 <= i < |c| ==> Suits(c[i]))
    }

    /** The nodes hold the windows and are linked on every level, whatever the windows'
        sizes: what also holds in the middle of an operation. */
    ghost predicate Assembled()
      reads `nodes, `height, `chain, `wins, `Repr, Repr
    {
      && Configured()
      && Holds(chain, wins, Repr)
      && Grounded(chain)
      && Linked(chain)
    }

    ghost predicate Valid()
      reads `nodes, `height, `chain, `wins, `Repr, Repr
    {
      && Assembled()
      && Shaped(wins, nodeSize)
    }

    /** An iterator of this skiparray, on one of its pairs or just past the last one. */
    ghost predicate Positioned(it: Iter)
      reads `chain, `wins, it`n, it`index, it`at
    {
      && it.sa == this && |wins| == |chain|
      && it.at < |chain| && it.n == chain[it.at]
      && (it.index < |wins[it.at]| || (it.at == |chain| - 1 && it.index == |wins[it.at]|))
    }

    /** The doubly linked list at `iter` holds exactly the live iterators. */
    ghost predicate Listed()
      reads `iter, `iters, iters`prev, iters`next
    {
      && Distinct(iters)
      && iter == (if iters == [] then null else iters[0])
      && (forall i {:trigger iters[i].next} :: 0 <= i < |iters| ==>
            iters[i].next == if i + 1 < |iters| then iters[i + 1] else null)
      && (forall i {:trigger iters[i].prev} :: 0 <= i < |iters| ==>
            iters[i].prev == if i == 0 then null else iters[i - 1])
    }

    ghost predicate Iterating()
      reads `iter, `iters, `chain, `wins, iters
    {
      && Listed()
      && (iters != [] ==> Contents() != [])
      && (forall it :: it in iters ==> Positioned(it))
    }

    /** skiparray_new, given the level callback's first answer. */
    constructor (nodeSize: nat, maxLevel: nat, useValues: bool, levelResult: int)
      requires 2 <= nodeSize < 0x1_0000 && 1 <= maxLevel <= 32
      requires (levelResult + 1) % 256 != 0
      ensures Valid() && fresh(Repr) && Contents() == []
      ensures this.nodeSize == nodeSize && this.maxLevel == maxLevel && this.useValues == useValues
      ensures iter == null && iters == []
      ensures wins == [[]] && |chain| == 1 && RootHeight(chain[0].height, maxLevel, levelResult)
    {
      var rootLevel := (levelResult + 1) % 256;
      if rootLevel >= maxLevel {
        rootLevel := maxLevel;
      }
      var root := new Node(rootLevel, nodeSize, useValues);
      this.nodeSize, this.maxLevel, this.useValues := nodeSize, maxLevel, useValues;
      height := rootLevel;
      nodes := seq(rootLevel, _ => root) + seq(maxLevel - rootLevel, _ => null);
      iter, iters := null, [];
      chain, wins := [root], [root.Window()];
      Repr := {root} + root.Buffers();
      new;
      OneNode(root);
    }

    lemma OneNode(root: Node)
      requires Configured() && chain == [root] && root.Fits() && root.count == 0
      requires wins == [root.Window()] && Suits(root) && Repr == {root} + root.Buffers()
      requires 1 <= root.height == height <= maxLevel && |root.fwd| == root.height && root.back == null
      requires forall l :: 0 <= l < root.height ==> root.fwd[l] == null
      requires |nodes| == maxLevel && forall l :: 0 <= l < maxLevel ==> nodes[l] == if l < height then root else null
      ensures Valid() && Contents() == []
    {
      FlattenOne([]);
      forall l | 0 <= l < maxLevel ensures LinkedAt(chain, l) {
        NextIs(chain, 0, l, if l < height then 0 else 1);
        NextIs(chain, 1, l, 1);
      }
    }

    /** The abstract value: all pairs in order. */
    ghost function Contents(): seq<Pair>
      reads `wins
    {
      Flatten(wins)
    }

    /** What the nodes hold and how tall they are. */
    ghost function Lay(): (lay: Layout)
      reads `chain, `wins
    {
      Layout(wins, Heights(chain))
    }

    lemma NodeAt(i: nat)
      requires Assembled() && i < |chain|
      ensures chain[i].Fits() && chain[i].Window() == wins[i] && chain[i].count == |wins[i]|
    {
    }

    /** search's last step, inside the node whose last key is larger. */
    method SearchNode(key: Key, cur: Node, ghost ci: nat) returns (found: bool, n: Node, index: nat, ghost ni: nat)
      requires Valid() && Narrowed(wins, key, ci) && cur == chain[ci] && key.rank < LastRank(wins[ci])
      ensures ni < |chain| && n == chain[ni] && Answers(wins, key, found, ni, index)
    {
      n, ni := cur, ci;
      WindowAscends(wins, ci);
      NodeAt(ci);
      if ci > 0 {
        NodeAt(ci - 1);
      }
      found, index := cur.SearchWithin(key);
      AnswerWithin(wins, key, ci, found, index);
      assert chain[ci].back == if ci == 0 then null else chain[ci - 1];
      if !found && index == 0 {
        var back := cur.back;
        if back != null && back.count < cur.count {
          index := back.count;
          n, ni := back, ci - 1;
        }
      }
    }

    lemma HeadLink(c: seq<Node>, l: nat)
      requires Linked(c) && l < height
      ensures Next(c, 0, l) < |c| && nodes[l] == c[Next(c, 0, l)]
    {
      assert LinkedAt(c, l) && LinkedAt(c, height - 1);
      NextLower(c, 0, height - 1, l);
    }

    lemma FwdLink(c: seq<Node>, i: nat, l: nat)
      requires LinkedAt(c, l) && Grounded(c) && i < |c| && l < c[i].height
      ensures l < |c[i].fwd| && c[i].fwd[l] == LinkFrom(c, i + 1, l)
      ensures l == 0 ==> c[i].fwd[0] == At(c, i + 1)
    {
      NextGround(c, i + 1);
    }

    lemma LevelLink(c: seq<Node>, i: nat, l: nat)
      requires Linked(c) && Grounded(c) && i < |c| && l < c[i].height
      ensures l < |c[i].fwd| && c[i].fwd[l] == LinkFrom(c, i + 1, l)
      ensures l == 0 ==> c[i].fwd[0] == At(c, i + 1)
    {
      assert LinkedAt(c, l);
      FwdLink(c, i, l);
    }

    /** `prev ? prev->fwd[level] : sa->nodes[level]` lies on the way to cur. */
    lemma LowerLink(c: seq<Node>, prev: Node?, base: nat, level: nat, l: nat)
      requires Linked(c) && Grounded(c) && l < level < height && base <= |c|
      requires prev == null ==> base == 0
      requires prev != null ==> 0 < base && prev == c[base - 1] && level < prev.height
      requires Next(c, base, level) < |c|
      ensures prev != null ==> l < |prev.fwd|
      ensures Next(c, base, l) < |c|
      ensures (if prev != null then prev.fwd[l] else nodes[l]) == c[Next(c, base, l)]
    {
      NextLower(c, base, level, l);
      if prev == null {
        HeadLink(c, l);
      } else {
        LevelLink(c, base - 1, l);
      }
    }

    lemma NodesHaveRanks(ranks: seq<int>)
      requires Valid() && |ranks| == |wins|
      requires forall i :: 0 <= i < |wins| ==> wins[i] != [] && ranks[i] == LastRank(wins[i])
      ensures forall i {:trigger chain[i].LastKey()} {:trigger chain[i].count} :: 0 <= i < |chain| ==>
                chain[i].Fits() && chain[i].count > 0 && chain[i].LastKey().rank == ranks[i]
    {
      forall i | 0 <= i < |chain|
        ensures chain[i].Fits() && chain[i].count > 0 && chain[i].LastKey().rank == ranks[i]
      {
        LastKeyAt(i);
      }
    }

    /** Where a forward pointer leads, as the search follows it. */
    lemma Onward(c: seq<Node>, i: nat, l: nat)
      requires Linked(c) && Grounded(c) && i < |c| && l < c[i].height
      ensures l < |c[i].fwd|
      ensures c[i].fwd[l] != null ==> i < Next(c, i + 1, l) < |c| && c[i].fwd[l] == c[Next(c, i + 1, l)]
      ensures c[i].fwd[l] == null && l == 0 ==> i == |c| - 1
    {
      LevelLink(c, i, l);
    }

    /** search's loop: down the levels to the level-0 node where the key is or belongs.
        `ranks` are the ranks of the nodes' last keys. Where a last key equals the one searched
        for, `found` is set for good, on whatever level that is. */
    method FindNode(key: Key, ghost c: seq<Node>, ghost ranks: seq<int>)
      returns (found: bool, index: nat, cur: Node, res: int, ghost ci: nat)
      requires Linked(c) && Grounded(c) && |ranks| == |c|
      requires forall i {:trigger c[i].LastKey()} {:trigger c[i].count} :: 0 <= i < |c| ==>
                 c[i].Fits() && c[i].count > 0 && c[i].LastKey().rank == ranks[i]
      requires Rising(ranks)
      ensures ci < |c| && cur == c[ci]
      ensures ci > 0 ==> ranks[ci - 1] < key.rank
      ensures res == key.rank - ranks[ci]
      ensures res <= 0 || ci == |c| - 1
      ensures found <==> res == 0
      ensures res >= 0 ==> index == if found then cur.count - 1 else cur.count
    {
      found, index := false, 0;
      ghost var hit: nat := 0;
      var level: nat := height - 1;
      var prev: Node? := null;
      HeadLink(c, level);
      cur := nodes[level];
      ghost var base: nat := 0;
      ci := Next(c, 0, level);
      while true
        invariant level < height && base <= |c|
        invariant prev == null ==> base == 0
        invariant prev != null ==> 0 < base && prev == c[base - 1] && level < prev.height
        invariant ci == Next(c, base, level) < |c| && cur == c[ci]
        invariant base > 0 ==> ranks[base - 1] < key.rank
        invariant found ==> base <= hit < |c| && ranks[hit] == key.rank
        decreases level, |c| - ci
      {
        if level > 0 {
          LowerLink(c, prev, base, level, level - 1);
        } else {
          NextGround(c, base);
        }
        assert cur.count > 0;
        assert found ==> if ci <= hit then ci < hit ==> Rises(ranks, ci, hit) else Rises(ranks, hit, ci);
        res := Cmp(key, cur.LastKey());
        if res > 0 {
          Onward(c, ci, level);
          var next := cur.fwd[level];
          if next != null {
            prev := cur;
            cur := next;
            base := ci + 1;
          } else {
            if level == 0 {
              index := cur.count;
              break;
            }
            cur, level := DescendPast(c, prev, base, cur, level);
          }
        } else {
          if res == 0 {
            found, hit, index := true, ci, cur.count - 1;
          }
          if level == 0 {
            break;
          }
          level := level - 1;
          cur := if prev != null then prev.fwd[level] else nodes[level];
        }
        ci := Next(c, base, level);
      }
    }

    /** Down one level from the head link, or else until prev's forward pointer leads
        somewhere new. */
    method DescendPast(ghost c: seq<Node>, prev: Node?, ghost base: nat, cur: Node, level: nat)
      returns (ncur: Node, l: nat)
      requires Linked(c) && Grounded(c) && 0 < level < height && base <= |c|
      requires prev == null ==> base == 0
      requires prev != null ==> 0 < base && prev == c[base - 1] && level < prev.height
      requires Next(c, base, level) < |c|
      ensures l < level && Next(c, base, l) < |c| && ncur == c[Next(c, base, l)]
      ensures prev == null ==> l == level - 1 && ncur == nodes[l]
      ensures prev != null ==> ncur == prev.fwd[l] && (l == 0 || ncur != cur)
      ensures prev != null ==> forall m {:trigger prev.fwd[m]} :: l < m < level ==> prev.fwd[m] == null || prev.fwd[m] == cur
    {
      l := level - 1;
      LowerLink(c, prev, base, level, l);
      if prev == null {
        return nodes[l], l;
      }
      var n := prev.fwd[l];
      while (n == null || n == cur) && l > 0
        invariant l < level && Next(c, base, l) < |c| && n == c[Next(c, base, l)] == prev.fwd[l]
        invariant forall m {:trigger prev.fwd[m]} :: l < m < level ==> prev.fwd[m] == null || prev.fwd[m] == cur
      {
        l := l - 1;
        LowerLink(c, prev, base, level, l);
        n := prev.fwd[l];
      }
      ncur := n;
    }

    method FindWindow(key: Key) returns (found: bool, index: nat, n: Node, res: int, ghost ni: nat)
      requires Valid() && wins != [[]]
      ensures Narrowed(wins, key, ni) && res == key.rank - LastRank(wins[ni])
      ensures ni < |chain| && n == chain[ni] && n.count == |wins[ni]|
      ensures (found <==> res == 0) && (res >= 0 ==> index == if found then n.count - 1 else n.count)
    {
      ghost var ranks := LastRanks(wins, nodeSize);
      NodesHaveRanks(ranks);
      found, index, n, res, ni := FindNode(key, chain, ranks);
      assert n.count == |wins[ni]| by {
        NodeAt(ni);
      }
    }

    /** The search's entry: an empty node there is the only one. */
    lemma TopNode(key: Key) returns (i: nat)
      requires Valid()
      ensures nodes[height - 1] != null && i < |chain| && nodes[height - 1] == chain[i]
      ensures nodes[height - 1].count == 0 ==> Answers(wins, key, false, i, 0)
      ensures nodes[height - 1].count != 0 ==> wins != [[]]
    {
      HeadLink(chain, height - 1);
      i := Next(chain, 0, height - 1);
      NodeAt(i);
      if nodes[height - 1].count == 0 {
        AnswerEmpty(wins, nodeSize, key, i);
      }
    }

    /** search */
    method Search(key: Key) returns (found: bool, n: Node, index: nat, ghost ni: nat)
      requires Valid()
      ensures ni < |chain| && n == chain[ni] && Answers(wins, key, found, ni, index)
      ensures n in chain && (found <==> Has(Contents(), key))
    {
      ghost var top := TopNode(key);
      if nodes[height - 1].count == 0 {
        return false, nodes[height - 1], 0, top;
      }
      var res;
      found, index, n, res, ni := FindWindow(key);
      if res < 0 {
        found, n, index, ni := SearchNode(key, n, ni);
      } else {
        AnswerAtEnd(wins, key, ni);
      }
    }

    // ----- Splitting a full node -----

    /** The level callback's answer, one higher and cut to the struct's uint8_t, then
        capped; a node of level l is on l + 1 levels. */
    function NodeHeight(levelResult: int): (h: nat)
      requires 1 <= maxLevel
      ensures 1 <= h <= maxLevel && AddedHeight(h, maxLevel, levelResult)
    {
      var level := (levelResult + 1) % 256;
      if level >= maxLevel then maxLevel else level + 1
    }

    /** The levels on which the node at k is linked are those the level callback's answer puts a
        node behind the first one on. */
    ghost predicate LedAsAdded(k: nat, answer: int)
      requires k < |chain|
      reads `nodes, `chain, chain`fwd
    {
      forall l: nat {:trigger Led(nodes, chain, l, k)} :: Led(nodes, chain, l, k) <==> l < maxLevel && l <= (answer + 1) % 256
    }

    lemma LedAll(k: nat, answer: int)
      requires Assembled() && k < |chain| && AddedHeight(chain[k].height, maxLevel, answer)
      ensures LedAsAdded(k, answer)
    {
      forall l: nat ensures Led(nodes, chain, l, k) <==> OnLevel(chain[k].height, l) {
        LedLevel(k, l);
      }
    }

    /** A node is linked on as many levels as it is tall. */
    lemma LedLevel(k: nat, l: nat)
      requires Assembled() && k < |chain|
      ensures Led(nodes, chain, l, k) <==> l < chain[k].height
    {
      if l < maxLevel {
        assert LinkedAt(chain, l);
        LedIff(nodes, chain, l, k);
      }
    }

    /** split_node, once its allocation has succeeded: half the pairs, rounded down, move
        to a new node. */
    method SplitNode(n: Node, levelResult: int) returns (x: Node)
      requires Configured() && Suits(n) && n.Fits() && n.count >= 2
      modifies n`count
      ensures fresh(x) && fresh(x.Buffers()) && Suits(x) && 1 <= x.height <= maxLevel && AddedHeight(x.height, maxLevel, levelResult)
      ensures |x.fwd| == x.height && forall l :: 0 <= l < x.height ==> x.fwd[l] == null
      ensures x.back == n && n.Fits() && x.Fits()
      ensures n.Window() == old(n.Window()[..n.count - n.count / 2])
      ensures x.Window() == old(n.Window()[n.count - n.count / 2..])
    {
      x := new Node(NodeHeight(levelResult), nodeSize, useValues);
      var toMove := n.count / 2;
      x.CopyTail(n, toMove);
      n.DropTail(toMove);
      x.back := n;
    }

    /** All of c's nodes before k have smaller keys than the node x, and those from k on
        have larger last keys. */
    ghost predicate Straddles(c: seq<Node>, k: nat, x: Node)
      reads x`offset, x`count, x.keys, set i | 0 <= i < |c| :: c[i], set i | 0 <= i < |c| :: c[i].keys
    {
      && x.Fits() && x.count > 0
      && (forall i {:trigger c[i].count} {:trigger c[i].LastKey()} :: 0 <= i < |c| ==>
            && c[i].Fits() && c[i].count > 0
            && (i < k ==> c[i].LastKey().rank < x.keys[x.offset].rank)
            && (i >= k ==> x.keys[x.offset].rank < c[i].LastKey().rank))
    }

    /** Walk one level, from the predecessor found on the level above, to the last node
        with smaller keys than x. */
    method WalkLevel(ghost c: seq<Node>, ghost k: nat, x: Node, level: nat, prev0: Node?, ghost p0: int)
      returns (prev: Node?, ghost p: int)
      requires LinkedAt(c, level) && Grounded(c) && Straddles(c, k, x) && 0 < k <= |c|
      requires nodes[level] != null
      requires -1 <= p0 < k
      requires if p0 < 0 then prev0 == null else prev0 == c[p0] && level < c[p0].height
      ensures IsPred(c, k, level, p)
      ensures if p < 0 then prev == null else prev == c[p]
      ensures prev != null ==> prev in c && level < prev.height
    {
      prev, p := prev0, p0;
      var cur := if prev != null then prev else nodes[level];
      ghost var ci := if p < 0 then Next(c, 0, level) else p;
      while true
        invariant -1 <= p < k && p <= ci < |c| && cur == c[ci] && level < cur.height
        invariant if p < 0 then prev == null else prev == c[p] && level < c[p].height
        invariant ci == p || ci == Next(c, p + 1, level)
        decreases |c| - ci, ci != p
      {
        FwdLink(c, ci, level);
        assert cur.count > 0;
        var res := Cmp(x.keys[x.offset], cur.LastKey());
        assert res != 0;
        if res < 0 {
          break;
        }
        prev, p := cur, ci;
        if cur.fwd[level] == null {
          break;
        }
        cur := cur.fwd[level];
        ci := Next(c, p + 1, level);
      }
    }

    /** Link x in on one level, right after its predecessor there. */
    method LinkLevel(ghost c: seq<Node>, ghost k: nat, x: Node, level: nat, prev0: Node?, ghost p0: int)
      returns (prev: Node?, ghost p: int)
      requires LinkedAt(c, level) && Grounded(c) && Straddles(c, k, x) && 0 < k <= |c|
      requires Distinct(c) && x !in c
      requires nodes[level] != null && level < x.height == |x.fwd| && x.fwd[level] == null
      requires -1 <= p0 < k
      requires if p0 < 0 then prev0 == null else prev0 == c[p0] && level < c[p0].height
      modifies `nodes, c`fwd, x`fwd
      ensures IsPred(c, k, level, p)
      ensures if p < 0 then prev == null else prev == c[p]
      ensures LinkedAt(Inserted(c, k, x), level)
      ensures OnlyLevel(c, level) && OnlyLevel([x], level)
    {
      prev, p := WalkLevel(c, k, x, level, prev0, p0);
      PutAfter(c, k, x, level, prev, p);
    }

    /** Link x in after the predecessor, or, without one, from the head. */
    method PutAfter(ghost c: seq<Node>, ghost k: nat, x: Node, level: nat, prev: Node?, ghost p: int)
      requires LinkedAt(c, level) && Grounded(c) && Distinct(c) && x !in c
      requires level < x.height == |x.fwd| && IsPred(c, k, level, p)
      requires if p < 0 then prev == null else prev == c[p]
      modifies `nodes, c`fwd, x`fwd
      ensures LinkedAt(Inserted(c, k, x), level)
      ensures OnlyLevel(c, level) && OnlyLevel([x], level)
    {
      NextSkips(c, p + 1, k, level);
      if prev == null {
        x.fwd := x.fwd[level := nodes[level]];
        nodes := nodes[level := x];
      } else {
        FwdLink(c, p, level);
        x.fwd := x.fwd[level := prev.fwd[level]];
        prev.fwd := prev.fwd[level := x];
      }
      LevelInserted(nodes, c, k, x, p, level);
    }

    /** No link of these nodes, and no head link, has changed except on this level. */
    twostate predicate OnlyLevel(e: seq<Node>, new level: nat)
      reads `nodes, e`fwd
    {
      && |nodes| == |old(nodes)|
      && (forall l :: 0 <= l < |nodes| && l != level ==> nodes[l] == old(nodes)[l])
      && (forall i {:trigger e[i].fwd} :: 0 <= i < |e| ==>
            && |e[i].fwd| == |old(e[i].fwd)|
            && forall l :: 0 <= l < |e[i].fwd| && l != level ==> e[i].fwd[l] == old(e[i].fwd)[l])
    }

    twostate lemma OtherLevelKept(e: seq<Node>, new level: nat, new l: nat)
      requires OnlyLevel(e, level) && l != level
      requires old(LinkedAt(e, l))
      ensures LinkedAt(e, l)
    {
    }

    /** On the `done` levels x is linked in; on the others the chain is as it was, and x's
        own links there are still null. */
    ghost predicate LinkedOn(c: seq<Node>, k: nat, x: Node, done: set<nat>)
      reads `nodes, `height, c`fwd, x`fwd
    {
      && k <= |c| && |nodes| == maxLevel && |x.fwd| == x.height <= maxLevel
      && (forall l {:trigger LinkedAt(c, l)} :: 0 <= l < maxLevel && l !in done ==>
            LinkedAt(c, l) && (l < x.height ==> x.fwd[l] == null))
      && (forall l {:trigger LinkedAt(Inserted(c, k, x), l)} :: l in done ==> LinkedAt(Inserted(c, k, x), l))
      && (forall l {:trigger nodes[l]} :: 0 <= l < maxLevel ==> (nodes[l] != null <==> l < height))
    }

    ghost function Levels(lo: nat, hi: nat): (ls: set<nat>)
      ensures forall l: nat {:trigger l in ls} :: l in ls <==> lo <= l < hi
      decreases hi - lo
    {
      if lo >= hi then {} else {lo} + Levels(lo + 1, hi)
    }

    /** Linking x in on one more level, and touching no other, extends the done levels. */
    twostate lemma LinkedOnMore(d: seq<Node>, new k: nat, new level: nat, new done: set<nat>)
      requires k < |d| && level < d[k].height
      requires old(LinkedOn(Removed(d, k), k, d[k], done))
      requires old(Grounded(Removed(d, k)))
      requires OnlyLevel(Removed(d, k), level) && OnlyLevel([d[k]], level)
      requires LinkedAt(d, level)
      requires height == if level < old(height) then old(height) else level + 1
      requires level <= old(height)
      ensures Grounded(Removed(d, k)) && LinkedOn(Removed(d, k), k, d[k], done + {level})
    {
      var c, x := Removed(d, k), d[k];
      RemovedThenInserted(d, k);
      assert [x][0].fwd == x.fwd && old([x][0].fwd) == old(x.fwd);
      assert OnlyLevel(d, level) by {
        forall i | 0 <= i < |d|
          ensures |d[i].fwd| == |old(d[i].fwd)|
          ensures forall l :: 0 <= l < |d[i].fwd| && l != level ==> d[i].fwd[l] == old(d[i].fwd)[l]
        {
          assert d[i] == if i < k then c[i] else if i == k then x else c[i - 1];
        }
      }
      forall l | 0 <= l < maxLevel && l !in done + {level}
        ensures LinkedAt(c, l) && (l < x.height ==> x.fwd[l] == null)
      {
        assert old(LinkedAt(c, l));
        OtherLevelKept(c, level, l);
      }
      forall l | l in done + {level} ensures LinkedAt(d, l) {
        if l != level {
          assert old(LinkedAt(d, l));
          OtherLevelKept(d, level, l);
        }
      }
      NextIsAtMost(d, 0, k, level);
    }

    method LinkNextLevel(ghost c: seq<Node>, ghost k: nat, x: Node, level: nat, prev0: Node?, ghost p0: int, ghost done: set<nat>)
      returns (prev: Node?, ghost p: int)
      requires Grounded(c) && Straddles(c, k, x) && 0 < k <= |c| && Distinct(c) && x !in c
      requires LinkedOn(c, k, x, done) && level < x.height && level !in done
      requires -1 <= p0 < k
      requires if p0 < 0 then prev0 == null else prev0 == c[p0] && level < c[p0].height
      requires prev0 != null || nodes[level] != null
      modifies `nodes, c`fwd, x`fwd
      ensures -1 <= p < k && level < height
      ensures if p < 0 then prev == null else prev == c[p] && level < c[p].height
      ensures Grounded(c) && LinkedOn(c, k, x, done + {level})
    {
      assert LinkedAt(c, level);
      NextIsAtMost(c, 0, p0, level);
      prev, p := LinkLevel(c, k, x, level, prev0, p0);
      InsertedThenRemoved(c, k, x);
      LinkedOnMore(Inserted(c, k, x), k, level, done);
    }

    /** The top-down loop: link x in on the levels above the node it split from. */
    method LinkTaller(ghost c: seq<Node>, ghost k: nat, x: Node, n: Node)
      requires 0 < k <= |c| && n == c[k - 1] && Distinct(c) && x !in c
      requires Grounded(c) && Straddles(c, k, x)
      requires LinkedOn(c, k, x, {}) && n.height <= height
      modifies `nodes, c`fwd, x`fwd
      ensures Grounded(c)
      ensures LinkedOn(c, k, x, Levels(n.height, if x.height < height then x.height else height))
    {
      var prev: Node? := null;
      ghost var p := -1;
      var level := x.height - 1;
      ghost var top: nat := if x.height < height then x.height else height;
      assert Levels(x.height, top) == {};
      while level >= n.height
        invariant 0 <= level + 1 <= x.height
        invariant if n.height <= x.height then n.height - 1 <= level else level == x.height - 1
        invariant -1 <= p < k && if p < 0 then prev == null else prev == c[p] && level < c[p].height
        invariant Grounded(c) && LinkedOn(c, k, x, Levels(level + 1, top))
      {
        if level <= height && (prev != null || nodes[level] != null) {
          prev, p := LinkNextLevel(c, k, x, level, prev, p, Levels(level + 1, top));
          assert Levels(level + 1, top) + {level} == Levels(level, top);
        } else {
          assert Levels(level + 1, top) == Levels(level, top);
        }
        level := level - 1;
      }
      assert Levels(level + 1, top) == Levels(n.height, top);
    }

    /** Levels that were not in use now start at x. */
    method GrowHeight(ghost c: seq<Node>, ghost k: nat, x: Node, ghost lo: nat)
      requires Grounded(c) && Distinct(c) && x !in c && lo <= height && lo <= x.height
      requires LinkedOn(c, k, x, Levels(lo, if x.height < height then x.height else height))
      modifies `nodes, `height
      ensures LinkedOn(c, k, x, Levels(lo, x.height))
      ensures height == if x.height > old(height) then x.height else old(height)
    {
      while x.height > height
        invariant old(height) <= height && (x.height > old(height) ==> height <= x.height)
        invariant x.height <= old(height) ==> height == old(height)
        invariant LinkedOn(c, k, x, Levels(lo, if x.height < height then x.height else height))
      {
        GrowByOne(c, k, x, Levels(lo, height));
        assert Levels(lo, height - 1) + {height - 1} == Levels(lo, height);
      }
    }

    method GrowByOne(ghost c: seq<Node>, ghost k: nat, x: Node, ghost done: set<nat>)
      requires Grounded(c) && LinkedOn(c, k, x, done) && height < x.height && height !in done
      modifies `nodes, `height
      ensures height == old(height) + 1 && LinkedOn(c, k, x, done + {old(height)})
    {
      ghost var level := height;
      assert LinkedAt(c, level);
      NextSkips(c, 0, k, level);
      nodes := nodes[height := x];
      height := height + 1;
      LevelInserted(nodes, c, k, x, -1, level);
      InsertedThenRemoved(c, k, x);
      LinkedOnMore(Inserted(c, k, x), k, level, done);
    }

    /** Link the new node behind the one that split, on every level both are on. */
    method LinkCommon(ghost c: seq<Node>, ghost k: nat, x: Node, n: Node)
      requires 0 < k <= |c| && n == c[k - 1] && Distinct(c) && x !in c && Grounded(c)
      requires LinkedOn(c, k, x, Levels(if n.height < x.height then n.height else x.height, x.height))
      requires n.height <= height
      modifies n`fwd, x`fwd
      ensures Grounded(c) && LinkedOn(c, k, x, Levels(0, x.height))
    {
      var commonHeight := if n.height < x.height then n.height else x.height;
      ghost var done := Levels(commonHeight, x.height);
      for i := 0 to commonHeight
        invariant Grounded(c) && LinkedOn(c, k, x, done + Levels(0, i))
      {
        LinkCommonLevel(c, k, x, n, i, done + Levels(0, i));
        assert done + Levels(0, i) + {i} == done + Levels(0, i + 1);
      }
      assert done + Levels(0, commonHeight) == Levels(0, x.height);
    }

    method LinkCommonLevel(ghost c: seq<Node>, ghost k: nat, x: Node, n: Node, i: nat, ghost done: set<nat>)
      requires 0 < k <= |c| && n == c[k - 1] && Distinct(c) && x !in c && Grounded(c)
      requires LinkedOn(c, k, x, done) && i < n.height <= height && i < x.height && i !in done
      modifies n`fwd, x`fwd
      ensures Grounded(c) && LinkedOn(c, k, x, done + {i})
    {
      assert LinkedAt(c, i);
      FwdLink(c, k - 1, i);
      x.fwd := x.fwd[i := n.fwd[i]];
      n.fwd := n.fwd[i := x];
      LevelInserted(nodes, c, k, x, k - 1, i);
      InsertedThenRemoved(c, k, x);
      LinkedOnMore(Inserted(c, k, x), k, i, done);
    }

    /** The split's first half: the new node holds the tail of n's pairs, not yet linked. */
    method SplitOff(n: Node, ghost i: nat, levelResult: int) returns (x: Node)
      requires Valid() && i < |chain| && n == chain[i] && |wins[i]| == nodeSize
      modifies n`count
      ensures fresh(x) && fresh(x.Buffers()) && x.back == n
      ensures 1 <= x.height <= maxLevel && AddedHeight(x.height, maxLevel, levelResult)
      ensures Linked(chain) && Grounded(chain)
      ensures |x.fwd| == x.height && forall l :: 0 <= l < x.height ==> x.fwd[l] == null
      ensures Holds(Inserted(chain, i + 1, x), Windows.Split(wins, i, nodeSize - nodeSize / 2), Repr + {x} + x.Buffers())
    {
      NodeAt(i);
      x := SplitNode(n, levelResult);
      HoldsUpdated(i, wins[i][..nodeSize - nodeSize / 2]);
      HoldsSplit(i, x);
    }

    lemma HoldsSplit(i: nat, x: Node)
      requires i < |chain| && i < |wins| && |wins[i]| == nodeSize
      requires Holds(chain, wins[i := wins[i][..nodeSize - nodeSize / 2]], Repr)
      requires x !in Repr && x.Buffers() !! Repr && Suits(x) && x.Fits()
      requires x.Window() == wins[i][nodeSize - nodeSize / 2..]
      ensures Holds(Inserted(chain, i + 1, x), Windows.Split(wins, i, nodeSize - nodeSize / 2), Repr + {x} + x.Buffers())
    {
      var m := nodeSize - nodeSize / 2;
      HoldsInserted(chain, wins[i := wins[i][..m]], Repr, i + 1, x);
      assert Windows.Split(wins, i, m) == Inserted(wins[i := wins[i][..m]], i + 1, wins[i][m..]);
    }

    /** A node that was not touched still holds its window. */
    twostate lemma NodeKept(new j: nat)
      requires old(Assembled()) && j < |old(chain)|
      requires old(chain)[j].Untouched()
      ensures old(chain)[j].Fits() && old(chain)[j].Window() == old(wins)[j] && Suits(old(chain)[j])
    {
      assert old(chain[j].Fits()) && old(chain[j].Window()) == old(wins)[j];
    }

    /** One node holding something else, and the others untouched. */
    twostate lemma HoldsUpdated(new i: nat, new w: seq<Pair>)
      requires old(Assembled()) && chain == old(chain) && wins == old(wins) && Repr == old(Repr)
      requires i < |chain| && chain[i].Fits() && chain[i].Window() == w
      requires forall j :: 0 <= j < |chain| && j != i ==> chain[j].Untouched()
      ensures Holds(chain, wins[i := w], Repr)
    {
      forall j | 0 <= j < |chain| ensures chain[j].Fits() && chain[j].Window() == wins[i := w][j] {
        if j != i {
          NodeKept(j);
        }
      }
    }

    lemma Apart(i: nat)
      requires Separate(chain, Repr) && i < |chain|
      ensures forall j {:trigger chain[j]} :: 0 <= j < |chain| && j != i ==>
                chain[j] != chain[i] && chain[j].Buffers() !! chain[i].Buffers()
    {
      forall j | 0 <= j < |chain| && j != i ensures chain[j].Buffers() !! chain[i].Buffers() {
        if j < i {
          assert chain[j].Buffers() !! chain[i].Buffers();
        } else {
          assert chain[i].Buffers() !! chain[j].Buffers();
        }
      }
    }

    lemma HoldsInserted(c: seq<Node>, ws: seq<seq<Pair>>, repr: set<object>, k: nat, x: Node)
      requires Holds(c, ws, repr) && k <= |c|
      requires x !in repr && x.Buffers() !! repr && Suits(x) && x.Fits()
      ensures Holds(Inserted(c, k, x), Inserted(ws, k, x.Window()), repr + {x} + x.Buffers())
    {
      var d, ws' := Inserted(c, k, x), Inserted(ws, k, x.Window());
      SeparateInserted(c, k, x, repr);
      forall j | 0 <= j < |d| ensures d[j].Fits() && d[j].Window() == ws'[j] && Suits(d[j]) {
        var o := if j < k then j else j - 1;
        if j == k {
          assert d[j] == x;
        } else {
          assert d[j] == c[o] && ws'[j] == ws[o];
          assert c[o].keys == c[o].keys && c[o].Fits();
        }
      }
    }

    /** One node's last key is before or after another's first, as their windows are. */
    lemma KeysApart(n: Node, i: nat, x: Node, k: nat, ws: seq<seq<Pair>>)
      requires i < |ws| && k < |ws| && i != k && ws[i] != [] && ws[k] != [] && Ascending(Flatten(ws))
      requires n.Fits() && n.Window() == ws[i] && x.Fits() && x.Window() == ws[k]
      ensures n.count > 0 && x.count > 0
      ensures i < k ==> n.LastKey().rank < x.keys[x.offset].rank
      ensures k < i ==> x.keys[x.offset].rank < n.LastKey().rank
    {
      n.LastKeyOfWindow();
      assert x.keys[x.offset] == x.PairAt(0).key;
      if i < k {
        WindowOrder(ws, i, |ws[i]| - 1, k, 0);
      } else {
        WindowOrder(ws, k, 0, i, |ws[i]| - 1);
      }
    }

    lemma SplitStraddles(c: seq<Node>, k: nat, x: Node, ws: seq<seq<Pair>>, repr: set<object>)
      requires 0 < k <= |c| && Holds(Inserted(c, k, x), ws, repr)
      requires Shaped(ws, nodeSize) && nodeSize >= 2
      ensures Straddles(c, k, x)
    {
      var d := Inserted(c, k, x);
      assert d[k] == x && |ws| == |c| + 1;
      var ranks := LastRanks(ws, nodeSize);
      assert x.Fits() && x.Window() == ws[k];
      forall i | 0 <= i < |c|
        ensures c[i].Fits() && c[i].count > 0
        ensures i < k ==> c[i].LastKey().rank < x.keys[x.offset].rank
        ensures i >= k ==> x.keys[x.offset].rank < c[i].LastKey().rank
      {
        var j := if i < k then i else i + 1;
        assert c[i] == d[j] && d[j].Fits() && d[j].Window() == ws[j];
        KeysApart(d[j], j, x, k, ws);
      }
    }

    /** Rewire every level for x, right after n. */
    method LinkAfter(ghost c: seq<Node>, ghost k: nat, x: Node, n: Node)
      requires 0 < k <= |c| && n == c[k - 1] && Distinct(c) && x !in c
      requires Linked(c) && Grounded(c) && Straddles(c, k, x)
      requires 1 <= x.height <= maxLevel && |x.fwd| == x.height && x.back == n
      requires forall l :: 0 <= l < x.height ==> x.fwd[l] == null
      modifies `nodes, `height, c`fwd, c`back, x`fwd
      ensures Linked(Inserted(c, k, x)) && Grounded(Inserted(c, k, x))
    {
      NothingLinkedYet(c, k, x);
      BackTo(c, k, x, n);
      LinkOnAll(c, k, x, n);
      AllLinked(c, k, x);
    }

    method BackTo(ghost c: seq<Node>, ghost k: nat, x: Node, n: Node)
      requires 0 < k <= |c| && n == c[k - 1] && Distinct(c) && x !in c && x.back == n
      requires Linked(c) && Grounded(c)
      modifies c`back
      ensures BackLinked(Inserted(c, k, x))
    {
      LevelLink(c, k - 1, 0);
      if n.fwd[0] != null {
        n.fwd[0].back := x;
      }
    }

    /** The three loops that link x in on every level it is on. */
    method LinkOnAll(ghost c: seq<Node>, ghost k: nat, x: Node, n: Node)
      requires 0 < k <= |c| && n == c[k - 1] && Distinct(c) && x !in c
      requires Grounded(c) && Straddles(c, k, x) && LinkedOn(c, k, x, {})
      requires n.height <= height && |x.fwd| == x.height
      modifies `nodes, `height, c`fwd, x`fwd
      ensures Grounded(c) && LinkedOn(c, k, x, Levels(0, x.height))
      ensures height == if x.height > old(height) then x.height else old(height)
    {
      LinkTaller(c, k, x, n);
      GrowHeight(c, k, x, if n.height < x.height then n.height else x.height);
      LinkCommon(c, k, x, n);
    }

    lemma NothingLinkedYet(c: seq<Node>, k: nat, x: Node)
      requires Linked(c) && k <= |c| && x.height <= maxLevel && |x.fwd| == x.height
      requires forall l :: 0 <= l < x.height ==> x.fwd[l] == null
      ensures LinkedOn(c, k, x, {})
    {
      forall l | 0 <= l < maxLevel ensures LinkedAt(c, l) && (nodes[l] != null <==> l < height) {
        assert LinkedAt(c, l);
        if l < height {
          HeadLink(c, l);
        }
      }
    }

    lemma AllLinked(c: seq<Node>, k: nat, x: Node)
      requires Grounded(c) && LinkedOn(c, k, x, Levels(0, x.height))
      requires BackLinked(Inserted(c, k, x))
      requires 1 <= height <= maxLevel && 1 <= x.height <= height
      requires forall i :: 0 <= i < |c| ==> c[i].height <= height
      ensures Linked(Inserted(c, k, x)) && Grounded(Inserted(c, k, x))
    {
      var d := Inserted(c, k, x);
      assert forall i :: 0 <= i < |d| ==> d[i] == if i < k then c[i] else if i == k then x else c[i - 1];
      forall l | 0 <= l < maxLevel ensures LinkedAt(d, l) {
        if l >= x.height {
          assert LinkedAt(c, l);
          LevelSkipped(nodes, c, k, x, l);
        } else {
          assert l in Levels(0, x.height);
        }
      }
      assert Grounded(d);
    }

    /** The split's second half: the rewiring leaves the windows alone. */
    method LinkSplit(ghost c: seq<Node>, ghost k: nat, x: Node, n: Node, ghost ws: seq<seq<Pair>>, ghost repr: set<object>)
      requires 0 < k <= |c| && n == c[k - 1] && Linked(c) && Grounded(c)
      requires Configured() && Holds(Inserted(c, k, x), ws, repr) && Shaped(ws, nodeSize)
      requires 1 <= x.height <= maxLevel && |x.fwd| == x.height && x.back == n
      requires forall l :: 0 <= l < x.height ==> x.fwd[l] == null
      modifies `nodes, `height, c`fwd, c`back, x`fwd
      ensures Holds(Inserted(c, k, x), ws, repr)
      ensures Linked(Inserted(c, k, x)) && Grounded(Inserted(c, k, x))
    {
      SplitStraddles(c, k, x, ws, repr);
      DistinctInserted(c, k, x);
      LinkAfter(c, k, x, n);
      ghost var d := Inserted(c, k, x);
      forall i | 0 <= i < |d| ensures d[i].Fits() && d[i].Window() == ws[i] {
        assert old(d[i].Fits()) && old(d[i].Window()) == ws[i];
      }
    }

    lemma DistinctInserted(c: seq<Node>, k: nat, x: Node)
      requires k <= |c| && Distinct(Inserted(c, k, x))
      ensures Distinct(c) && x !in c
    {
      var d := Inserted(c, k, x);
      assert d[k] == x;
      assert forall i :: 0 <= i < |c| ==> c[i] == d[if i < k then i else i + 1];
    }

    /** Split a full node in two: the contents stay, and every level takes in the new one. */
    method SplitFull(n: Node, ghost i: nat, levelResult: int) returns (x: Node)
      requires Valid() && i < |chain| && n == chain[i] && |wins[i]| == nodeSize
      modifies `nodes, `height, `chain, `wins, `Repr, Repr
      ensures Valid() && fresh(Repr - old(Repr))
      ensures chain == Inserted(old(chain), i + 1, x)
      ensures wins == Windows.Split(old(wins), i, nodeSize - nodeSize / 2)
      ensures Contents() == old(Contents()) && AddedHeight(x.height, maxLevel, levelResult)
      ensures i + 1 < |chain| && chain[i + 1] == x && LedAsAdded(i + 1, levelResult)
    {
      SplitShaped(wins, nodeSize, i);
      SplitKeeps(wins, i, nodeSize - nodeSize / 2);
      ghost var ws := Windows.Split(wins, i, nodeSize - nodeSize / 2);
      x := SplitOff(n, i, levelResult);
      AdoptSplit(chain, i + 1, x, n, ws, Repr + {x} + x.Buffers());
      LedAll(i + 1, levelResult);
    }

    method AdoptSplit(ghost c: seq<Node>, ghost k: nat, x: Node, n: Node, ghost ws: seq<seq<Pair>>, ghost repr: set<object>)
      requires 0 < k <= |c| && n == c[k - 1] && Linked(c) && Grounded(c)
      requires Configured() && Holds(Inserted(c, k, x), ws, repr) && Shaped(ws, nodeSize)
      requires this !in repr && NodesOnly(repr)
      requires 1 <= x.height <= maxLevel && |x.fwd| == x.height && x.back == n
      requires forall l :: 0 <= l < x.height ==> x.fwd[l] == null
      modifies `nodes, `height, `chain, `wins, `Repr, c`fwd, c`back, x`fwd
      ensures Valid() && chain == Inserted(c, k, x) && wins == ws && Repr == repr
    {
      LinkSplit(c, k, x, n, ws, repr);
      AdoptAssembled(Inserted(c, k, x), ws, repr);
    }

    // ----- Setting -----

    function Stored(value: Value): Value {
      if useValues then value else Null
    }

    /** Take a node's new window into the abstract state. */
    ghost method SetWindow(i: nat, w: seq<Pair>)
      requires i < |wins| && Configured()
      requires Holds(chain, wins[i := w], Repr) && Grounded(chain) && Linked(chain)
      modifies `wins
      ensures Assembled() && wins == old(wins)[i := w]
    {
      wins := wins[i := w];
    }

    method EditReplace(n: Node, ghost i: nat, index: nat, key: Key, value: Value, replaceKey: bool)
      requires Assembled() && i < |chain| && n == chain[i] && index < |wins[i]|
      modifies `wins, n.Buffers()
      ensures Assembled() && chain == old(chain) && Repr == old(Repr)
      ensures wins == old(wins[i := wins[i][index := Pair(if replaceKey then key else wins[i][index].key, Stored(value))]])
    {
      NodeAt(i);
      Apart(i);
      n.ReplaceAt(index, key, value, replaceKey);
      HoldsUpdated(i, n.Window());
      SetWindow(i, n.Window());
    }

    method EditInsert(n: Node, ghost i: nat, index: nat, key: Key, value: Value)
      requires Assembled() && i < |chain| && n == chain[i] && index <= |wins[i]| < nodeSize
      modifies `wins, n`offset, n`count, n.Buffers()
      ensures Assembled() && chain == old(chain) && Repr == old(Repr)
      ensures wins == old(wins[i := Inserted(wins[i], index, Pair(key, Stored(value)))])
    {
      NodeAt(i);
      Apart(i);
      n.InsertAt(index, key, value);
      HoldsUpdated(i, n.Window());
      SetWindow(i, n.Window());
    }

    method EditAppend(n: Node, ghost i: nat, key: Key, value: Value)
      requires Assembled() && i < |chain| && n == chain[i] && n.offset == 0 && |wins[i]| < nodeSize
      modifies `wins, n`count, n.Buffers()
      ensures Assembled() && chain == old(chain) && Repr == old(Repr) && n.offset == 0
      ensures wins == old(wins[i := wins[i] + [Pair(key, Stored(value))]])
    {
      NodeAt(i);
      Apart(i);
      n.AppendPair(key, value);
      HoldsUpdated(i, n.Window());
      SetWindow(i, n.Window());
    }

    /** Overwrite a pair in place. */
    method ReplaceAt(n: Node, ghost i: nat, index: nat, key: Key, value: Value, replaceKey: bool)
      requires Valid() && i < |chain| && n == chain[i] && Answers(wins, key, true, i, index)
      modifies `wins, Repr
      ensures Valid() && chain == old(chain) && Repr == old(Repr)
      ensures Contents() == MapSet(old(Contents()), key, Stored(value), replaceKey)
      ensures wins == old(wins[i := wins[i][index := Pair(if replaceKey then key else wins[i][index].key, Stored(value))]])
    {
      ReplacedInWindow(wins, nodeSize, i, index, key, Stored(value), replaceKey);
      EditReplace(n, i, index, key, value, replaceKey);
    }

    /** Insert a pair into a node that has room. */
    method InsertAt(n: Node, ghost i: nat, index: nat, key: Key, value: Value, ghost replaceKey: bool)
      requires Valid() && i < |chain| && n == chain[i] && index <= |wins[i]| < nodeSize
      requires Start(wins, i) + index == Pos(Contents(), key) && !Has(Contents(), key)
      modifies `wins, Repr
      ensures Valid() && chain == old(chain) && Repr == old(Repr)
      ensures Contents() == MapSet(old(Contents()), key, Stored(value), replaceKey)
      ensures wins == old(wins[i := Inserted(wins[i], index, Pair(key, Stored(value)))])
    {
      InsertedInWindow(wins, nodeSize, i, index, key, Stored(value), replaceKey);
      EditInsert(n, i, index, key, value);
    }

    /** What a set must do to the sorted map, for each result. */
    ghost predicate SetMeets(s: seq<Pair>, key: Key, value: Value, replaceKey: bool, locked: bool, res: SetResult, s': seq<Pair>) {
      && (res.SetErrorLocked? <==> locked)
      && match res
         case SetErrorLocked => s' == s
         case SetErrorMemory => !Has(s, key) && s' == s
         case Replaced(previous) => Has(s, key) && previous == s[Pos(s, key)]
                                    && s' == MapSet(s, key, Stored(value), replaceKey)
         case Bound => !Has(s, key) && s' == MapSet(s, key, Stored(value), replaceKey)
    }

    /** A new pair goes in at slot a of node i, or into one of the halves if that is full. */
    ghost predicate BoundIn(lay: Layout, i: nat, a: nat, pair: Pair, answer: int, lay': Layout) {
      && Matched(lay) && i < |lay.windows| && a <= |lay.windows[i]| <= nodeSize
      && if |lay.windows[i]| < nodeSize then lay' == Entered(lay, i, a, pair)
         else |lay'.heights| == |lay.heights| + 1
              && AddedHeight(lay'.heights[i + 1], maxLevel, answer)
              && lay' == EnteredSplit(lay, nodeSize, i, a, pair, lay'.heights[i + 1])
    }

    /** What a set does to the nodes. */
    ghost predicate SetLays(lay: Layout, key: Key, value: Value, replaceKey: bool, answer: int, res: SetResult, lay': Layout) {
      match res
      case Replaced(_) =>
        exists i: nat, a: nat :: Answers(lay.windows, key, true, i, a)
          && lay' == Overwritten(lay, i, a, Pair(if replaceKey then key else lay.windows[i][a].key, Stored(value)))
      case Bound =>
        exists i: nat, a: nat :: Answers(lay.windows, key, false, i, a)
          && BoundIn(lay, i, a, Pair(key, Stored(value)), answer, lay')
      case _ => lay' == lay
    }

    /** set's SEARCH_FOUND case. */
    method Rebind(n: Node, ghost i: nat, index: nat, key: Key, value: Value, replaceKey: bool) returns (previous: Pair)
      requires Valid() && i < |chain| && n == chain[i] && Answers(wins, key, true, i, index)
      modifies `chain, `wins, `Repr, Repr
      ensures Valid() && chain == old(chain) && Repr == old(Repr)
      ensures previous == old(Contents())[Pos(old(Contents()), key)]
      ensures Contents() == MapSet(old(Contents()), key, Stored(value), replaceKey)
      ensures wins == old(wins[i := wins[i][index := Pair(if replaceKey then key else wins[i][index].key, Stored(value))]])
    {
      PairIsAt(i, index);
      previous := n.PairAt(index);
      ReplaceAt(n, i, index, key, value, replaceKey);
    }

    /** set's SEARCH_NOT_FOUND case, once any allocation it needs has succeeded. */
    method Bind(n: Node, ghost i: nat, index: nat, key: Key, value: Value, ghost replaceKey: bool, levelResult: int)
      requires Valid() && i < |chain| && n == chain[i] && Answers(wins, key, false, i, index)
      modifies `nodes, `height, `chain, `wins, `Repr, Repr
      ensures Valid() && fresh(Repr - old(Repr)) && chain[0] == old(chain[0])
      ensures Contents() == MapSet(old(Contents()), key, Stored(value), replaceKey)
      ensures BoundIn(old(Lay()), i, index, Pair(key, Stored(value)), levelResult, Lay())
    {
      NodeAt(i);
      if n.count == nodeSize {
        SplitThenInsert(n, i, index, key, value, replaceKey, levelResult);
      } else {
        Enter(n, i, index, key, value, replaceKey);
      }
    }

    /** Split a full node, in terms of the layout. */
    method SplitUpAt(n: Node, ghost i: nat, levelResult: int) returns (x: Node)
      requires Valid() && i < |chain| && n == chain[i] && |wins[i]| == nodeSize
      modifies `nodes, `height, `chain, `wins, `Repr, Repr
      ensures Valid() && fresh(Repr - old(Repr)) && Contents() == old(Contents())
      ensures i + 1 < |chain| && chain[i] == n && chain[i + 1] == x && chain[0] == old(chain[0])
      ensures wins == Windows.Split(old(wins), i, nodeSize - nodeSize / 2) && n.count == nodeSize - nodeSize / 2
      ensures |Lay().heights| == old(|chain|) + 1 && AddedHeight(Lay().heights[i + 1], maxLevel, levelResult)
      ensures Lay() == SplitUp(old(Lay()), nodeSize, i, Lay().heights[i + 1])
    {
      ghost var was := chain;
      x := SplitFull(n, i, levelResult);
      HeightsInserted(was, i + 1, x);
      NodeAt(i);
    }

    method SplitThenInsert(n: Node, ghost i: nat, index: nat, key: Key, value: Value, ghost replaceKey: bool, levelResult: int)
      requires Valid() && i < |chain| && n == chain[i] && index <= |wins[i]| == nodeSize
      requires Start(wins, i) + index == Pos(Contents(), key) && !Has(Contents(), key)
      modifies `nodes, `height, `chain, `wins, `Repr, Repr
      ensures Valid() && fresh(Repr - old(Repr)) && chain[0] == old(chain[0])
      ensures Contents() == MapSet(old(Contents()), key, Stored(value), replaceKey)
      ensures BoundIn(old(Lay()), i, index, Pair(key, Stored(value)), levelResult, Lay())
    {
      var m, at;
      ghost var k;
      m, at, k := MakePlace(n, i, index, levelResult);
      Enter(m, k, at, key, value, replaceKey);
    }

    /** The slot that slot index of node i becomes once that is split. */
    method MakePlace(n: Node, ghost i: nat, index: nat, levelResult: int) returns (m: Node, at: nat, ghost k: nat)
      requires Valid() && i < |chain| && n == chain[i] && index <= |wins[i]| == nodeSize
      modifies `nodes, `height, `chain, `wins, `Repr, Repr
      ensures Valid() && fresh(Repr - old(Repr)) && Contents() == old(Contents()) && chain[0] == old(chain[0])
      ensures k < |chain| && m == chain[k] && at <= |wins[k]| < nodeSize && Start(wins, k) + at == old(Start(wins, i)) + index
      ensures (k, at) == if index <= nodeSize - nodeSize / 2 then (i, index) else (i + 1, index - (nodeSize - nodeSize / 2))
      ensures |Lay().heights| == old(|chain|) + 1 && AddedHeight(Lay().heights[i + 1], maxLevel, levelResult)
      ensures Lay() == SplitUp(old(Lay()), nodeSize, i, Lay().heights[i + 1])
    {
      SplitSlot(wins, i, nodeSize - nodeSize / 2, index);
      var x := SplitUpAt(n, i, levelResult);
      if index > n.count {
        m, at, k := x, index - n.count, i + 1;
      } else {
        m, at, k := n, index, i;
      }
    }

    /** Insert where there is room, in terms of the layout. */
    method Enter(n: Node, ghost i: nat, index: nat, key: Key, value: Value, ghost replaceKey: bool)
      requires Valid() && i < |chain| && n == chain[i] && index <= |wins[i]| < nodeSize
      requires Start(wins, i) + index == Pos(Contents(), key) && !Has(Contents(), key)
      modifies `wins, Repr
      ensures Valid() && chain == old(chain) && Repr == old(Repr)
      ensures Contents() == MapSet(old(Contents()), key, Stored(value), replaceKey)
      ensures Lay() == Entered(old(Lay()), i, index, Pair(key, Stored(value)))
    {
      InsertAt(n, i, index, key, value, replaceKey);
    }

    /** skiparray_set_with_pair, given the level callback's answer and whether an
        allocation would succeed. */
    method SetWithPair(key: Key, value: Value, replaceKey: bool, levelResult: int, allocOk: bool) returns (res: SetResult)
      requires Valid()
      modifies `nodes, `height, `chain, `wins, `Repr, Repr
      ensures Valid() && fresh(Repr - old(Repr)) && chain[0] == old(chain[0])
      ensures iter != null ==> unchanged(`nodes, `height, `chain, `wins, `Repr) && unchanged(Repr)
      ensures res.SetErrorMemory? ==> unchanged(`nodes, `height, `chain, `wins, `Repr) && unchanged(Repr)
      ensures SetMeets(old(Contents()), key, value, replaceKey, iter != null, res, Contents())
      ensures res.SetErrorMemory? <==> iter == null && !allocOk && old(Crowded(wins, key, nodeSize))
      ensures SetLays(old(Lay()), key, value, replaceKey, levelResult, res, Lay())
    {
      if iter != null {
        return SetErrorLocked;
      }
      var found, n, index;
      ghost var i;
      found, n, index, i := Search(key);
      CrowdedIff(key, found, i, index);
      if found {
        var previous := Rebind(n, i, index, key, value, replaceKey);
        return Replaced(previous);
      }
      NodeAt(i);
      if n.count == nodeSize && !allocOk {
        return SetErrorMemory;
      }
      Bind(n, i, index, key, value, replaceKey, levelResult);
      return Bound;
    }

    lemma CrowdedIff(key: Key, found: bool, i: nat, index: nat)
      requires Valid() && Answers(wins, key, found, i, index)
      ensures Crowded(wins, key, nodeSize) <==> !found && |wins[i]| == nodeSize
    {
      if Crowded(wins, key, nodeSize) && !found {
        var j: nat, b: nat :| Answers(wins, key, false, j, b) && |wins[j]| == nodeSize;
        AnswerUnique(wins, nodeSize, key, i, index, j, b);
      }
    }

    // ----- Unlinking a node -----

    /** The node at k is gone from the heads, and from every chain on levels lo and up. */
    ghost predicate UnlinkedFrom(c: seq<Node>, k: nat, lo: nat)
      requires k < |c|
      reads `nodes, c`fwd
    {
      && |nodes| == maxLevel
      && (forall l :: 0 <= l < maxLevel ==> HeadLinked(nodes, Removed(c, k), l))
      && (forall l {:trigger FwdLinked(c, l)} :: 0 <= l < lo ==> FwdLinked(c, l))
      && (forall l {:trigger FwdLinked(Removed(c, k), l)} :: lo <= l < maxLevel ==> FwdLinked(Removed(c, k), l))
    }

    /** Last keys of the nodes before k do not exceed `rank`, those after k do. The node at
        k itself may hold anything, or nothing. */
    ghost predicate Surrounds(c: seq<Node>, k: nat, rank: int)
      reads c, set i | 0 <= i < |c| :: c[i].keys
    {
      forall i {:trigger c[i].count} {:trigger c[i].LastKey()} :: 0 <= i < |c| && i != k ==>
        && c[i].Fits() && c[i].count > 0
        && (i < k ==> c[i].LastKey().rank <= rank)
        && (k < i ==> rank < c[i].LastKey().rank)
    }

    /** Head links to n move on to the node after it. */
    method UnlinkHeads(ghost c: seq<Node>, ghost k: nat, n: Node)
      requires Linked(c) && Grounded(c) && Distinct(c) && 0 < k < |c| && n == c[k]
      modifies `nodes
      ensures |nodes| == maxLevel
      ensures forall l :: 0 <= l < maxLevel ==> HeadLinked(nodes, Removed(c, k), l)
    {
      forall l | 0 <= l < maxLevel
        ensures HeadLinked(nodes, c, l) && FwdLinked(c, l)
        ensures height <= l ==> HeadLinked(nodes, Removed(c, k), l)
      {
        assert LinkedAt(c, l);
        NextIsAtMost(c, 0, Next(c, 0, l), height - 1);
        LinkRemoved(c, k, 0, l);
      }
      var level := height - 1;
      while level >= 0
        invariant -1 <= level < height && |nodes| == maxLevel
        invariant forall l :: 0 <= l <= level ==> HeadLinked(nodes, c, l)
        invariant forall l :: level < l < maxLevel ==> HeadLinked(nodes, Removed(c, k), l)
      {
        LinkRemoved(c, k, 0, level);
        ghost var was := nodes;
        assert LinkedAt(c, level);
        if nodes[level] == n {
          assert Next(c, 0, level) == k;
          FwdLink(c, k, level);
          nodes := nodes[level := n.fwd[level]];
        }
        forall l | 0 <= l < level ensures HeadLinked(nodes, c, l) {
          assert HeadLinked(was, c, l);
        }
        forall l | level < l < maxLevel ensures HeadLinked(nodes, Removed(c, k), l) {
          assert HeadLinked(was, Removed(c, k), l);
        }
        level := level - 1;
      }
    }

    /** Drop the levels that have no node left. */
    method ShrinkHeight(ghost d: seq<Node>)
      requires Grounded(d) && 1 <= height <= maxLevel == |nodes| && d != []
      requires forall l :: 0 <= l < maxLevel ==> HeadLinked(nodes, d, l)
      requires forall l :: height <= l < maxLevel ==> nodes[l] == null
      modifies `height
      ensures 1 <= height <= old(height) && nodes[height - 1] != null
      ensures forall i :: 0 <= i < |d| ==> d[i].height <= height
    {
      while height > 1 && nodes[height - 1] == null
        invariant 1 <= height <= old(height)
        invariant forall l :: height <= l < maxLevel ==> nodes[l] == null
      {
        height := height - 1;
      }
      NextGround(d, 0);
      assert HeadLinked(nodes, d, 0);
      forall i | 0 <= i < |d| ensures d[i].height <= height {
        if height < maxLevel {
          assert HeadLinked(nodes, d, height);
          NextIsAtMost(d, 0, i, height);
        }
      }
    }

    /** Unlink the node at k from the predecessor found on this level. */
    method UnlinkAt(ghost c: seq<Node>, ghost k: nat, n: Node, cur: Node, ghost ci: nat, level: nat)
      requires 0 < k < |c| && n == c[k] && Distinct(c) && Grounded(c)
      requires ci < k && cur == c[ci] && level < cur.height && Next(c, ci + 1, level) == k
      requires level < maxLevel && UnlinkedFrom(c, k, level + 1) && BackLinked(c)
      modifies cur`fwd, c`back
      ensures Grounded(c) && UnlinkedFrom(c, k, level)
      ensures if level > 0 then BackLinked(c) else BackLinked(Removed(c, k))
    {
      assert FwdLinked(c, level);
      assert n.fwd[level] == LinkFrom(c, k + 1, level);
      var nfwd := n.fwd[level];
      UnlinkFwd(c, k, cur, ci, level, nfwd);
      if level == 0 {
        NextGround(c, ci + 1);
        NextGround(c, k + 1);
        BackPast(c, k, cur, nfwd);
      }
    }

    method BackPast(ghost c: seq<Node>, ghost k: nat, cur: Node, nfwd: Node?)
      requires BackLinked(c) && Distinct(c) && 0 < k < |c| && cur == c[k - 1] && nfwd == At(c, k + 1)
      modifies c`back
      ensures BackLinked(Removed(c, k))
    {
      if nfwd != null {
        nfwd.back := cur;
      }
    }

    method UnlinkFwd(ghost c: seq<Node>, ghost k: nat, cur: Node, ghost ci: nat, level: nat, nfwd: Node?)
      requires k < |c| && Distinct(c) && Grounded(c)
      requires ci < k && cur == c[ci] && level < cur.height && Next(c, ci + 1, level) == k
      requires level < maxLevel && UnlinkedFrom(c, k, level + 1)
      requires nfwd == LinkFrom(c, k + 1, level)
      modifies cur`fwd
      ensures Grounded(c) && UnlinkedFrom(c, k, level)
    {
      assert FwdLinked(c, level);
      cur.fwd := cur.fwd[level := nfwd];
      forall i | 0 <= i < |c| && i != k && level < c[i].height
        ensures level < |c[i].fwd| &&
                c[i].fwd[level] == if Next(c, i + 1, level) == k then LinkFrom(c, k + 1, level) else LinkFrom(c, i + 1, level)
      {
        assert i != ci ==> c[i].fwd == old(c[i].fwd);
        NextIsAtMost(c, i + 1, ci, level);
        NextIsAtMost(c, ci + 1, i, level);
      }
      FwdRemoved(c, k, level);
      OthersStayUnlinked(c, k, level);
    }

    twostate lemma OthersStayUnlinked(c: seq<Node>, new k: nat, new level: nat)
      requires k < |c| && level < maxLevel && old(UnlinkedFrom(c, k, level + 1)) && nodes == old(nodes)
      requires forall i {:trigger c[i].fwd} :: 0 <= i < |c| ==>
                 && |c[i].fwd| == |old(c[i].fwd)|
                 && forall l :: 0 <= l < |c[i].fwd| && l != level ==> c[i].fwd[l] == old(c[i].fwd)[l]
      requires FwdLinked(Removed(c, k), level)
      ensures UnlinkedFrom(c, k, level)
    {
      var d := Removed(c, k);
      forall l | 0 <= l < level ensures FwdLinked(c, l) {
        assert old(FwdLinked(c, l));
      }
      forall l | level <= l < maxLevel ensures FwdLinked(d, l) {
        if l > level {
          assert old(FwdLinked(d, l));
          assert forall i :: 0 <= i < |d| ==> d[i] == c[if i < k then i else i + 1];
        }
      }
    }

    /** Nothing links to the node at k on this level, so the level is done. */
    lemma NotOnLevel(c: seq<Node>, k: nat, level: nat)
      requires 0 < k < |c| && Grounded(c) && level < maxLevel && UnlinkedFrom(c, k, level + 1)
      requires c[k].height <= level || k <= Next(Removed(c, k), 0, level)
      ensures UnlinkedFrom(c, k, level) && level > 0
    {
      var d := Removed(c, k);
      NextGround(d, 0);
      assert FwdLinked(c, level);
      forall i | 0 <= i < k && level < c[i].height ensures Next(c, i + 1, level) != k {
        assert d[i] == c[i];
        NextIsAtMost(d, 0, i, level);
      }
      FwdUntouched(c, k, level);
    }

    /** The first node left on this level is before k, or the level is done. */
    lemma HeadBefore(c: seq<Node>, k: nat, rank: int, level: nat)
      requires 0 < k < |c| && Grounded(c) && Surrounds(c, k, rank)
      requires level < height <= maxLevel && UnlinkedFrom(c, k, level + 1) && nodes[height - 1] != null
      ensures nodes[level] != null && nodes[level].Fits() && nodes[level].count > 0
      ensures nodes[level].LastKey().rank <= rank ==>
                Next(Removed(c, k), 0, level) < k && level < nodes[level].height &&
                nodes[level] == c[Next(Removed(c, k), 0, level)]
      ensures nodes[level].LastKey().rank > rank ==> UnlinkedFrom(c, k, level) && level > 0
    {
      var d := Removed(c, k);
      assert HeadLinked(nodes, d, height - 1) && HeadLinked(nodes, d, level);
      NextLower(d, 0, height - 1, level);
      var hi := Next(d, 0, level);
      var i := if hi < k then hi else hi + 1;
      assert d[hi] == c[i] && c[i].count > 0;
      if hi >= k {
        NotOnLevel(c, k, level);
      }
    }

    /** The node after c[ci] on this level is missing, or is the one at k, or is before k,
        or is past k; and unless it is one of the middle two, the level is done. */
    lemma NextBefore(c: seq<Node>, k: nat, rank: int, ci: nat, level: nat)
      requires 0 < k < |c| && Grounded(c) && Surrounds(c, k, rank) && Distinct(c)
      requires level < maxLevel && UnlinkedFrom(c, k, level + 1) && ci < k && level < c[ci].height
      ensures c[ci].fwd[level] == null ==> UnlinkedFrom(c, k, level) && level > 0
      ensures c[ci].fwd[level] == c[k] ==> Next(c, ci + 1, level) == k
      ensures c[ci].fwd[level] != null && c[ci].fwd[level] != c[k] ==>
                var next, ni := c[ci].fwd[level], Next(c, ci + 1, level);
                && next.Fits() && next.count > 0
                && (next.LastKey().rank <= rank ==> ci < ni < k && next == c[ni] && level < next.height)
                && (next.LastKey().rank > rank ==> UnlinkedFrom(c, k, level) && level > 0)
    {
      assert FwdLinked(c, level);
      var ni := Next(c, ci + 1, level);
      assert c[ci].fwd[level] == LinkFrom(c, ci + 1, level);
      NextIsAtMost(c, ci + 1, k, level);
      assert ni < |c| && ni != k ==> c[ni].count > 0;
      if ni > k {
        NotOnLevel(c, k, level);
      }
    }

    /** The level's first node, unless its last key is already larger: then the level has
        nothing to unlink. */
    method FromHead(ghost c: seq<Node>, ghost k: nat, nearest: Node, level: nat) returns (cur: Node?, ghost ci: nat)
      requires 0 < k < |c| && Grounded(c)
      requires nearest.Fits() && nearest.count > 0 && Surrounds(c, k, nearest.LastKey().rank)
      requires level < height <= maxLevel && UnlinkedFrom(c, k, level + 1) && nodes[height - 1] != null
      ensures cur != null ==> ci < k && cur == c[ci] && level < cur.height
      ensures cur == null ==> UnlinkedFrom(c, k, level) && level > 0 && ci == 0
    {
      HeadBefore(c, k, nearest.LastKey().rank, level);
      var head := nodes[level];
      var res := Cmp(head.LastKey(), nearest.LastKey());
      if res < 1 {
        return head, Next(Removed(c, k), 0, level);
      }
      return null, 0;
    }

    /** On one level, go on to the next node, unless its last key is larger; at the node to
        unlink, unlink it. */
    method UnlinkStep(ghost c: seq<Node>, ghost k: nat, n: Node, nearest: Node, level: nat, cur: Node, ghost ci: nat)
      returns (next: Node?, ghost ni: nat)
      requires 0 < k < |c| && n == c[k] && Distinct(c) && Grounded(c)
      requires nearest.Fits() && nearest.count > 0 && Surrounds(c, k, nearest.LastKey().rank)
      requires level < maxLevel && UnlinkedFrom(c, k, level + 1) && BackLinked(c)
      requires ci < k && cur == c[ci] && level < cur.height
      modifies c`fwd, c`back
      ensures Grounded(c)
      ensures next != null ==> ci < ni < k && next == c[ni] && level < next.height
      ensures next != null ==> UnlinkedFrom(c, k, level + 1) && BackLinked(c)
      ensures next == null ==> UnlinkedFrom(c, k, level)
      ensures next == null ==> if level > 0 then BackLinked(c) else BackLinked(Removed(c, k))
    {
      NextBefore(c, k, nearest.LastKey().rank, ci, level);
      next, ni := cur.fwd[level], Next(c, ci + 1, level);
      if next == n {
        UnlinkAt(c, k, n, cur, ci, level);
        next := null;
      } else if next != null {
        var res := Cmp(next.LastKey(), nearest.LastKey());
        if res >= 1 {
          next := null;
        }
      }
    }

    method WalkOnce(ghost c: seq<Node>, ghost k: nat, n: Node, nearest: Node, level: nat, cur: Node?, ghost ci: nat)
      returns (next: Node?, ghost ni: nat)
      requires 0 < k < |c| && n == c[k] && Distinct(c) && Grounded(c)
      requires nearest.Fits() && nearest.count > 0 && Surrounds(c, k, nearest.LastKey().rank)
      requires level < height <= maxLevel && UnlinkedFrom(c, k, level + 1) && BackLinked(c)
      requires nodes[height - 1] != null
      requires cur != null ==> ci < k && cur == c[ci] && level < cur.height
      modifies c`fwd, c`back
      ensures Grounded(c)
      ensures next != null ==> ni < k && next == c[ni] && level < next.height && (cur != null ==> ci < ni)
      ensures next != null ==> UnlinkedFrom(c, k, level + 1) && BackLinked(c)
      ensures next == null ==> UnlinkedFrom(c, k, level)
      ensures next == null ==> if level > 0 then BackLinked(c) else BackLinked(Removed(c, k))
    {
      if cur == null {
        next, ni := FromHead(c, k, nearest, level);
      } else {
        next, ni := UnlinkStep(c, k, n, nearest, level, cur, ci);
      }
    }

    /** The walk down the levels: the node at k is found by keys alone, between the nodes
        whose last keys do not exceed the one before it and those whose last keys do. */
    method UnlinkLevels(ghost c: seq<Node>, ghost k: nat, n: Node, nearest: Node)
      requires 0 < k < |c| && n == c[k] && Distinct(c) && Grounded(c)
      requires nearest == c[k - 1] && nearest.Fits() && nearest.count > 0
      requires Surrounds(c, k, nearest.LastKey().rank)
      requires 1 <= height <= maxLevel && UnlinkedFrom(c, k, height) && BackLinked(c)
      requires nodes[height - 1] != null
      modifies c`fwd, c`back
      ensures Grounded(c) && UnlinkedFrom(c, k, 0) && BackLinked(Removed(c, k))
    {
      var level: int := height - 1;
      var cur: Node? := null;
      ghost var ci: nat := 0;
      while level >= 0
        invariant -1 <= level < height && Grounded(c) && UnlinkedFrom(c, k, level + 1)
        invariant cur != null ==> ci < k && cur == c[ci] && level < cur.height
        invariant if level >= 0 then BackLinked(c) else BackLinked(Removed(c, k))
        decreases level, cur == null, k - ci
      {
        var next;
        ghost var ni;
        next, ni := WalkOnce(c, k, n, nearest, level, cur, ci);
        if next != null {
          cur, ci := next, ni;
        } else {
          level := level - 1;
        }
      }
    }

    /** unlink_node, which only ever gets a node with one before it. The windows of the
        nodes around it may already hold its pairs. */
    method UnlinkNode(n: Node, ghost c: seq<Node>, ghost k: nat)
      requires Linked(c) && Grounded(c) && Distinct(c) && 0 < k < |c| && n == c[k]
      requires c[k - 1].Fits() && c[k - 1].count > 0 && Surrounds(c, k, c[k - 1].LastKey().rank)
      modifies `nodes, `height, c`fwd, c`back
      ensures Linked(Removed(c, k)) && Grounded(Removed(c, k))
    {
      UnlinkHeads(c, k, n);
      HeadsGone(c, k);
      ShrinkHeight(Removed(c, k));
      AboveHeight(c, k);
      assert n.back == c[k - 1];
      var nearest := n.back;
      UnlinkLevels(c, k, n, nearest);
      AllUnlinked(c, k);
    }

    twostate lemma HeadsGone(c: seq<Node>, new k: nat)
      requires old(Linked(c)) && Grounded(c) && height == old(height) && 0 < k < |c|
      requires forall i {:trigger c[i].fwd} :: 0 <= i < |c| ==> c[i].fwd == old(c[i].fwd)
      requires |nodes| == maxLevel && forall l :: 0 <= l < maxLevel ==> HeadLinked(nodes, Removed(c, k), l)
      ensures forall l :: 0 <= l < maxLevel ==> FwdLinked(c, l)
      ensures forall l :: height <= l < maxLevel ==> nodes[l] == null
      ensures Grounded(Removed(c, k)) && 1 <= height <= maxLevel
    {
      var d := Removed(c, k);
      assert forall i :: 0 <= i < |d| ==> d[i] == c[if i < k then i else i + 1];
      forall l | 0 <= l < maxLevel ensures FwdLinked(c, l) && (height <= l ==> nodes[l] == null) {
        assert old(LinkedAt(c, l));
        assert HeadLinked(nodes, d, l);
      }
    }

    lemma AboveHeight(c: seq<Node>, k: nat)
      requires k < |c| && height <= maxLevel == |nodes|
      requires forall l :: 0 <= l < maxLevel ==> FwdLinked(c, l)
      requires forall l :: 0 <= l < maxLevel ==> HeadLinked(nodes, Removed(c, k), l)
      requires forall i :: 0 <= i < |Removed(c, k)| ==> Removed(c, k)[i].height <= height
      ensures UnlinkedFrom(c, k, height)
    {
    }

    lemma AllUnlinked(c: seq<Node>, k: nat)
      requires 0 < k < |c| && Grounded(c) && UnlinkedFrom(c, k, 0) && BackLinked(Removed(c, k))
      requires 1 <= height <= maxLevel && nodes[height - 1] != null
      requires forall i :: 0 <= i < |Removed(c, k)| ==> Removed(c, k)[i].height <= height
      ensures Linked(Removed(c, k)) && Grounded(Removed(c, k))
    {
      var d := Removed(c, k);
      assert forall i :: 0 <= i < |d| ==> d[i] == c[if i < k then i else i + 1];
      forall l | 0 <= l < maxLevel ensures LinkedAt(d, l) {
        assert HeadLinked(nodes, d, l) && FwdLinked(d, l);
      }
    }

    // ----- Moving pairs between neighbours -----

    method EditRemove(n: Node, ghost i: nat, index: nat)
      requires Assembled() && i < |chain| && n == chain[i] && index < |wins[i]|
      modifies `wins, n`offset, n`count, n.Buffers()
      ensures Assembled() && chain == old(chain) && Repr == old(Repr)
      ensures wins == old(wins[i := Removed(wins[i], index)])
    {
      NodeAt(i);
      Apart(i);
      n.RemoveAt(index);
      HoldsUpdated(i, n.Window());
      SetWindow(i, n.Window());
    }

    /** Append the first m pairs of the next node's window, from the front of the buffers. */
    method Absorb(n: Node, next: Node, ghost i: nat, m: nat)
      requires Assembled() && i + 1 < |chain| && n == chain[i] && next == chain[i + 1]
      requires m <= |wins[i + 1]| && |wins[i]| + m <= nodeSize
      modifies `wins, n`offset, n`count, n.Buffers()
      ensures Assembled() && chain == old(chain) && Repr == old(Repr)
      ensures wins == old(wins[i := wins[i] + wins[i + 1][..m]])
    {
      NodeAt(i);
      NodeAt(i + 1);
      Apart(i);
      n.Absorb(next, m);
      HoldsUpdated(i, n.Window());
      SetWindow(i, n.Window());
    }

    /** Give up the first m pairs, which the node before has taken. */
    method GiveUp(n: Node, ghost i: nat, m: nat)
      requires Assembled() && i < |chain| && n == chain[i] && m < |wins[i]|
      modifies `wins, n`offset, n`count
      ensures Assembled() && chain == old(chain) && Repr == old(Repr)
      ensures wins == old(wins[i := wins[i][m..]])
    {
      NodeAt(i);
      Apart(i);
      n.DropHead(m);
      HoldsUpdated(i, n.Window());
      SetWindow(i, n.Window());
    }

    /** Once the node before k has taken the pairs of the node at k, keys find the way. */
    lemma AroundOf(ws: seq<seq<Pair>>, k: nat)
      requires 0 < k < |ws| && wins == ws[k - 1 := ws[k - 1] + ws[k]] && Ascending(Flatten(ws))
      requires forall j :: 0 <= j < |wins| && j != k ==> wins[j] != []
      ensures Around(wins, k)
    {
      forall j | 0 <= j < |ws| && j != k && j != k - 1 ensures ws[j] != [] {
        assert wins[j] == ws[j];
      }
      assert wins[k - 1] != [];
      MergedAround(ws, k);
    }

    lemma AroundSurrounds(k: nat)
      requires Assembled() && Around(wins, k)
      ensures chain[k - 1].Fits() && chain[k - 1].count > 0
      ensures Surrounds(chain, k, chain[k - 1].LastKey().rank)
    {
      LastKeyAt(k - 1);
      forall j | 0 <= j < |chain| && j != k
        ensures chain[j].Fits() && chain[j].count > 0
        ensures j < k ==> chain[j].LastKey().rank <= chain[k - 1].LastKey().rank
        ensures k < j ==> chain[k - 1].LastKey().rank < chain[j].LastKey().rank
      {
        assert wins[j] != [];
        LastKeyAt(j);
      }
    }

    lemma LastKeyAt(i: nat)
      requires Assembled() && i < |chain| && wins[i] != []
      ensures chain[i].Fits() && chain[i].count > 0 && chain[i].LastKey().rank == LastRank(wins[i])
    {
      NodeAt(i);
      chain[i].LastKeyOfWindow();
    }

    lemma HoldsRemoved(c: seq<Node>, ws: seq<seq<Pair>>, repr: set<object>, k: nat)
      requires Holds(c, ws, repr) && k < |c|
      ensures Holds(Removed(c, k), Removed(ws, k), repr)
    {
      SeparateRemoved(c, k, repr);
      var d := Removed(c, k);
      forall j | 0 <= j < |d| ensures d[j].Fits() && d[j].Window() == Removed(ws, k)[j] && Suits(d[j]) {
        var o := if j < k then j else j + 1;
        assert d[j] == c[o] && c[o].Fits() && c[o].keys == c[o].keys;
      }
    }

    /** Unlink a node whose pairs the node before it holds as well. */
    method DropNode(n: Node, ghost k: nat, ghost ws: seq<seq<Pair>>)
      requires Assembled() && 0 < k < |chain| && n == chain[k]
      requires |ws| == |wins| && wins == ws[k - 1 := ws[k - 1] + ws[k]] && Ascending(Flatten(ws))
      requires forall j :: 0 <= j < |wins| && j != k ==> wins[j] != []
      modifies `nodes, `height, `chain, `wins, `Repr, Repr
      ensures Assembled() && chain == Removed(old(chain), k) && Repr == old(Repr)
      ensures wins == Joined(ws, k - 1)
    {
      AroundOf(ws, k);
      AroundSurrounds(k);
      RemovedIsJoined(ws, k);
      UnlinkHeld(n, k);
      AdoptAssembled(Removed(chain, k), Joined(ws, k - 1), Repr);
    }

    method UnlinkHeld(n: Node, ghost k: nat)
      requires Assembled() && 0 < k < |chain| && n == chain[k]
      requires chain[k - 1].Fits() && chain[k - 1].count > 0 && Surrounds(chain, k, chain[k - 1].LastKey().rank)
      modifies `nodes, `height, Repr
      ensures Holds(Removed(chain, k), Removed(wins, k), Repr)
      ensures Grounded(Removed(chain, k)) && Linked(Removed(chain, k))
    {
      UnlinkNode(n, chain, k);
      WindowsKept();
      HoldsRemoved(chain, wins, Repr, k);
    }

    ghost method AdoptAssembled(c: seq<Node>, ws: seq<seq<Pair>>, repr: set<object>)
      requires Configured() && this !in repr && NodesOnly(repr) && Holds(c, ws, repr) && Grounded(c) && Linked(c)
      modifies `chain, `wins, `Repr
      ensures Assembled() && chain == c && wins == ws && Repr == repr
    {
      chain, wins, Repr := c, ws, repr;
    }

    /** Rewiring alone leaves the windows as they are. */
    twostate lemma WindowsKept()
      requires old(Assembled()) && chain == old(chain) && wins == old(wins) && Repr == old(Repr)
      requires forall j :: 0 <= j < |chain| ==> chain[j].Untouched()
      ensures Holds(chain, wins, Repr)
    {
      forall j | 0 <= j < |chain| ensures chain[j].Fits() && chain[j].Window() == wins[j] {
        NodeKept(j);
      }
    }

    /** Merge the node at i + 1 into the one before it. */
    method MergeInto(n: Node, next: Node, ghost i: nat)
      requires Assembled() && i + 1 < |chain| && n == chain[i] && next == chain[i + 1]
      requires |wins[i]| + |wins[i + 1]| <= nodeSize && wins[i] + wins[i + 1] != []
      requires Ascending(Contents()) && forall j :: 0 <= j < |wins| && j != i && j != i + 1 ==> wins[j] != []
      modifies `nodes, `height, `chain, `wins, `Repr, Repr
      ensures Assembled() && chain == Removed(old(chain), i + 1) && Repr == old(Repr)
      ensures wins == old(Joined(wins, i))
    {
      ghost var ws := wins;
      NodeAt(i + 1);
      assert ws[i + 1][..|ws[i + 1]|] == ws[i + 1];
      Absorb(n, next, i, next.count);
      DropNode(next, i + 1, ws);
    }

    /** Take from the next node all it has over half a node. */
    method ShiftFrom(n: Node, next: Node, ghost i: nat)
      requires Assembled() && i + 1 < |chain| && n == chain[i] && next == chain[i + 1]
      requires nodeSize / 2 < |wins[i + 1]| && |wins[i]| + |wins[i + 1]| - nodeSize / 2 <= nodeSize
      modifies `wins, Repr
      ensures Assembled() && chain == old(chain) && Repr == old(Repr)
      ensures wins == old(Shifted(wins, i, |wins[i + 1]| - nodeSize / 2))
    {
      NodeAt(i + 1);
      var required := nodeSize / 2;
      var toMove := next.count - required;
      ShiftedIs(wins, i, toMove);
      Absorb(n, next, i, toMove);
      GiveUp(next, i + 1, toMove);
    }

    /** Merging makes up for the node at j, be it the one that grows or, at the end of the
        chain, the one that goes. */
    method Merge(n: Node, next: Node, ghost i: nat, ghost j: nat)
      requires Assembled() && i + 1 < |chain| && n == chain[i] && next == chain[i + 1]
      requires Lacking(wins, nodeSize, j) && (j == i || (j == i + 1 && j == |wins| - 1))
      requires |wins[i]| + |wins[i + 1]| <= nodeSize
      modifies `nodes, `height, `chain, `wins, `Repr, Repr
      ensures Valid() && Contents() == old(Contents()) && Repr == old(Repr) && chain[0] == old(chain[0])
      ensures chain == old(Removed(chain, i + 1)) && Lay() == old(MadeUp(Lay(), nodeSize, j))
    {
      JoinedShaped(wins, nodeSize, j, i);
      HeightsRemoved(chain, i + 1);
      MergeInto(n, next, i);
    }

    /** Shifting makes up for the node at i: the next one keeps exactly half a node. */
    method Rebalance(n: Node, next: Node, ghost i: nat)
      requires Assembled() && i + 1 < |chain| && n == chain[i] && next == chain[i + 1]
      requires Lacking(wins, nodeSize, i) && |wins[i]| + |wins[i + 1]| > nodeSize
      modifies `wins, Repr
      ensures Valid() && Contents() == old(Contents()) && Repr == old(Repr) && chain == old(chain)
      ensures |wins[i + 1]| == nodeSize / 2 <= |wins[i]| < nodeSize
      ensures Lay() == old(MadeUp(Lay(), nodeSize, i))
    {
      ShiftedShaped(wins, nodeSize, i);
      ShiftFrom(n, next, i);
    }

    /** An under-filled last node: merge it into the node before it if it fits there. */
    method MakeUpFromPrev(n: Node, prev: Node, ghost i: nat)
      requires Assembled() && Lacking(wins, nodeSize, i) && 0 < i == |chain| - 1
      requires n == chain[i] && prev == chain[i - 1]
      modifies `nodes, `height, `chain, `wins, `Repr, Repr
      ensures Valid() && Contents() == old(Contents()) && Repr == old(Repr) && chain[0] == old(chain[0])
      ensures Lay() == old(MadeUp(Lay(), nodeSize, i))
    {
      NodeAt(i);
      NodeAt(i - 1);
      if prev.count + n.count <= nodeSize {
        Merge(prev, n, i - 1, i);
      } else {
        LackingTolerated(wins, nodeSize, i);
      }
    }

    /** A node with one after it: merge with that one if they fit together, or else take
        pairs from it. */
    method MakeUpFromNext(n: Node, next: Node, ghost i: nat)
      requires Assembled() && Lacking(wins, nodeSize, i) && i + 1 < |chain|
      requires n == chain[i] && next == chain[i + 1]
      modifies `nodes, `height, `chain, `wins, `Repr, Repr
      ensures Valid() && Contents() == old(Contents()) && Repr == old(Repr) && chain[0] == old(chain[0])
      ensures Lay() == old(MadeUp(Lay(), nodeSize, i))
    {
      NodeAt(i);
      NodeAt(i + 1);
      if next.count + n.count <= nodeSize {
        Merge(n, next, i, i);
      } else {
        Rebalance(n, next, i);
      }
    }

    /** shift_or_merge: make up for a node that has come to hold too few pairs. */
    method ShiftOrMerge(n: Node, ghost i: nat)
      requires Assembled() && Lacking(wins, nodeSize, i) && n == chain[i]
      modifies `nodes, `height, `chain, `wins, `Repr, Repr
      ensures Valid() && Contents() == old(Contents()) && Repr == old(Repr) && chain[0] == old(chain[0])
      ensures Lay() == old(MadeUp(Lay(), nodeSize, i))
      ensures |chain| == old(|chain| - if FitTogether(wins, nodeSize, i) || (i + 1 == |wins| && i > 0 && FitTogether(wins, nodeSize, i - 1))
                                       then 1 else 0)
    {
      Neighbours(i);
      if n == nodes[0] && n.fwd[0] == null {
        LackingTolerated(wins, nodeSize, i);
        return;
      }
      var next := n.fwd[0];
      if next == null {
        MakeUpFromPrev(n, n.back, i);
      } else {
        MakeUpFromNext(n, next, i);
      }
    }

    /** The level-0 links around a node. */
    lemma Neighbours(i: nat)
      requires Assembled() && i < |chain|
      ensures nodes[0] == chain[0] && |chain[i].fwd| > 0
      ensures chain[i].fwd[0] == if i + 1 < |chain| then chain[i + 1] else null
      ensures chain[i].back == if i == 0 then null else chain[i - 1]
      ensures chain[i] == chain[0] ==> i == 0
    {
      HeadLink(chain, 0);
      NextGround(chain, 0);
      LevelLink(chain, i, 0);
    }

    /** The first node, at hand in nodes[0], is empty exactly when there are no pairs. */
    lemma HeadNode()
      requires Valid()
      ensures nodes[0] == chain[0] && chain[0].Fits() && chain[0].count == |wins[0]|
      ensures chain[0].count == 0 <==> Contents() == []
      ensures Contents() != [] ==> chain[0].PairAt(0) == Contents()[0]
    {
      Neighbours(0);
      NodeAt(0);
      Ends(wins, nodeSize);
    }

    // ----- Forgetting -----

    ghost predicate ForgetMeets(s: seq<Pair>, key: Key, locked: bool, res: ForgetResult, s': seq<Pair>) {
      && (res.ForgetErrorLocked? <==> locked)
      && match res
         case ForgetErrorLocked => s' == s
         case ForgetNotFound => !Has(s, key) && s' == s
         case Forgotten(pair) => Has(s, key) && pair == s[Pos(s, key)] && s' == MapForget(s, key)
    }

    /** What forgetting does to the nodes. */
    ghost predicate ForgetLays(lay: Layout, key: Key, res: ForgetResult, lay': Layout) {
      match res
      case Forgotten(_) =>
        exists i: nat, a: nat :: Answers(lay.windows, key, true, i, a)
          && Matched(lay) && lay' == TakenOut(lay, nodeSize, i, a)
      case _ => lay' == lay
    }

    /** skiparray_forget */
    method Forget(key: Key) returns (res: ForgetResult)
      requires Valid()
      modifies `nodes, `height, `chain, `wins, `Repr, Repr
      ensures Valid() && Repr == old(Repr) && chain[0] == old(chain[0])
      ensures iter != null ==> unchanged(`nodes, `height, `chain, `wins, `Repr) && unchanged(Repr)
      ensures ForgetMeets(old(Contents()), key, iter != null, res, Contents())
      ensures ForgetLays(old(Lay()), key, res, Lay())
    {
      if iter != null {
        return ForgetErrorLocked;
      }
      var found, n, index;
      ghost var i;
      found, n, index, i := Search(key);
      if !found {
        return ForgetNotFound;
      }
      var pair := RemoveFound(n, i, index, key);
      return Forgotten(pair);
    }

    /** A slot of a node holds the pair at its flat position. */
    lemma PairIsAt(i: nat, a: nat)
      requires Assembled() && i < |chain| && a < |wins[i]|
      ensures Start(wins, i) + a < |Contents()| && chain[i].Fits() && chain[i].count == |wins[i]|
      ensures chain[i].PairAt(a) == Contents()[Start(wins, i) + a]
    {
      NodeAt(i);
      FlattenIndex(wins, i, a);
    }

    method RemoveFound(n: Node, ghost i: nat, index: nat, key: Key) returns (pair: Pair)
      requires Valid() && i < |chain| && n == chain[i] && Answers(wins, key, true, i, index)
      modifies `nodes, `height, `chain, `wins, `Repr, Repr
      ensures Valid() && Repr == old(Repr) && chain[0] == old(chain[0])
      ensures pair == old(Contents())[Pos(old(Contents()), key)] && Contents() == MapForget(old(Contents()), key)
      ensures Lay() == old(TakenOut(Lay(), nodeSize, i, index))
    {
      pair := TakeOut(n, i, index);
      if n.count < nodeSize / 2 {
        ShiftOrMerge(n, i);
      }
    }

    /** Read and remove one pair, which may leave the node lacking. */
    method TakeOut(n: Node, ghost i: nat, index: nat) returns (pair: Pair)
      requires Valid() && i < |chain| && n == chain[i] && index < |wins[i]|
      modifies `wins, Repr
      ensures Assembled() && chain == old(chain) && Repr == old(Repr) && i < |wins|
      ensures old(Start(wins, i) + index < |Contents()|)
      ensures pair == old(Contents()[Start(wins, i) + index])
      ensures Contents() == old(Removed(Contents(), Start(wins, i) + index))
      ensures n.count == |wins[i]| == |old(wins[i])| - 1 && wins == old(wins[i := Removed(wins[i], index)])
      ensures if n.count < nodeSize / 2 then Lacking(wins, nodeSize, i) else Shaped(wins, nodeSize)
    {
      PairIsAt(i, index);
      RemovedFromWindow(wins, nodeSize, i, index);
      pair := n.PairAt(index);
      EditRemove(n, i, index);
      NodeAt(i);
    }

    // ----- Popping the last pair -----

    /** last_node */
    method LastNode() returns (n: Node)
      requires Valid()
      ensures n == chain[|chain| - 1]
    {
      var level: nat := height - 1;
      HeadLink(chain, level);
      n := nodes[level];
      ghost var i: nat := Next(chain, 0, level);
      while true
        invariant i < |chain| && n == chain[i] && level < n.height
        decreases level, |chain| - i
      {
        LevelLink(chain, i, level);
        var next := n.fwd[level];
        if next != null {
          n := next;
          i := Next(chain, i + 1, level);
        } else if level == 0 {
          return;
        } else {
          level := level - 1;
        }
      }
    }

    /** pop_last's own walk to the last node. */
    method FindLast() returns (cur: Node)
      requires Valid()
      ensures cur == chain[|chain| - 1]
    {
      var level: int := height - 1;
      HeadLink(chain, level);
      cur := nodes[level];
      ghost var i: nat := Next(chain, 0, level);
      while level >= 0
        invariant 0 <= level < cur.height && i < |chain| && cur == chain[i]
        decreases level, |chain| - i
      {
        LevelLink(chain, i, level);
        LevelLink(chain, i, 0);
        if cur.fwd[level] == null {
          if cur.fwd[0] == null {
            break;
          }
          level := level - 1;
        } else {
          cur := cur.fwd[level];
          i := Next(chain, i + 1, level);
        }
      }
    }

    method EditDropLast(n: Node, ghost i: nat, ghost a: nat)
      requires Assembled() && i < |chain| && n == chain[i] && a + 1 == |wins[i]|
      modifies `wins, n`count
      ensures Assembled() && chain == old(chain) && Repr == old(Repr)
      ensures wins == old(wins[i := Removed(wins[i], a)])
    {
      NodeAt(i);
      Apart(i);
      assert Removed(wins[i], a) == wins[i][..a];
      n.DropTail(1);
      HoldsUpdated(i, n.Window());
      SetWindow(i, n.Window());
    }

    ghost predicate PopMeets(s: seq<Pair>, at: int, locked: bool, res: PopResult, s': seq<Pair>) {
      && (res.PopErrorLocked? <==> locked)
      && match res
         case PopErrorLocked => s' == s
         case PopEmpty => s == [] && s' == s
         case Popped(pair) => 0 <= at < |s| && pair == s[at] && s' == Removed(s, at)
    }

    ghost predicate LastLays(lay: Layout, res: PopResult, lay': Layout) {
      if res.Popped? then
        Matched(lay) && lay.windows != [] && lay.windows[|lay.windows| - 1] != [] && lay' == LastDropped(lay)
      else lay' == lay
    }

    /** skiparray_pop_last */
    method PopLast() returns (res: PopResult)
      requires Valid()
      modifies `nodes, `height, `chain, `wins, `Repr, Repr
      ensures Valid() && Repr == old(Repr) && chain[0] == old(chain[0])
      ensures iter != null ==> unchanged(`nodes, `height, `chain, `wins, `Repr) && unchanged(Repr)
      ensures PopMeets(old(Contents()), |old(Contents())| - 1, iter != null, res, Contents())
      ensures LastLays(old(Lay()), res, Lay())
    {
      HeadNode();
      var head := nodes[0];
      if iter != null {
        return PopErrorLocked;
      }
      if head.count == 0 {
        return PopEmpty;
      }
      var pair := PopTail();
      return Popped(pair);
    }

    method PopTail() returns (pair: Pair)
      requires Valid() && Contents() != []
      modifies `nodes, `height, `chain, `wins, `Repr, Repr
      ensures Valid() && Repr == old(Repr) && chain[0] == old(chain[0])
      ensures pair == old(Contents()[|Contents()| - 1]) && Contents() == old(Removed(Contents(), |Contents()| - 1))
      ensures old(wins[|wins| - 1]) != [] && Lay() == old(LastDropped(Lay()))
    {
      var last := FindLast();
      pair := PopFrom(last);
    }

    method PopFrom(last: Node) returns (pair: Pair)
      requires Valid() && Contents() != [] && last == chain[|chain| - 1]
      modifies `nodes, `height, `chain, `wins, `Repr, Repr
      ensures Valid() && Repr == old(Repr) && chain[0] == old(chain[0])
      ensures pair == old(Contents()[|Contents()| - 1]) && Contents() == old(Removed(Contents(), |Contents()| - 1))
      ensures old(wins[|wins| - 1]) != [] && Lay() == old(LastDropped(Lay()))
    {
      LastFacts();
      pair := last.PairAt(last.count - 1);
      DropLastPair(last);
    }

    method DropLastPair(last: Node)
      requires Valid() && Contents() != [] && last == chain[|chain| - 1]
      modifies `nodes, `height, `chain, `wins, `Repr, Repr
      ensures Valid() && Repr == old(Repr) && chain[0] == old(chain[0])
      ensures Contents() == old(Removed(Contents(), |Contents()| - 1))
      ensures old(wins[|wins| - 1]) != [] && Lay() == old(LastDropped(Lay()))
    {
      RemovedAtEnd(wins, nodeSize);
      ghost var k := |chain| - 1;
      EditDropLast(last, k, |wins[k]| - 1);
      DropIfEmpty(last);
    }

    /** The last node is empty only where there are no pairs, and ends with the last one. */
    lemma LastFacts()
      requires Valid()
      ensures var k := |chain| - 1;
              && chain[k].Fits() && chain[k].count == |wins[k]|
              && |Contents()| == Start(wins, k) + |wins[k]|
              && (wins[k] == [] <==> Contents() == [])
              && (wins[k] != [] ==> chain[k].PairAt(|wins[k]| - 1) == Contents()[|Contents()| - 1])
    {
      LastEnd(wins, nodeSize);
      NodeAt(|chain| - 1);
    }

    /** The last node goes when it is empty, unless it is the only one. */
    method DropIfEmpty(last: Node)
      requires Assembled() && chain != [] && last == chain[|chain| - 1]
      requires Shaped(wins, nodeSize) || Lacking(wins, nodeSize, |wins| - 1)
      modifies `nodes, `height, `chain, `wins, `Repr, Repr
      ensures Valid() && Contents() == old(Contents()) && Repr == old(Repr) && chain[0] == old(chain[0])
      ensures Lay() == old(if wins[|wins| - 1] == [] && |wins| > 1 then Layout(wins[..|wins| - 1], Heights(chain)[..|wins| - 1]) else Lay())
    {
      ghost var k := |chain| - 1;
      NodeAt(k);
      Neighbours(k);
      if last.count == 0 && last != nodes[0] {
        DropEmptyLast(last, k);
      } else if Lacking(wins, nodeSize, k) {
        LackingTolerated(wins, nodeSize, k);
      }
    }

    method DropEmptyLast(last: Node, ghost k: nat)
      requires Assembled() && Lacking(wins, nodeSize, k) && 0 < k == |chain| - 1 && wins[k] == [] && last == chain[k]
      modifies `nodes, `height, `chain, `wins, `Repr, Repr
      ensures Valid() && Contents() == old(Contents()) && Repr == old(Repr) && chain[0] == old(chain[0])
      ensures Lay() == old(Layout(wins[..k], Heights(chain)[..k]))
    {
      JoinedShaped(wins, nodeSize, k, k - 1);
      assert wins[k - 1] + wins[k] == wins[k - 1];
      assert wins[k - 1 := wins[k - 1]] == wins;
      assert Joined(wins, k - 1) == wins[..k] && Removed(Heights(chain), k) == Heights(chain)[..k];
      HeightsRemoved(chain, k);
      DropNode(last, k, wins);
    }

    // ----- Popping the first pair -----

    /** The second node of the chain is gone from the levels below `hi`. */
    ghost predicate SecondGone(c: seq<Node>, hi: nat)
      reads `nodes, c`fwd
    {
      && |c| > 1 && |nodes| == maxLevel
      && (forall l {:trigger LinkedAt(Removed(c, 1), l)} :: 0 <= l < hi && l < maxLevel ==> LinkedAt(Removed(c, 1), l))
      && (forall l {:trigger LinkedAt(c, l)} :: hi <= l < maxLevel ==> LinkedAt(c, l))
    }

    /** On one of next's levels, the head node or the head link takes over its link. */
    method UnlinkSecondAt(ghost c: seq<Node>, head: Node, next: Node, i: nat)
      requires SecondGone(c, i) && Grounded(c) && Distinct(c) && head == c[0] && next == c[1]
      requires i < next.height
      modifies `nodes, head`fwd
      ensures SecondGone(c, i + 1) && Grounded(c)
    {
      assert LinkedAt(c, i);
      FwdLink(c, 1, i);
      LinkRemoved(c, 1, 0, i);
      if i < head.height {
        HeadTakesOver(c, head, i, next.fwd[i]);
      } else {
        NextIs(c, 0, i, 1);
        assert nodes[i] == next;
        nodes := nodes[i := next.fwd[i]];
        FwdUntouched(c, 1, i);
      }
      assert LinkedAt(Removed(c, 1), i);
      OtherLevelsGone(c, i);
    }

    method HeadTakesOver(ghost c: seq<Node>, head: Node, i: nat, link: Node?)
      requires LinkedAt(c, i) && Grounded(c) && Distinct(c) && |c| > 1 && head == c[0]
      requires i < head.height && i < c[1].height && link == LinkFrom(c, 2, i)
      modifies head`fwd
      ensures head.fwd == old(head.fwd)[i := link] && FwdLinked(Removed(c, 1), i)
      ensures HeadLinked(nodes, Removed(c, 1), i)
    {
      NextIs(c, 0, i, 0);
      NextIs(c, 1, i, 1);
      head.fwd := head.fwd[i := link];
      LinkRemoved(c, 1, 0, i);
      FwdRemoved(c, 1, i);
    }

    twostate lemma OtherLevelsGone(c: seq<Node>, new i: nat)
      requires old(SecondGone(c, i)) && i < maxLevel && OnlyLevel(c, i) && LinkedAt(Removed(c, 1), i)
      ensures SecondGone(c, i + 1)
    {
      var d := Removed(c, 1);
      assert OnlyLevel(d, i) by {
        forall j | 0 <= j < |d|
          ensures |d[j].fwd| == |old(d[j].fwd)|
          ensures forall l :: 0 <= l < |d[j].fwd| && l != i ==> d[j].fwd[l] == old(d[j].fwd)[l]
        {
          assert d[j] == c[if j < 1 then j else j + 1];
        }
      }
      forall l | i < l < maxLevel ensures LinkedAt(c, l) {
        assert old(LinkedAt(c, l));
        OtherLevelKept(c, i, l);
      }
      forall l | 0 <= l <= i ensures LinkedAt(d, l) {
        if l != i {
          assert old(LinkedAt(d, l));
          OtherLevelKept(d, i, l);
        }
      }
    }

    /** pop_first's own unlinking: the head node is before next on every level it is on. */
    method UnlinkSecond(ghost c: seq<Node>, head: Node, next: Node)
      requires Linked(c) && Grounded(c) && Distinct(c) && |c| > 1 && head == c[0] && next == c[1]
      modifies `nodes, `height, c`fwd, c`back
      ensures Linked(Removed(c, 1)) && Grounded(Removed(c, 1))
    {
      UnlinkSecondLinks(c, head, next);
      LowerAfterSecond(c);
    }

    method LowerAfterSecond(ghost c: seq<Node>)
      requires |c| > 1 && SecondGone(c, c[1].height) && Grounded(c) && BackLinked(Removed(c, 1))
      requires 1 <= height <= maxLevel && forall i :: 0 <= i < |c| ==> c[i].height <= height
      modifies `height
      ensures Linked(Removed(c, 1)) && Grounded(Removed(c, 1))
    {
      SecondNowhere(c);
      ShrinkHeight(Removed(c, 1));
    }

    method UnlinkSecondLinks(ghost c: seq<Node>, head: Node, next: Node)
      requires Linked(c) && Grounded(c) && Distinct(c) && |c| > 1 && head == c[0] && next == c[1]
      modifies `nodes, c`fwd, c`back
      ensures SecondGone(c, next.height) && Grounded(c) && BackLinked(Removed(c, 1))
    {
      LevelLink(c, 1, 0);
      UnlinkSecondLevels(c, head, next);
      BackPast(c, 1, head, next.fwd[0]);
    }

    method UnlinkSecondLevels(ghost c: seq<Node>, head: Node, next: Node)
      requires Linked(c) && Grounded(c) && Distinct(c) && |c| > 1 && head == c[0] && next == c[1]
      modifies `nodes, c`fwd
      ensures SecondGone(c, next.height) && Grounded(c) && next.fwd == old(next.fwd)
    {
      for i := 0 to next.height
        invariant SecondGone(c, i) && Grounded(c) && next.fwd == old(next.fwd)
      {
        UnlinkSecondAt(c, head, next, i);
      }
    }

    lemma SecondNowhere(c: seq<Node>)
      requires |c| > 1 && SecondGone(c, c[1].height) && Grounded(c) && height <= maxLevel
      requires forall i :: 0 <= i < |c| ==> c[i].height <= height
      ensures Grounded(Removed(c, 1)) && LevelsLinked(Removed(c, 1))
      ensures forall l :: 0 <= l < maxLevel ==> HeadLinked(nodes, Removed(c, 1), l)
      ensures forall l :: height <= l < maxLevel ==> nodes[l] == null
    {
      var d := Removed(c, 1);
      assert forall j :: 0 <= j < |d| ==> d[j] == c[if j < 1 then j else j + 1];
      forall l | 0 <= l < maxLevel ensures LinkedAt(d, l) && (height <= l ==> nodes[l] == null) {
        if l >= c[1].height {
          assert LinkedAt(c, l);
          HeadUntouched(nodes, c, 1, l);
          FwdUntouched(c, 1, l);
        }
        assert LinkedAt(d, l);
      }
    }

    method CombineWithNext(head: Node, next: Node)
      requires Assembled() && |chain| > 1 && head == chain[0] && next == chain[1]
      requires Lacking(wins, nodeSize, 0) && |wins[0]| + |wins[1]| <= nodeSize
      modifies `nodes, `height, `chain, `wins, `Repr, Repr
      ensures Valid() && Contents() == old(Contents()) && Repr == old(Repr) && chain[0] == old(chain[0])
      ensures Lay() == old(MadeUp(Lay(), nodeSize, 0))
    {
      JoinedShaped(wins, nodeSize, 0, 0);
      RemovedIsJoined(wins, 1);
      HeightsRemoved(chain, 1);
      ghost var ws := Joined(wins, 0);
      NodeAt(1);
      assert wins[1][..|wins[1]|] == wins[1];
      Absorb(head, next, 0, next.count);
      UnlinkSecondHeld(head, next);
      AdoptAssembled(Removed(chain, 1), ws, Repr);
    }

    method UnlinkSecondHeld(head: Node, next: Node)
      requires Assembled() && |chain| > 1 && head == chain[0] && next == chain[1]
      modifies `nodes, `height, Repr
      ensures Holds(Removed(chain, 1), Removed(wins, 1), Repr)
      ensures Grounded(Removed(chain, 1)) && Linked(Removed(chain, 1))
    {
      UnlinkSecond(chain, head, next);
      WindowsKept();
      HoldsRemoved(chain, wins, Repr, 1);
    }

    ghost predicate FirstLays(lay: Layout, res: PopResult, lay': Layout) {
      if res.Popped? then
        Matched(lay) && lay.windows != [] && lay.windows[0] != [] && lay' == TakenOut(lay, nodeSize, 0, 0)
      else lay' == lay
    }

    /** skiparray_pop_first */
    method PopFirst() returns (res: PopResult)
      requires Valid()
      modifies `nodes, `height, `chain, `wins, `Repr, Repr
      ensures Valid() && Repr == old(Repr) && chain[0] == old(chain[0])
      ensures iter != null ==> unchanged(`nodes, `height, `chain, `wins, `Repr) && unchanged(Repr)
      ensures PopMeets(old(Contents()), 0, iter != null, res, Contents())
      ensures FirstLays(old(Lay()), res, Lay())
    {
      HeadNode();
      var head := nodes[0];
      if iter != null {
        return PopErrorLocked;
      }
      if head.count == 0 {
        return PopEmpty;
      }
      var pair := PopHead(head);
      return Popped(pair);
    }

    method PopHead(head: Node) returns (pair: Pair)
      requires Valid() && Contents() != [] && head == chain[0]
      modifies `nodes, `height, `chain, `wins, `Repr, Repr
      ensures Valid() && Repr == old(Repr) && chain[0] == old(chain[0])
      ensures pair == old(Contents()[0]) && Contents() == old(Removed(Contents(), 0))
      ensures old(wins[0]) != [] && Lay() == old(TakenOut(Lay(), nodeSize, 0, 0))
    {
      Ends(wins, nodeSize);
      pair := TakeOut(head, 0, 0);
      MakeUpHead(head);
    }

    /** pop_first's rebalancing of the head node. */
    method MakeUpHead(head: Node)
      requires Assembled() && chain != [] && head == chain[0]
      requires if |wins[0]| < nodeSize / 2 then Lacking(wins, nodeSize, 0) else Shaped(wins, nodeSize)
      modifies `nodes, `height, `chain, `wins, `Repr, Repr
      ensures Valid() && Contents() == old(Contents()) && Repr == old(Repr) && chain[0] == old(chain[0])
      ensures Lay() == old(if |wins[0]| < nodeSize / 2 then MadeUp(Lay(), nodeSize, 0) else Lay())
    {
      Neighbours(0);
      NodeAt(0);
      var next := head.fwd[0];
      if head.count < nodeSize / 2 {
        if next == null {
          LackingTolerated(wins, nodeSize, 0);
        } else {
          NodeAt(1);
          if head.count + next.count <= nodeSize {
            CombineWithNext(head, next);
          } else {
            Rebalance(head, next, 0);
          }
        }
      }
    }

    // ----- Reading -----

    /** skiparray_get_pair */
    method GetPair(key: Key) returns (res: Option<Pair>)
      requires Valid()
      ensures res == if Has(Contents(), key) then Some(Contents()[Pos(Contents(), key)]) else None
    {
      var found, n, index;
      ghost var i;
      found, n, index, i := Search(key);
      if found {
        PairIsAt(i, index);
        return Some(n.PairAt(index));
      }
      return None;
    }

    /** skiparray_first */
    method First() returns (res: Option<Pair>)
      requires Valid()
      ensures res == if Contents() == [] then None else Some(Contents()[0])
    {
      HeadNode();
      var n := nodes[0];
      if n.count == 0 {
        return None;
      }
      return Some(n.PairAt(0));
    }

    /** skiparray_last */
    method Last() returns (res: Option<Pair>)
      requires Valid()
      ensures res == if Contents() == [] then None else Some(Contents()[|Contents()| - 1])
    {
      var n := LastNode();
      LastFacts();
      if n.count == 0 {
        return None;
      }
      return Some(n.PairAt(n.count - 1));
    }

    /** skiparray_count */
    method Count() returns (res: nat)
      requires Valid()
      ensures res == |Contents()|
    {
      res := 0;
      Neighbours(0);
      var n := nodes[0];
      ghost var i: nat := 0;
      while n != null
        invariant i <= |chain| && n == At(chain, i) && res == Start(wins, i)
        decreases |chain| - i
      {
        NodeAt(i);
        Neighbours(i);
        StartNext(wins, i);
        res := res + n.count;
        n := n.fwd[0];
        i := i + 1;
      }
      assert wins[..i] == wins;
    }

    // ----- Iterating -----

    /** skiparray_iter_new: a new iterator on the first pair. */
    method NewIterator(allocOk: bool) returns (res: NewIterResult)
      requires Valid() && Iterating()
      modifies `iter, `iters, iters`prev
      ensures Valid() && Iterating()
      ensures res.NewIterEmpty? <==> Contents() == []
      ensures res.NewIterErrorMemory? <==> Contents() != [] && !allocOk
      ensures if res.NewIter? then fresh(res.it) && res.it.sa == this && iters == [res.it] + old(iters) && res.it.Live() && res.it.Place() == 0
              else iter == old(iter) && iters == old(iters)
    {
      Neighbours(0);
      NodeAt(0);
      Ends(wins, nodeSize);
      if nodes[0].fwd[0] == null && nodes[0].count == 0 {
        return NewIterEmpty;
      }
      if !allocOk {
        return NewIterErrorMemory;
      }
      var it := OpenFirst();
      return NewIter(it);
    }

    method OpenFirst() returns (it: Iter)
      requires Valid() && Iterating() && Contents() != []
      modifies `iter, `iters, iters`prev
      ensures Valid() && Iterating() && fresh(it) && it.sa == this && iters == [it] + old(iters)
      ensures it.Live() && it.Place() == 0
    {
      Neighbours(0);
      NodeAt(0);
      Ends(wins, nodeSize);
      it := new Iter(this, iter, nodes[0]);
      Prepend(it);
    }

    method Prepend(it: Iter)
      requires Valid() && Iterating() && it !in iters && Contents() != []
      requires it.next == iter && it.prev == null && Positioned(it)
      modifies `iter, `iters, iters`prev
      ensures Valid() && Iterating() && iters == [it] + old(iters)
    {
      if iter != null {
        assert IsHandle(iter);
        iter.prev := it;
      }
      iter, iters := it, [it] + iters;
      Prepended(it);
    }

    twostate lemma Prepended(it: Iter)
      requires old(Valid() && Iterating()) && Contents() != [] && unchanged(`nodes, `height, `chain, `wins, `Repr)
      requires unchanged(Repr) && it !in old(iters) && iters == [it] + old(iters) && iter == it
      requires Positioned(it) && it.prev == null && it.next == old(iter)
      requires forall o :: o in old(iters) ==> o.next == old(o.next) && o.n == old(o.n) && o.index == old(o.index) && o.at == old(o.at)
      requires forall i :: 0 <= i < |old(iters)| ==>
                 old(iters)[i].prev == if i == 0 then it else old(iters[i].prev)
      ensures Valid() && Iterating()
    {
      Undisturbed();
      forall i | 0 <= i < |iters|
        ensures iters[i].next == if i + 1 < |iters| then iters[i + 1] else null
        ensures iters[i].prev == if i == 0 then null else iters[i - 1]
        ensures Positioned(iters[i])
      {
        if i > 0 {
          assert iters[i] == old(iters)[i - 1] && iters[i] in old(iters);
          assert old(iters[i - 1].next) == old(iters)[i - 1].next;
          assert old(Positioned(iters[i - 1]));
        }
      }
    }

    lemma ItersApart()
      requires NodesOnly(Repr)
      ensures forall o {:trigger o in Repr} :: o in Repr ==> o !in iters && o != this
    {
      assert IsHandle(this);
      forall o | o in iters ensures o !in Repr {
        assert IsHandle(o);
      }
    }

    twostate lemma Undisturbed()
      requires old(Valid()) && unchanged(`nodes, `height, `chain, `wins, `Repr)
      requires unchanged(Repr)
      ensures Valid()
    {
    }

    twostate lemma StillIterating()
      requires old(Iterating()) && unchanged(`iter, `iters, `chain, `wins)
      requires forall o :: o in iters ==> unchanged(o)
      ensures Iterating()
    {
      forall i | 0 <= i < |iters|
        ensures iters[i].next == old(iters[i].next) && iters[i].prev == old(iters[i].prev) && Positioned(iters[i])
      {
        assert iters[i] in iters && old(Positioned(iters[i]));
      }
    }

    twostate lemma Unlisted(new k: nat)
      requires old(Iterating()) && k < |old(iters)| && iters == Removed(old(iters), k)
      requires Listed() && wins == old(wins) && chain == old(chain)
      requires forall o :: o in old(iters) ==> o.n == old(o.n) && o.index == old(o.index) && o.at == old(o.at)
      ensures Iterating()
    {
      forall o | o in iters ensures Positioned(o) {
        assert o in old(iters) && old(Positioned(o));
      }
    }

    /** An iterator short of the end is on a pair of its node. */
    lemma InBounds(it: Iter)
      requires Valid() && Positioned(it) && Start(wins, it.at) + it.index < |Contents()|
      ensures it.index < |wins[it.at]|
    {
      StartNext(wins, |wins| - 1);
      assert wins[..|wins|] == wins;
    }

    /** An iterator is past the end exactly when its index is its node's count. */
    lemma PastEnd(it: Iter)
      requires Valid() && Positioned(it)
      ensures it.n.count == |wins[it.at]|
      ensures it.index < it.n.count <==> Start(wins, it.at) + it.index < |Contents()|
    {
      NodeAt(it.at);
      StartNext(wins, it.at);
      if it.index < |wins[it.at]| {
        FlattenIndex(wins, it.at, it.index);
      } else {
        assert wins[..|wins|] == wins;
      }
    }

    /** The slot after one of a node's pairs is the next place, in this node or the next. */
    lemma PlaceAfter(i: nat, a: nat)
      requires Valid() && i < |wins| && a < |wins[i]|
      ensures i + 1 < |wins| ==> Start(wins, i + 1) == Start(wins, i) + |wins[i]| && wins[i + 1] != []
      ensures i + 1 < |wins| ==> Start(wins, i) + |wins[i]| < |Contents()|
      ensures i + 1 == |wins| ==> |Contents()| == Start(wins, i) + |wins[i]|
      ensures a + 1 < |wins[i]| ==> Start(wins, i) + a + 1 < |Contents()|
    {
      StartNext(wins, i);
      assert wins[..|wins|] == wins;
      if i + 1 < |wins| {
        assert i + 1 < |wins| - 1 ==> nodeSize / 2 <= |wins[i + 1]|;
        StartNext(wins, i + 1);
      }
    }

    /** The first slot of a node comes right after the last pair of the node before. */
    lemma PlaceBefore(i: nat)
      requires Valid() && i < |wins|
      ensures i == 0 ==> Start(wins, i) == 0
      ensures i > 0 ==> wins[i - 1] != [] && Start(wins, i) == Start(wins, i - 1) + |wins[i - 1]|
    {
      if i > 0 {
        assert nodeSize / 2 <= |wins[i - 1]|;
        StartNext(wins, i - 1);
      }
    }

    lemma SeekFacts(key: Key, i: nat, a: nat)
      requires Valid() && Contents() != [] && Answers(wins, key, false, i, a)
      ensures a == 0 ==> wins[i] != []
      ensures Pos(Contents(), key) == 0 <==> a == 0 == i
      ensures Pos(Contents(), key) == |Contents()| <==> a == |wins[i]| && i == |wins| - 1
      ensures i + 1 < |wins| ==> Start(wins, i + 1) == Start(wins, i) + |wins[i]| && wins[i + 1] != []
    {
      Ends(wins, nodeSize);
      assert i < |wins| - 1 ==> nodeSize / 2 <= |wins[i]|;
      PlaceAfter(i, |wins[i]| - 1);
      PlaceBefore(i);
    }

    /** Moving one iterator to a proper position leaves the others where they are. */
    twostate lemma Moved(it: Iter)
      requires old(Valid() && Iterating()) && it in iters && unchanged(this) && Positioned(it)
      requires forall o :: o in Repr ==> unchanged(o)
      requires forall o :: o in iters ==> o.next == old(o.next) && o.prev == old(o.prev)
      requires forall o :: o in iters && o != it ==> o.n == old(o.n) && o.index == old(o.index) && o.at == old(o.at)
      ensures Valid() && Iterating()
    {
    }
  }
}
