/** Windows: the pairs of the sorted map cut into one short sequence per node. */
module Windows {
  import opened Pairs

  ghost function Flatten(ws: seq<seq<Pair>>): seq<Pair> {
    if ws == [] then [] else ws[0] + Flatten(ws[1..])
  }

  lemma {:induction false} FlattenConcat(a: seq<seq<Pair>>, b: seq<seq<Pair>>)
    ensures Flatten(a + b) == Flatten(a) + Flatten(b)
  {
    if a == [] {
      assert a + b == b;
    } else {
      calc {
        Flatten(a + b);
        { assert (a + b)[1..] == a[1..] + b && (a + b)[0] == a[0]; }
        a[0] + Flatten(a[1..] + b);
        { FlattenConcat(a[1..], b); }
        a[0] + (Flatten(a[1..]) + Flatten(b));
        Flatten(a) + Flatten(b);
      }
    }
  }

  /** Flat position of the first pair of window i. */
  ghost function Start(ws: seq<seq<Pair>>, i: nat): nat
    requires i <= |ws|
  {
    |Flatten(ws[..i])|
  }

  lemma FlattenHalves(ws: seq<seq<Pair>>, a: nat)
    requires a <= |ws|
    ensures Flatten(ws) == Flatten(ws[..a]) + Flatten(ws[a..])
  {
    Cut(ws, 0, a);
    FlattenConcat(ws[0..a], ws[a..]);
  }

  lemma Associates<T>(x: seq<T>, y: seq<T>, z: seq<T>)
    ensures x + (y + z) == x + y + z
  {
  }

  lemma Cut<T>(s: seq<T>, a: nat, b: nat)
    requires a <= b <= |s|
    ensures s[a..] == s[a..b] + s[b..]
  {
  }

  lemma FlattenRest(ws: seq<seq<Pair>>, a: nat, b: nat)
    requires a <= b <= |ws|
    ensures Flatten(ws[a..]) == Flatten(ws[a..b]) + Flatten(ws[b..])
  {
    FlattenConcat(ws[a..b], ws[b..]);
    Cut(ws, a, b);
  }

  lemma FlattenCut(ws: seq<seq<Pair>>, a: nat, b: nat)
    requires a <= b <= |ws|
    ensures Flatten(ws) == Flatten(ws[..a]) + Flatten(ws[a..b]) + Flatten(ws[b..])
  {
    FlattenHalves(ws, a);
    FlattenRest(ws, a, b);
    Associates(Flatten(ws[..a]), Flatten(ws[a..b]), Flatten(ws[b..]));
  }

  lemma FlattenAt(ws: seq<seq<Pair>>, i: nat)
    requires i < |ws|
    ensures Flatten(ws) == Flatten(ws[..i]) + ws[i] + Flatten(ws[i + 1..])
  {
    FlattenHalves(ws, i);
    FlattenFrom(ws, i);
    Associates(Flatten(ws[..i]), ws[i], Flatten(ws[i + 1..]));
  }

  lemma FlattenFrom(ws: seq<seq<Pair>>, i: nat)
    requires i < |ws|
    ensures Flatten(ws[i..]) == ws[i] + Flatten(ws[i + 1..])
  {
    assert ws[i..][1..] == ws[i + 1..];
  }

  lemma FlattenUpTo(ws: seq<seq<Pair>>, i: nat)
    requires i < |ws|
    ensures Flatten(ws[..i + 1]) == Flatten(ws[..i]) + ws[i]
  {
    assert ws[..i + 1] == ws[..i] + [ws[i]];
    FlattenConcat(ws[..i], [ws[i]]);
    FlattenOne(ws[i]);
  }

  lemma FlattenAround(ws: seq<seq<Pair>>, i: nat)
    requires i < |ws|
    ensures Flatten(ws) == Flatten(ws[..i]) + ws[i] + Flatten(ws[i + 1..])
    ensures Start(ws, i + 1) == Start(ws, i) + |ws[i]| <= |Flatten(ws)|
  {
    FlattenAt(ws, i);
    FlattenUpTo(ws, i);
  }

  lemma StartNext(ws: seq<seq<Pair>>, i: nat)
    requires i < |ws|
    ensures Start(ws, i + 1) == Start(ws, i) + |ws[i]| <= |Flatten(ws)|
  {
    FlattenAround(ws, i);
  }

  /** Replacing the run of windows a..b by other windows replaces its pairs. */
  lemma FlattenSplice(ws: seq<seq<Pair>>, a: nat, b: nat, mid: seq<seq<Pair>>)
    requires a <= b <= |ws|
    ensures Flatten(ws) == Flatten(ws[..a]) + Flatten(ws[a..b]) + Flatten(ws[b..])
    ensures Flatten(ws[..a] + mid + ws[b..]) == Flatten(ws[..a]) + Flatten(mid) + Flatten(ws[b..])
  {
    FlattenCut(ws, a, b);
    FlattenConcat(ws[..a] + mid, ws[b..]);
    FlattenConcat(ws[..a], mid);
  }

  lemma FlattenSame(ws: seq<seq<Pair>>, a: nat, b: nat, mid: seq<seq<Pair>>)
    requires a <= b <= |ws| && Flatten(mid) == Flatten(ws[a..b])
    ensures Flatten(ws[..a] + mid + ws[b..]) == Flatten(ws)
  {
    FlattenSplice(ws, a, b, mid);
  }

  lemma FlattenOne(x: seq<Pair>)
    ensures Flatten([x]) == x
  {
    assert Flatten([x]) == x + Flatten([x][1..]);
  }

  lemma FlattenPair(x: seq<Pair>, y: seq<Pair>)
    ensures Flatten([x, y]) == x + y
  {
    FlattenOne(y);
    assert [x, y][1..] == [y];
  }

  lemma {:induction false} StartMonotone(ws: seq<seq<Pair>>, i: nat, j: nat)
    requires i < j <= |ws|
    ensures Start(ws, i) + |ws[i]| <= Start(ws, j) <= |Flatten(ws)|
    decreases j
  {
    StartNext(ws, j - 1);
    if i < j - 1 {
      StartMonotone(ws, i, j - 1);
    }
  }

  lemma FlattenIndex(ws: seq<seq<Pair>>, i: nat, a: nat)
    requires i < |ws| && a < |ws[i]|
    ensures Start(ws, i) + a < |Flatten(ws)|
    ensures Flatten(ws)[Start(ws, i) + a] == ws[i][a]
  {
    FlattenAround(ws, i);
  }

  /** Pairs of an earlier window, or earlier in the same one, have smaller keys. */
  lemma WindowOrder(ws: seq<seq<Pair>>, i: nat, a: nat, j: nat, b: nat)
    requires Ascending(Flatten(ws))
    requires i < |ws| && a < |ws[i]| && j < |ws| && b < |ws[j]|
    requires i < j || (i == j && a < b)
    ensures ws[i][a].key.rank < ws[j][b].key.rank
  {
    FlattenIndex(ws, i, a);
    FlattenIndex(ws, j, b);
    if i < j {
      StartMonotone(ws, i, j);
    }
  }

  lemma WindowAscends(ws: seq<seq<Pair>>, i: nat)
    requires Ascending(Flatten(ws)) && i < |ws|
    ensures Ascending(ws[i])
  {
    forall a, b | 0 <= a < b < |ws[i]| ensures ws[i][a].key.rank < ws[i][b].key.rank {
      WindowOrder(ws, i, a, i, b);
    }
  }

  // ----- The shape the windows keep -----

  /** Nodes are between half full and full; only the last may hold fewer, and it is
      empty only when it is alone. All keys ascend, within and across nodes. */
  ghost predicate Shaped(ws: seq<seq<Pair>>, nodeSize: nat) {
    && |ws| > 0
    && (forall i :: 0 <= i < |ws| ==> |ws[i]| <= nodeSize)
    && (forall i :: 0 <= i < |ws| - 1 ==> nodeSize / 2 <= |ws[i]|)
    && (|ws| > 1 ==> |ws[|ws| - 1]| > 0)
    && Ascending(Flatten(ws))
  }

  ghost function LastRank(w: seq<Pair>): int
    requires w != []
  {
    w[|w| - 1].key.rank
  }

  lemma LastsAscend(ws: seq<seq<Pair>>, i: nat, j: nat)
    requires Ascending(Flatten(ws)) && i < j < |ws|
    requires ws[i] != [] && ws[j] != []
    ensures LastRank(ws[i]) < LastRank(ws[j])
  {
    var a, b := |ws[i]| - 1, |ws[j]| - 1;
    WindowOrder(ws, i, a, j, b);
  }

  lemma PosBetween(s: seq<Pair>, key: Key, p: nat)
    requires Ascending(s) && p <= |s|
    requires p > 0 ==> s[p - 1].key.rank < key.rank
    requires p < |s| ==> key.rank <= s[p].key.rank
    ensures Pos(s, key) == p
  {
    PosUnique(s, key, p);
  }

  ghost predicate Rises(ranks: seq<int>, i: nat, j: nat)
    requires i < |ranks| && j < |ranks|
  {
    ranks[i] < ranks[j]
  }

  ghost predicate Rising(ranks: seq<int>) {
    forall i, j {:trigger Rises(ranks, i, j)} :: 0 <= i < j < |ranks| ==> Rises(ranks, i, j)
  }

  /** The ranks of the windows' last keys, which ascend. */
  lemma LastRanks(ws: seq<seq<Pair>>, nodeSize: nat) returns (ranks: seq<int>)
    requires Shaped(ws, nodeSize) && nodeSize >= 2 && ws != [[]]
    ensures |ranks| == |ws|
    ensures forall i :: 0 <= i < |ws| ==> ws[i] != [] && ranks[i] == LastRank(ws[i])
    ensures Rising(ranks)
  {
    forall i | 0 <= i < |ws| ensures ws[i] != [] {
      assert i < |ws| - 1 ==> nodeSize / 2 <= |ws[i]|;
      assert |ws| == 1 ==> ws == [ws[0]];
    }
    ranks := seq(|ws|, i requires 0 <= i < |ws| => LastRank(ws[i]));
    forall i, j | 0 <= i < j < |ws| ensures Rises(ranks, i, j) {
      LastsAscend(ws, i, j);
    }
  }

  lemma SlotBefore(ws: seq<seq<Pair>>, key: Key, i: nat, a: nat)
    requires i < |ws| && a <= |ws[i]|
    requires if a > 0 then ws[i][a - 1].key.rank < key.rank
             else i > 0 ==> ws[i - 1] != [] && LastRank(ws[i - 1]) < key.rank
    ensures Start(ws, i) + a <= |Flatten(ws)|
    ensures Start(ws, i) + a > 0 ==> Flatten(ws)[Start(ws, i) + a - 1].key.rank < key.rank
  {
    StartNext(ws, i);
    if a > 0 {
      FlattenIndex(ws, i, a - 1);
    } else if i > 0 {
      StartNext(ws, i - 1);
      FlattenIndex(ws, i - 1, |ws[i - 1]| - 1);
    }
  }

  lemma SlotAfter(ws: seq<seq<Pair>>, key: Key, i: nat, a: nat)
    requires i < |ws| && a <= |ws[i]|
    requires if a < |ws[i]| then key.rank <= ws[i][a].key.rank else i + 1 == |ws|
    ensures a < |ws[i]| ==> Start(ws, i) + a < |Flatten(ws)| && Flatten(ws)[Start(ws, i) + a] == ws[i][a]
    ensures a == |ws[i]| ==> |Flatten(ws)| == Start(ws, i) + a
  {
    if a < |ws[i]| {
      FlattenIndex(ws, i, a);
    } else {
      FlattenAround(ws, i);
      assert ws[i + 1..] == [];
    }
  }

  /** Slot a of window i, or the end of it, is the position of a key that separates
      the pairs on either side. */
  lemma PosInWindow(ws: seq<seq<Pair>>, key: Key, i: nat, a: nat)
    requires Ascending(Flatten(ws)) && i < |ws| && a <= |ws[i]|
    requires if a > 0 then ws[i][a - 1].key.rank < key.rank
             else i > 0 ==> ws[i - 1] != [] && LastRank(ws[i - 1]) < key.rank
    requires if a < |ws[i]| then key.rank <= ws[i][a].key.rank else i + 1 == |ws|
    ensures Start(ws, i) + a <= |Flatten(ws)|
    ensures Pos(Flatten(ws), key) == Start(ws, i) + a
    ensures a < |ws[i]| ==> Start(ws, i) + a < |Flatten(ws)| && Flatten(ws)[Start(ws, i) + a] == ws[i][a]
    ensures a == |ws[i]| ==> |Flatten(ws)| == Start(ws, i) + a
  {
    SlotBefore(ws, key, i, a);
    SlotAfter(ws, key, i, a);
    PosBetween(Flatten(ws), key, Start(ws, i) + a);
  }

  // ----- What a search answers -----

  /** A search has reached window i on level 0: the key is not before it, and not after
      it unless it is the last one. */
  ghost predicate Narrowed(ws: seq<seq<Pair>>, key: Key, i: nat) {
    && i < |ws| && ws[i] != []
    && (i > 0 ==> ws[i - 1] != [] && LastRank(ws[i - 1]) < key.rank)
    && (key.rank <= LastRank(ws[i]) || i == |ws| - 1)
  }

  /** The answer is the key's position; on the border of two windows it is the end of
      the first one when that is the less full. */
  ghost predicate Answers(ws: seq<seq<Pair>>, key: Key, found: bool, i: nat, a: nat) {
    && i < |ws| && a <= |ws[i]|
    && Start(ws, i) + a == Pos(Flatten(ws), key)
    && (found <==> Has(Flatten(ws), key))
    && (found ==> a < |ws[i]| && ws[i][a].key.rank == key.rank)
    && (!found && a == 0 < i ==> |ws[i]| <= |ws[i - 1]|)
    && (!found && a == |ws[i]| && i + 1 < |ws| ==> |ws[i]| < |ws[i + 1]|)
  }

  lemma AnswerEmpty(ws: seq<seq<Pair>>, nodeSize: nat, key: Key, i: nat)
    requires Shaped(ws, nodeSize) && nodeSize >= 2 && i < |ws| && ws[i] == []
    ensures |ws| == 1 && Answers(ws, key, false, i, 0)
  {
    assert ws == [[]];
    assert Flatten(ws) == [];
  }

  /** The key is past the end of the last window, or is the last key of window i. */
  lemma AnswerAtEnd(ws: seq<seq<Pair>>, key: Key, i: nat)
    requires Ascending(Flatten(ws)) && Narrowed(ws, key, i) && LastRank(ws[i]) <= key.rank
    ensures LastRank(ws[i]) == key.rank ==> Answers(ws, key, true, i, |ws[i]| - 1)
    ensures LastRank(ws[i]) < key.rank ==> Answers(ws, key, false, i, |ws[i]|)
  {
    if LastRank(ws[i]) == key.rank {
      var a := |ws[i]| - 1;
      if a > 0 {
        WindowOrder(ws, i, a - 1, i, a);
      }
      PosInWindow(ws, key, i, a);
    } else {
      PosInWindow(ws, key, i, |ws[i]|);
    }
  }

  /** The key belongs in window i, at a slot that separates smaller from larger keys. */
  lemma AnswerInside(ws: seq<seq<Pair>>, key: Key, i: nat, a: nat)
    requires Ascending(Flatten(ws)) && Narrowed(ws, key, i) && a < |ws[i]|
    requires a > 0 ==> ws[i][a - 1].key.rank < key.rank
    requires key.rank <= ws[i][a].key.rank
    ensures ws[i][a].key.rank == key.rank ==> Answers(ws, key, true, i, a)
    ensures ws[i][a].key.rank > key.rank && (a == 0 < i ==> |ws[i]| <= |ws[i - 1]|) ==>
              Answers(ws, key, false, i, a)
    ensures ws[i][a].key.rank > key.rank && a == 0 < i && |ws[i - 1]| < |ws[i]| ==>
              Answers(ws, key, false, i - 1, |ws[i - 1]|)
  {
    PosInWindow(ws, key, i, a);
    if a == 0 < i {
      StartNext(ws, i - 1);
    }
  }

  // ----- How the operations rearrange windows -----

  ghost function Split(ws: seq<seq<Pair>>, i: nat, m: nat): seq<seq<Pair>>
    requires i < |ws| && m <= |ws[i]|
  {
    ws[..i] + [ws[i][..m], ws[i][m..]] + ws[i + 1..]
  }

  ghost function Joined(ws: seq<seq<Pair>>, i: nat): seq<seq<Pair>>
    requires i + 1 < |ws|
  {
    ws[..i] + [ws[i] + ws[i + 1]] + ws[i + 2..]
  }

  /** The first m pairs of window i + 1 go to the end of window i. */
  ghost function Shifted(ws: seq<seq<Pair>>, i: nat, m: nat): seq<seq<Pair>>
    requires i + 1 < |ws| && m <= |ws[i + 1]|
  {
    ws[..i] + [ws[i] + ws[i + 1][..m], ws[i + 1][m..]] + ws[i + 2..]
  }

  lemma ShiftedIs(ws: seq<seq<Pair>>, i: nat, m: nat)
    requires i + 1 < |ws| && m <= |ws[i + 1]|
    ensures ws[i := ws[i] + ws[i + 1][..m]][i + 1 := ws[i + 1][m..]] == Shifted(ws, i, m)
  {
  }

  /** Two windows hold what one does, or what two others do, if their pairs in a row are the same. */
  lemma SameInARow(x: seq<Pair>, y: seq<Pair>, x': seq<Pair>, y': seq<Pair>)
    requires x + y == x' + y'
    ensures Flatten([x, y]) == Flatten([x', y']) == Flatten([x + y])
  {
    FlattenPair(x, y);
    FlattenPair(x', y');
    FlattenOne(x + y);
  }

  lemma SplitKeeps(ws: seq<seq<Pair>>, i: nat, m: nat)
    requires i < |ws| && m <= |ws[i]|
    ensures Flatten(Split(ws, i, m)) == Flatten(ws)
  {
    assert ws[i..i + 1] == [ws[i]] && ws[i][..m] + ws[i][m..] == ws[i];
    SameInARow(ws[i][..m], ws[i][m..], ws[i][..m], ws[i][m..]);
    FlattenSame(ws, i, i + 1, [ws[i][..m], ws[i][m..]]);
  }

  lemma JoinKeeps(ws: seq<seq<Pair>>, i: nat)
    requires i + 1 < |ws|
    ensures Flatten(Joined(ws, i)) == Flatten(ws)
  {
    var x, y := ws[i], ws[i + 1];
    assert ws[i..i + 2] == [x, y];
    SameInARow(x, y, x, y);
    FlattenSame(ws, i, i + 2, [x + y]);
  }

  lemma ShiftKeeps(ws: seq<seq<Pair>>, i: nat, m: nat)
    requires i + 1 < |ws| && m <= |ws[i + 1]|
    ensures Flatten(Shifted(ws, i, m)) == Flatten(ws)
  {
    assert ws[i..i + 2] == [ws[i], ws[i + 1]];
    assert ws[i] + ws[i + 1][..m] + ws[i + 1][m..] == ws[i] + ws[i + 1];
    SameInARow(ws[i], ws[i + 1], ws[i] + ws[i + 1][..m], ws[i + 1][m..]);
    FlattenSame(ws, i, i + 2, [ws[i] + ws[i + 1][..m], ws[i + 1][m..]]);
  }

  lemma FlattenReplace(ws: seq<seq<Pair>>, i: nat, w: seq<Pair>)
    requires i < |ws|
    ensures Flatten(ws) == Flatten(ws[..i]) + ws[i] + Flatten(ws[i + 1..])
    ensures Flatten(ws[i := w]) == Flatten(ws[..i]) + w + Flatten(ws[i + 1..])
  {
    FlattenAround(ws, i);
    FlattenAround(ws[i := w], i);
    assert ws[i := w][..i] == ws[..i] && ws[i := w][i + 1..] == ws[i + 1..];
  }

  /** Editing one window at index a edits the whole sequence at the flat position. */
  lemma InsertFlat(ws: seq<seq<Pair>>, i: nat, a: nat, p: Pair)
    requires i < |ws| && a <= |ws[i]|
    ensures Start(ws, i) + a <= |Flatten(ws)|
    ensures Flatten(ws[i := Inserted(ws[i], a, p)]) == Inserted(Flatten(ws), Start(ws, i) + a, p)
  {
    FlattenReplace(ws, i, Inserted(ws[i], a, p));
    InsertMiddle(Flatten(ws[..i]), ws[i], Flatten(ws[i + 1..]), a, p);
  }

  lemma InsertMiddle<T>(x: seq<T>, w: seq<T>, y: seq<T>, a: nat, p: T)
    requires a <= |w|
    ensures x + Inserted(w, a, p) + y == Inserted(x + w + y, |x| + a, p)
  {
  }

  lemma RemoveFlat(ws: seq<seq<Pair>>, i: nat, a: nat)
    requires i < |ws| && a < |ws[i]|
    ensures Start(ws, i) + a < |Flatten(ws)|
    ensures Flatten(ws[i := Removed(ws[i], a)]) == Removed(Flatten(ws), Start(ws, i) + a)
  {
    FlattenReplace(ws, i, Removed(ws[i], a));
    RemoveMiddle(Flatten(ws[..i]), ws[i], Flatten(ws[i + 1..]), a);
  }

  lemma RemoveMiddle<T>(x: seq<T>, w: seq<T>, y: seq<T>, a: nat)
    requires a < |w|
    ensures x + Removed(w, a) + y == Removed(x + w + y, |x| + a)
  {
  }

  lemma UpdateFlat(ws: seq<seq<Pair>>, i: nat, a: nat, p: Pair)
    requires i < |ws| && a < |ws[i]|
    ensures Start(ws, i) + a < |Flatten(ws)|
    ensures Flatten(ws[i := ws[i][a := p]]) == Flatten(ws)[Start(ws, i) + a := p]
  {
    FlattenReplace(ws, i, ws[i][a := p]);
  }

  // ----- How the rearrangements keep the shape -----

  lemma SplitShaped(ws: seq<seq<Pair>>, nodeSize: nat, i: nat)
    requires Shaped(ws, nodeSize) && nodeSize >= 2 && i < |ws| && |ws[i]| == nodeSize
    ensures Shaped(Split(ws, i, nodeSize - nodeSize / 2), nodeSize)
  {
    var m := nodeSize - nodeSize / 2;
    var ws' := Split(ws, i, m);
    SplitKeeps(ws, i, m);
    forall j | 0 <= j < |ws'|
      ensures |ws'[j]| <= nodeSize
      ensures j < |ws'| - 1 ==> nodeSize / 2 <= |ws'[j]|
      ensures j == |ws'| - 1 ==> |ws'[j]| > 0
    {
      assert ws'[j] == if j < i then ws[j] else if j == i then ws[i][..m] else if j == i + 1 then ws[i][m..] else ws[j - 1];
    }
  }

  lemma EditShaped(ws: seq<seq<Pair>>, nodeSize: nat, i: nat, w: seq<Pair>)
    requires Shaped(ws, nodeSize) && i < |ws|
    requires |ws[i]| <= |w| <= nodeSize && Ascending(Flatten(ws[i := w]))
    ensures Shaped(ws[i := w], nodeSize)
  {
  }

  /** Setting in a window, at the answered slot, sets in the sorted map. */
  lemma ReplacedInWindow(ws: seq<seq<Pair>>, nodeSize: nat, i: nat, a: nat, key: Key, value: Value, replaceKey: bool)
    requires Shaped(ws, nodeSize) && Answers(ws, key, true, i, a)
    ensures var w := ws[i][a := Pair(if replaceKey then key else ws[i][a].key, value)];
            Shaped(ws[i := w], nodeSize) && Flatten(ws[i := w]) == MapSet(Flatten(ws), key, value, replaceKey)
  {
    var pair := Pair(if replaceKey then key else ws[i][a].key, value);
    UpdateFlat(ws, i, a, pair);
    FlattenIndex(ws, i, a);
    MapSetAscending(Flatten(ws), key, value, replaceKey);
    EditShaped(ws, nodeSize, i, ws[i][a := pair]);
  }

  lemma InsertedInWindow(ws: seq<seq<Pair>>, nodeSize: nat, i: nat, a: nat, key: Key, value: Value, replaceKey: bool)
    requires Shaped(ws, nodeSize) && i < |ws| && a <= |ws[i]| < nodeSize
    requires Start(ws, i) + a == Pos(Flatten(ws), key) && !Has(Flatten(ws), key)
    ensures var w := Inserted(ws[i], a, Pair(key, value));
            Shaped(ws[i := w], nodeSize) && Flatten(ws[i := w]) == MapSet(Flatten(ws), key, value, replaceKey)
  {
    InsertFlat(ws, i, a, Pair(key, value));
    MapSetAscending(Flatten(ws), key, value, replaceKey);
    EditShaped(ws, nodeSize, i, Inserted(ws[i], a, Pair(key, value)));
  }

  /** After a split, a slot of the split window is a slot of one of the halves. */
  lemma SplitSlot(ws: seq<seq<Pair>>, i: nat, m: nat, a: nat)
    requires i < |ws| && 0 < m < |ws[i]| && a <= |ws[i]|
    ensures var t := Split(ws, i, m);
            && |t| == |ws| + 1 && |t[i]| == m && |t[i + 1]| == |ws[i]| - m
            && (a <= m ==> Start(t, i) + a == Start(ws, i) + a)
            && (a > m ==> Start(t, i + 1) + (a - m) == Start(ws, i) + a)
  {
    var t := Split(ws, i, m);
    assert t[..i] == ws[..i] && t[i] == ws[i][..m];
    StartNext(t, i);
  }

  /** The outcome of the binary search within window i, and of preferring the end of a
      less full window before it. */
  lemma AnswerWithin(ws: seq<seq<Pair>>, key: Key, i: nat, found: bool, a: nat)
    requires Ascending(Flatten(ws)) && Narrowed(ws, key, i) && key.rank < LastRank(ws[i]) && a <= |ws[i]|
    requires found ==> a < |ws[i]| && ws[i][a].key.rank == key.rank
    requires a > 0 ==> ws[i][a - 1].key.rank < key.rank
    requires !found && a < |ws[i]| ==> key.rank < ws[i][a].key.rank
    ensures if !found && a == 0 < i && |ws[i - 1]| < |ws[i]| then Answers(ws, key, false, i - 1, |ws[i - 1]|)
            else Answers(ws, key, found, i, a)
  {
    AnswerInside(ws, key, i, a);
  }

  /** An insertion would land in a full window. */
  ghost predicate Crowded(ws: seq<seq<Pair>>, key: Key, nodeSize: nat) {
    exists i: nat, a: nat :: Answers(ws, key, false, i, a) && |ws[i]| == nodeSize
  }

  /** Where a new key goes is determined. */
  lemma AnswerUnique(ws: seq<seq<Pair>>, nodeSize: nat, key: Key, i: nat, a: nat, i': nat, a': nat)
    requires Shaped(ws, nodeSize) && nodeSize >= 2
    requires Answers(ws, key, false, i, a) && Answers(ws, key, false, i', a')
    ensures i == i' && a == a'
  {
    assert !(i < i') by {
      if i < i' {
        AnswerNotLater(ws, nodeSize, key, i, a, i', a');
      }
    }
    if i' < i {
      AnswerNotLater(ws, nodeSize, key, i', a', i, a);
    }
  }

  lemma AnswerNotLater(ws: seq<seq<Pair>>, nodeSize: nat, key: Key, i: nat, a: nat, i': nat, a': nat)
    requires Shaped(ws, nodeSize) && nodeSize >= 2 && i < i'
    requires Answers(ws, key, false, i, a)
    ensures !Answers(ws, key, false, i', a')
  {
    if i' < |ws| {
      StartNext(ws, i);
      if i + 1 < i' {
        assert nodeSize / 2 <= |ws[i + 1]|;
        StartMonotone(ws, i + 1, i');
      }
    }
  }

  // ----- Removing, and making up for it -----

  /** Shaped, but for window i, which has come to hold fewer than half a node's pairs. */
  ghost predicate Lacking(ws: seq<seq<Pair>>, nodeSize: nat, i: nat) {
    && i < |ws| && |ws[i]| < nodeSize / 2
    && (forall j :: 0 <= j < |ws| ==> |ws[j]| <= nodeSize)
    && (forall j :: 0 <= j < |ws| - 1 && j != i ==> nodeSize / 2 <= |ws[j]|)
    && (i != |ws| - 1 ==> |ws[|ws| - 1]| > 0)
    && Ascending(Flatten(ws))
  }

  lemma RemovedFromWindow(ws: seq<seq<Pair>>, nodeSize: nat, i: nat, a: nat)
    requires Shaped(ws, nodeSize) && nodeSize >= 2 && i < |ws| && a < |ws[i]|
    ensures var ws' := ws[i := Removed(ws[i], a)];
            && Start(ws, i) + a < |Flatten(ws)|
            && Flatten(ws') == Removed(Flatten(ws), Start(ws, i) + a)
            && Ascending(Flatten(ws'))
            && (if |ws[i]| - 1 < nodeSize / 2 then Lacking(ws', nodeSize, i) else Shaped(ws', nodeSize))
  {
    RemoveFlat(ws, i, a);
    RemovedAscending(Flatten(ws), Start(ws, i) + a);
  }

  /** The only node may hold anything; the last one, anything but nothing. */
  lemma LackingTolerated(ws: seq<seq<Pair>>, nodeSize: nat, i: nat)
    requires Lacking(ws, nodeSize, i)
    requires |ws| > 1 ==> i == |ws| - 1 && ws[i] != []
    ensures Shaped(ws, nodeSize)
  {
  }

  /** Merging a lacking window, as either half, makes up for it. */
  lemma JoinedShaped(ws: seq<seq<Pair>>, nodeSize: nat, i: nat, j: nat)
    requires Lacking(ws, nodeSize, i) && nodeSize >= 2 && j + 1 < |ws|
    requires i == j || (i == j + 1 && i == |ws| - 1)
    requires |ws[j]| + |ws[j + 1]| <= nodeSize
    ensures Shaped(Joined(ws, j), nodeSize)
    ensures Flatten(Joined(ws, j)) == Flatten(ws)
  {
    JoinKeeps(ws, j);
    var t := Joined(ws, j);
    forall m | 0 <= m < |t|
      ensures |t[m]| <= nodeSize
      ensures m < |t| - 1 ==> nodeSize / 2 <= |t[m]|
      ensures m == |t| - 1 ==> |t[m]| > 0
    {
      assert t[m] == if m < j then ws[m] else if m == j then ws[j] + ws[j + 1] else ws[m + 1];
      assert m == j < |t| - 1 ==> nodeSize / 2 <= |ws[j + 1]|;
    }
  }

  /** When they do not fit together, the next window has pairs to spare: it keeps exactly
      half a node, and the lacking one ends between half full and full. */
  lemma ShiftedShaped(ws: seq<seq<Pair>>, nodeSize: nat, i: nat)
    requires Lacking(ws, nodeSize, i) && nodeSize >= 2 && i + 1 < |ws|
    requires |ws[i]| + |ws[i + 1]| > nodeSize
    ensures |ws[i + 1]| > nodeSize / 2
    ensures var t := Shifted(ws, i, |ws[i + 1]| - nodeSize / 2);
            && Shaped(t, nodeSize) && Flatten(t) == Flatten(ws)
            && |t[i + 1]| == nodeSize / 2 && nodeSize / 2 <= |t[i]| < nodeSize
  {
    var t := Shifted(ws, i, |ws[i + 1]| - nodeSize / 2);
    ShiftKeeps(ws, i, |ws[i + 1]| - nodeSize / 2);
    forall m | 0 <= m < |t| && m != i && m != i + 1 ensures t[m] == ws[m] {
    }
  }

  /** Around a merge, last keys still tell the nodes before it from those after it. */
  lemma JoinedRanks(ws: seq<seq<Pair>>, k: nat, j: nat)
    requires Ascending(Flatten(ws)) && 0 < k < |ws| && j < |ws| && j != k
    requires ws[j] != [] && ws[k - 1] + ws[k] != []
    ensures j < k - 1 ==> LastRank(ws[j]) < LastRank(ws[k - 1] + ws[k])
    ensures j > k ==> LastRank(ws[k - 1] + ws[k]) < LastRank(ws[j])
  {
    var o := if ws[k] != [] then k else k - 1;
    assert LastRank(ws[k - 1] + ws[k]) == LastRank(ws[o]);
    if j < k - 1 {
      LastsAscend(ws, j, o);
    } else if j > k {
      LastsAscend(ws, o, j);
    }
  }

  /** Last keys tell the windows before k from those after it. */
  ghost predicate Around(ws: seq<seq<Pair>>, k: nat) {
    && 0 < k < |ws| && ws[k - 1] != []
    && forall j {:trigger ws[j]} :: 0 <= j < |ws| && j != k ==>
         && ws[j] != []
         && (j < k ==> LastRank(ws[j]) <= LastRank(ws[k - 1]))
         && (k < j ==> LastRank(ws[k - 1]) < LastRank(ws[j]))
  }

  lemma MergedAround(ws: seq<seq<Pair>>, k: nat)
    requires Ascending(Flatten(ws)) && 0 < k < |ws|
    requires forall j :: 0 <= j < |ws| && j != k && j != k - 1 ==> ws[j] != []
    requires ws[k - 1] + ws[k] != []
    ensures Around(ws[k - 1 := ws[k - 1] + ws[k]], k)
  {
    var w := ws[k - 1] + ws[k];
    forall j | 0 <= j < |ws| && j != k && j != k - 1
      ensures j < k ==> LastRank(ws[j]) < LastRank(w)
      ensures k < j ==> LastRank(w) < LastRank(ws[j])
    {
      JoinedRanks(ws, k, j);
    }
    ReplacedAround(ws, k, w);
  }

  lemma ReplacedAround(ws: seq<seq<Pair>>, k: nat, w: seq<Pair>)
    requires 0 < k < |ws| && w != []
    requires forall j :: 0 <= j < |ws| && j != k && j != k - 1 ==>
               ws[j] != [] && (j < k ==> LastRank(ws[j]) < LastRank(w)) && (k < j ==> LastRank(w) < LastRank(ws[j]))
    ensures Around(ws[k - 1 := w], k)
  {
  }

  /** The ends of the first and last windows are the ends of the whole. */
  lemma Ends(ws: seq<seq<Pair>>, nodeSize: nat)
    requires Shaped(ws, nodeSize) && nodeSize >= 2
    ensures |Flatten(ws)| == Start(ws, |ws| - 1) + |ws[|ws| - 1]|
    ensures Start(ws, 0) == 0
    ensures ws[0] == [] <==> Flatten(ws) == []
    ensures ws[0] == [] ==> |ws| == 1
    ensures ws[|ws| - 1] == [] <==> Flatten(ws) == []
    ensures ws[0] != [] ==> Flatten(ws)[0] == ws[0][0]
    ensures ws[0] != [] ==> Flatten(ws)[|Flatten(ws)| - 1] == ws[|ws| - 1][|ws[|ws| - 1]| - 1]
  {
    var k := |ws| - 1;
    assert |Flatten(ws)| == Start(ws, k) + |ws[k]| by {
      StartNext(ws, k);
      assert ws[..|ws|] == ws;
    }
    assert |ws| > 1 ==> nodeSize / 2 <= |ws[0]|;
    assert Start(ws, 0) == 0 && |ws[0]| <= |Flatten(ws)| by {
      StartNext(ws, 0);
    }
    if ws[0] != [] {
      FlattenIndex(ws, 0, 0);
      FlattenIndex(ws, k, |ws[k]| - 1);
    }
  }

  lemma RemovedIsJoined(ws: seq<seq<Pair>>, k: nat)
    requires 0 < k < |ws|
    ensures Removed(ws[k - 1 := ws[k - 1] + ws[k]], k) == Joined(ws, k - 1)
  {
  }

  // ----- Building -----

  lemma LastEnd(ws: seq<seq<Pair>>, nodeSize: nat)
    requires Shaped(ws, nodeSize) && nodeSize >= 2
    ensures var w, s := ws[|ws| - 1], Flatten(ws);
            && |s| == Start(ws, |ws| - 1) + |w| && (w == [] <==> s == [])
            && (w != [] ==> w[|w| - 1] == s[|s| - 1])
  {
    Ends(ws, nodeSize);
  }

  lemma RemovedAtEnd(ws: seq<seq<Pair>>, nodeSize: nat)
    requires Shaped(ws, nodeSize) && nodeSize >= 2 && Flatten(ws) != []
    ensures var k := |ws| - 1;
            && ws[k] != []
            && var ws' := ws[k := Removed(ws[k], |ws[k]| - 1)];
               && Flatten(ws') == Removed(Flatten(ws), |Flatten(ws)| - 1)
               && (Shaped(ws', nodeSize) || Lacking(ws', nodeSize, k))
  {
    Ends(ws, nodeSize);
    RemovedFromWindow(ws, nodeSize, |ws| - 1, |ws[|ws| - 1]| - 1);
  }

  /** As a builder packs them: every window but the last is full. */
  ghost predicate Packed(ws: seq<seq<Pair>>, nodeSize: nat) {
    && |ws| > 0
    && (forall i :: 0 <= i < |ws| - 1 ==> |ws[i]| == nodeSize)
    && |ws[|ws| - 1]| <= nodeSize
    && (|ws| > 1 ==> ws[|ws| - 1] != [])
    && Ascending(Flatten(ws))
  }

  lemma PackedShaped(ws: seq<seq<Pair>>, nodeSize: nat)
    requires Packed(ws, nodeSize)
    ensures Shaped(ws, nodeSize)
  {
  }

  /** Full windows hold as many pairs as they can. */
  lemma {:induction false} FullCount(ws: seq<seq<Pair>>, nodeSize: nat)
    requires forall i :: 0 <= i < |ws| ==> |ws[i]| == nodeSize
    ensures |Flatten(ws)| == |ws| * nodeSize
  {
    if ws != [] {
      FullCount(ws[1..], nodeSize);
      assert |ws| * nodeSize == nodeSize + (|ws| - 1) * nodeSize;
    }
  }

  /** Dividing a sum of full windows and a rest, q times n and r. */
  lemma {:induction false} PartOfMultiple(q: nat, n: nat, r: nat, x: nat)
    requires r <= n && 0 < n && x == q * n + r
    ensures x % n == 0 <==> r == 0 || r == n
  {
    if q > 0 {
      assert q * n == (q - 1) * n + n;
      PartOfMultiple(q - 1, n, r, x - n);
      AddedWhole(x - n, n);
    }
  }

  lemma {:induction false} NotLess(k: nat, n: nat)
    requires 0 < k
    ensures n <= k * n
  {
    if k > 1 {
      NotLess(k - 1, n);
      assert k * n == (k - 1) * n + n;
    }
  }

  lemma OnlyZero(k: int, n: nat)
    requires 0 - n < k * n < n
    ensures k == 0
  {
    assert (0 - k) * n == 0 - k * n;
    if k > 0 {
      NotLess(k, n);
    } else if k < 0 {
      NotLess(0 - k, n);
    }
  }

  lemma AddedWhole(x: nat, n: nat)
    requires 0 < n
    ensures (x + n) % n == x % n
  {
    var d, e := x / n + 1, (x + n) / n;
    assert d * n == (x / n) * n + n;
    assert (e - d) * n == e * n - d * n;
    OnlyZero(e - d, n);
  }

  /** As pairs are packed, the last window is full exactly when their number is a multiple of
      the node size. */
  lemma PackedFull(ws: seq<seq<Pair>>, nodeSize: nat)
    requires Packed(ws, nodeSize) && 0 < nodeSize
    ensures |ws[|ws| - 1]| == nodeSize <==> 0 < |Flatten(ws)| && |Flatten(ws)| % nodeSize == 0
  {
    var n := |ws| - 1;
    FlattenUpTo(ws, n);
    assert ws[..n + 1] == ws;
    FullCount(ws[..n], nodeSize);
    PartOfMultiple(n, nodeSize, |ws[n]|, |Flatten(ws)|);
    assert n == 0 ==> n * nodeSize == 0;
  }

  /** When it is, they are as many as fit, and else fewer. */
  lemma PackedBelow(ws: seq<seq<Pair>>, nodeSize: nat)
    requires Packed(ws, nodeSize) && 0 < nodeSize
    ensures |Flatten(ws)| <= |ws| * nodeSize
    ensures |ws[|ws| - 1]| == nodeSize <==> |Flatten(ws)| == |ws| * nodeSize
  {
    var n := |ws| - 1;
    FlattenUpTo(ws, n);
    assert ws[..n + 1] == ws;
    FullCount(ws[..n], nodeSize);
    assert (n + 1) * nodeSize == n * nodeSize + nodeSize;
  }

  /** Appending to the last window, which may be a new one after a full one. */
  lemma AppendedPacked(ws: seq<seq<Pair>>, nodeSize: nat, pair: Pair)
    requires |ws| > 0 && |ws[|ws| - 1]| < nodeSize && Ascending(Flatten(ws))
    requires forall i :: 0 <= i < |ws| - 1 ==> |ws[i]| == nodeSize
    requires Flatten(ws) != [] ==> Flatten(ws)[|Flatten(ws)| - 1].key.rank < pair.key.rank
    ensures var k := |ws| - 1;
            && Packed(ws[k := ws[k] + [pair]], nodeSize)
            && Flatten(ws[k := ws[k] + [pair]]) == Flatten(ws) + [pair]
  {
    var k := |ws| - 1;
    FlattenReplace(ws, k, ws[k] + [pair]);
    assert ws[k + 1..] == [];
    var s := Flatten(ws) + [pair];
    assert Flatten(ws[k := ws[k] + [pair]]) == s;
    forall i, j | 0 <= i < j < |s| ensures s[i].key.rank < s[j].key.rank {
      if j == |s| - 1 && i < |s| - 2 {
        assert s[i].key.rank < s[|s| - 2].key.rank;
      }
    }
  }

  lemma FullPackedPlus(ws: seq<seq<Pair>>, nodeSize: nat)
    requires Packed(ws, nodeSize) && |ws[|ws| - 1]| == nodeSize
    ensures forall i :: 0 <= i < |ws| ==> |(ws + [[]])[i]| == nodeSize
    ensures Flatten(ws + [[]]) == Flatten(ws)
  {
    FlattenConcat(ws, [[]]);
    FlattenOne([]);
  }
}
