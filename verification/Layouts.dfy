/** What a skiparray looks like inside, but for the links, which follow from it: the pairs each
    node holds and how tall the node is. */
module Layouts {
  import opened Pairs
  import opened Windows

  datatype Layout = Layout(windows: seq<seq<Pair>>, heights: seq<nat>)

  /** A node of height h is linked on level l. */
  ghost predicate OnLevel(h: nat, l: nat) {
    l < h
  }

  /** How tall a new node behind the first one becomes, by the level callback's answer, which
      is raised by one and cut to a byte. */
  ghost predicate AddedHeight(h: nat, maxLevel: nat, answer: int) {
    forall l: nat {:trigger OnLevel(h, l)} :: OnLevel(h, l) <==> l < maxLevel && l <= (answer + 1) % 256
  }

  /** The first node is on one level less. */
  ghost predicate RootHeight(h: nat, maxLevel: nat, answer: int) {
    forall l: nat {:trigger OnLevel(h, l)} :: OnLevel(h, l) <==> l < maxLevel && l < (answer + 1) % 256
  }

  lemma AddedHeightIs(h: nat, maxLevel: nat, answer: int)
    requires maxLevel > 0
    ensures AddedHeight(h, maxLevel, answer) <==>
              h == if (answer + 1) % 256 < maxLevel then (answer + 1) % 256 + 1 else maxLevel
  {
    var top := if (answer + 1) % 256 < maxLevel then (answer + 1) % 256 + 1 else maxLevel;
    if AddedHeight(h, maxLevel, answer) {
      assert OnLevel(h, top - 1) && !OnLevel(h, top);
    }
  }

  /** For the answers it may give, a new node is on two levels more than the answer, as far as
      there are that many. So it is on two at least, larger answers never make for lower nodes,
      and each height from two up to the limit occurs. */
  lemma AddedHeightIff(h: nat, maxLevel: nat, answer: nat)
    requires maxLevel > 0 && answer < 255
    ensures AddedHeight(h, maxLevel, answer) <==> h == if answer + 2 < maxLevel then answer + 2 else maxLevel
  {
    AddedHeightIs(h, maxLevel, answer);
  }

  lemma RootHeightIff(h: nat, maxLevel: nat, answer: nat)
    requires maxLevel > 0 && answer < 255
    ensures RootHeight(h, maxLevel, answer) <==> h == if answer + 1 < maxLevel then answer + 1 else maxLevel
  {
    var top := if answer + 1 < maxLevel then answer + 1 else maxLevel;
    if RootHeight(h, maxLevel, answer) {
      assert OnLevel(h, top - 1) && !OnLevel(h, top);
    }
  }

  /** One pair more at the end: where the last node is full, a new one follows it. */
  ghost predicate Extended(hs: seq<nat>, full: bool, maxLevel: nat, answer: int, hs': seq<nat>) {
    if full then |hs'| == |hs| + 1 && hs'[..|hs|] == hs && AddedHeight(hs'[|hs|], maxLevel, answer) else hs' == hs
  }

  /** A builder's nodes are as tall as the level callback has it when the first pair of each
      comes. */
  ghost predicate BuiltHeights(hs: seq<nat>, nodeSize: nat, maxLevel: nat, root: int, levels: nat -> int) {
    && hs != [] && RootHeight(hs[0], maxLevel, root)
    && forall i {:trigger hs[i]} :: 0 < i < |hs| ==> AddedHeight(hs[i], maxLevel, levels(i * nodeSize))
  }

  lemma BuiltMore(hs: seq<nat>, nodeSize: nat, maxLevel: nat, root: int, levels: nat -> int, full: bool, n: nat, hs': seq<nat>)
    requires BuiltHeights(hs, nodeSize, maxLevel, root, levels) && Extended(hs, full, maxLevel, levels(n), hs')
    requires full ==> n == |hs| * nodeSize
    ensures BuiltHeights(hs', nodeSize, maxLevel, root, levels)
  {
    assert forall i :: 0 <= i < |hs| ==> hs'[i] == hs[i];
  }

  // ----- What the operations do to it -----

  ghost predicate Matched(lay: Layout) {
    |lay.windows| == |lay.heights|
  }

  /** The key is there: its pair changes in place. */
  ghost function Overwritten(lay: Layout, i: nat, a: nat, pair: Pair): Layout
    requires i < |lay.windows| && a < |lay.windows[i]|
  {
    lay.(windows := lay.windows[i := lay.windows[i][a := pair]])
  }

  /** There is room in node i. */
  ghost function Entered(lay: Layout, i: nat, a: nat, pair: Pair): Layout
    requires i < |lay.windows| && a <= |lay.windows[i]|
  {
    lay.(windows := lay.windows[i := Inserted(lay.windows[i], a, pair)])
  }

  /** Node i is full: a node of height h takes the last half of its pairs, rounded down, and one
      of the two the new pair. */
  ghost function SplitUp(lay: Layout, nodeSize: nat, i: nat, h: nat): Layout
    requires Matched(lay) && i < |lay.windows| && |lay.windows[i]| == nodeSize
  {
    Layout(Windows.Split(lay.windows, i, nodeSize - nodeSize / 2), Inserted(lay.heights, i + 1, h))
  }

  ghost function EnteredSplit(lay: Layout, nodeSize: nat, i: nat, a: nat, pair: Pair, h: nat): Layout
    requires Matched(lay) && i < |lay.windows| && a <= |lay.windows[i]| == nodeSize
  {
    var kept := nodeSize - nodeSize / 2;
    if a <= kept then Entered(SplitUp(lay, nodeSize, i, h), i, a, pair)
    else Entered(SplitUp(lay, nodeSize, i, h), i + 1, a - kept, pair)
  }

  /** Node j takes all pairs of the next one, which goes. */
  ghost function Merged(lay: Layout, j: nat): Layout
    requires Matched(lay) && j + 1 < |lay.windows|
  {
    Layout(Joined(lay.windows, j), Removed(lay.heights, j + 1))
  }

  ghost predicate FitTogether(ws: seq<seq<Pair>>, nodeSize: nat, j: nat) {
    j + 1 < |ws| && |ws[j]| + |ws[j + 1]| <= nodeSize
  }

  /** What is done about node i, which has come to hold too few pairs. */
  ghost function MadeUp(lay: Layout, nodeSize: nat, i: nat): Layout
    requires Matched(lay) && i < |lay.windows| && |lay.windows[i]| < nodeSize / 2
  {
    var ws := lay.windows;
    if FitTogether(ws, nodeSize, i) then Merged(lay, i)
    else if i + 1 < |ws| then lay.(windows := Shifted(ws, i, |ws[i + 1]| - nodeSize / 2))
    else if i > 0 && FitTogether(ws, nodeSize, i - 1) then Merged(lay, i - 1)
    else lay
  }

  /** Pair a of node i is forgotten. */
  ghost function TakenOut(lay: Layout, nodeSize: nat, i: nat, a: nat): Layout
    requires Matched(lay) && i < |lay.windows| && a < |lay.windows[i]|
  {
    var less := lay.(windows := lay.windows[i := Removed(lay.windows[i], a)]);
    if |less.windows[i]| < nodeSize / 2 then MadeUp(less, nodeSize, i) else less
  }

  /** The last pair is popped, and its node if that was all it held, unless it is the first. */
  ghost function LastDropped(lay: Layout): Layout
    requires Matched(lay) && lay.windows != [] && lay.windows[|lay.windows| - 1] != []
  {
    var k := |lay.windows| - 1;
    var less := lay.(windows := lay.windows[k := Removed(lay.windows[k], |lay.windows[k]| - 1)]);
    if k > 0 && less.windows[k] == [] then Layout(less.windows[..k], less.heights[..k]) else less
  }

  // ----- What that amounts to -----

  /** A split leaves both halves at least half full, and the pair that lands just behind what is
      kept goes into the old node. */
  lemma EnteredSplitSizes(lay: Layout, nodeSize: nat, i: nat, a: nat, pair: Pair, h: nat)
    requires Matched(lay) && i < |lay.windows| && a <= |lay.windows[i]| == nodeSize && nodeSize >= 2
    ensures var t, half := EnteredSplit(lay, nodeSize, i, a, pair, h).windows, nodeSize / 2;
            && |t| == |lay.windows| + 1
            && |t[i]| == nodeSize - half + (if a <= nodeSize - half then 1 else 0)
            && |t[i]| + |t[i + 1]| == nodeSize + 1
            && (if a <= nodeSize - half then t[i][a] == pair else t[i + 1][a - (nodeSize - half)] == pair)
            && (forall j :: 0 <= j < |t| && j != i && j != i + 1 ==> t[j] == lay.windows[if j < i then j else j - 1])
  {
    var kept := nodeSize - nodeSize / 2;
    var t := SplitUp(lay, nodeSize, i, h).windows;
    assert |t| == |lay.windows| + 1 && |t[i]| == kept && |t[i + 1]| == nodeSize - kept;
  }

  /** Making up for a node drops exactly one node if its pairs fit into one with those of the
      next, or, for the last, with those of the one before. Else no node goes, no pair moves but
      from the next one, and that only as far as it leaves the next one half full. */
  lemma MadeUpAmounts(lay: Layout, nodeSize: nat, i: nat)
    requires Matched(lay) && Lacking(lay.windows, nodeSize, i) && nodeSize >= 2
    ensures var ws, t := lay.windows, MadeUp(lay, nodeSize, i).windows;
            var fits := FitTogether(ws, nodeSize, i) || (i + 1 == |ws| && i > 0 && FitTogether(ws, nodeSize, i - 1));
            && |t| == |ws| - (if fits then 1 else 0)
            && (!fits ==> ws[i] <= t[i] && forall j :: 0 <= j < |ws| && j != i && j != i + 1 ==> t[j] == ws[j])
            && (!fits && i + 1 < |ws| ==> |t[i + 1]| == nodeSize / 2 && t[i] + t[i + 1] == ws[i] + ws[i + 1])
  {
    var ws := lay.windows;
    if !FitTogether(ws, nodeSize, i) && i + 1 < |ws| {
      var m := |ws[i + 1]| - nodeSize / 2;
      assert ws[i + 1] == ws[i + 1][..m] + ws[i + 1][m..];
    }
  }

  /** Forgetting a pair of the last node never leaves it under half full where it would fit into
      one with the node before it. */
  lemma LastTooMuch(lay: Layout, nodeSize: nat, a: nat)
    requires Matched(lay) && Shaped(lay.windows, nodeSize) && nodeSize >= 2
    requires |lay.windows| > 1 && a < |lay.windows[|lay.windows| - 1]|
    ensures var t := TakenOut(lay, nodeSize, |lay.windows| - 1, a).windows;
            var k := |t| - 1;
            && k >= 0 && (k > 0 && |t[k]| < nodeSize / 2 ==> |t[k - 1]| + |t[k]| > nodeSize)
  {
    var k := |lay.windows| - 1;
    RemovedFromWindow(lay.windows, nodeSize, k, a);
    var less := lay.windows[k := Removed(lay.windows[k], a)];
    if |less[k]| < nodeSize / 2 && FitTogether(less, nodeSize, k - 1) {
      assert Joined(less, k - 1)[k - 1] == less[k - 1] + less[k];
      assert nodeSize / 2 <= |less[k - 1]|;
    }
  }

  /** Forgetting a pair of another node may leave the last one like that, but only as it was. */
  lemma LastAsItWas(lay: Layout, nodeSize: nat, i: nat, a: nat)
    requires Matched(lay) && Shaped(lay.windows, nodeSize) && nodeSize >= 2
    requires i + 1 < |lay.windows| && a < |lay.windows[i]|
    ensures var ws, t := lay.windows, TakenOut(lay, nodeSize, i, a).windows;
            t != [] && (|t[|t| - 1]| < nodeSize / 2 ==> t[|t| - 1] == ws[|ws| - 1])
  {
    var ws := lay.windows;
    RemovedFromWindow(ws, nodeSize, i, a);
    var less := ws[i := Removed(ws[i], a)];
    if |less[i]| < nodeSize / 2 && FitTogether(less, nodeSize, i) {
      assert Joined(less, i)[i] == less[i] + less[i + 1];
    }
  }

  /** The last node is under half full, and would fit into one with the node before it. */
  ghost predicate LastFits(ws: seq<seq<Pair>>, nodeSize: nat) {
    |ws| > 1 && |ws[|ws| - 1]| < nodeSize / 2 && FitTogether(ws, nodeSize, |ws| - 2)
  }

  /** Before a pair of node i is forgotten: node i is not the last, the last is under half full,
      and the node before it is, or will be, small enough. */
  ghost predicate WillFit(ws: seq<seq<Pair>>, nodeSize: nat, i: nat)
    requires i < |ws|
  {
    var k, half, less := |ws| - 1, nodeSize / 2, |ws[i]| - 1;
    i < k && |ws[k]| < half
    && if i == k - 1 then half <= less <= nodeSize - |ws[k]|
       else if i == k - 2 && less < half
            then (if less + |ws[k - 1]| <= nodeSize then less + |ws[k - 1]| else half) <= nodeSize - |ws[k]|
       else |ws[k - 1]| <= nodeSize - |ws[k]|
  }

  /** The sizes the last two nodes come to have. */
  ghost predicate EndsWith(t: seq<seq<Pair>>, x: nat, y: nat) {
    |t| > 1 && |t[|t| - 2]| == x && |t[|t| - 1]| == y
  }

  lemma EndsWithMerged(ws: seq<seq<Pair>>, i: nat)
    requires i + 2 < |ws|
    ensures EndsWith(Joined(ws, i), if i + 3 == |ws| then |ws[i]| + |ws[i + 1]| else |ws[|ws| - 2]|, |ws[|ws| - 1]|)
  {
    var t := Joined(ws, i);
    assert |t| == |ws| - 1 && t[i] == ws[i] + ws[i + 1];
    assert forall j {:trigger t[j]} :: i < j < |t| ==> t[j] == ws[j + 1];
  }

  lemma EndsWithShifted(ws: seq<seq<Pair>>, i: nat, m: nat)
    requires i + 2 < |ws| && m <= |ws[i + 1]|
    ensures EndsWith(Shifted(ws, i, m), if i + 3 == |ws| then |ws[i + 1]| - m else |ws[|ws| - 2]|, |ws[|ws| - 1]|)
  {
  }

  lemma LastFitsBeside(ws: seq<seq<Pair>>, nodeSize: nat, i: nat, less: Layout)
    requires Shaped(ws, nodeSize) && nodeSize >= 2 && i + 2 == |ws| && ws[i] != [] && Matched(less)
    requires |less.windows| == |ws| && |less.windows[i]| == |ws[i]| - 1 < nodeSize / 2 && less.windows[i + 1] == ws[i + 1]
    ensures !LastFits(MadeUp(less, nodeSize, i).windows, nodeSize)
  {
    var t := MadeUp(less, nodeSize, i).windows;
    if FitTogether(less.windows, nodeSize, i) {
      assert t == less.windows[..i] + [less.windows[i] + ws[i + 1]];
    } else {
      assert |t[i + 1]| == nodeSize / 2;
    }
  }

  lemma LastFitsBeyond(ws: seq<seq<Pair>>, nodeSize: nat, i: nat, less: Layout)
    requires i + 2 < |ws| && ws[i] != [] && Matched(less) && |ws[i + 1]| >= nodeSize / 2
    requires |less.windows| == |ws| && |less.windows[i]| == |ws[i]| - 1 < nodeSize / 2
    requires forall j {:trigger ws[j]} :: i < j < |ws| ==> less.windows[j] == ws[j]
    ensures LastFits(MadeUp(less, nodeSize, i).windows, nodeSize) <==> WillFit(ws, nodeSize, i)
  {
    assert ws[i + 1] == less.windows[i + 1] && ws[|ws| - 1] == less.windows[|ws| - 1] && ws[|ws| - 2] == less.windows[|ws| - 2];
    if FitTogether(less.windows, nodeSize, i) {
      EndsWithMerged(less.windows, i);
    } else {
      EndsWithShifted(less.windows, i, |ws[i + 1]| - nodeSize / 2);
    }
  }

  /** Exactly then does forgetting leave a last node that would fit into the one before it. */
  lemma LastFitsIff(lay: Layout, nodeSize: nat, i: nat, a: nat)
    requires Matched(lay) && Shaped(lay.windows, nodeSize) && nodeSize >= 2
    requires i < |lay.windows| && a < |lay.windows[i]|
    ensures LastFits(TakenOut(lay, nodeSize, i, a).windows, nodeSize) <==> WillFit(lay.windows, nodeSize, i)
  {
    var ws := lay.windows;
    var less := lay.(windows := ws[i := Removed(ws[i], a)]);
    if i + 1 == |ws| {
      if i > 0 {
        LastTooMuch(lay, nodeSize, a);
      }
    } else if |ws[i]| - 1 < nodeSize / 2 {
      if i + 2 == |ws| {
        LastFitsBeside(ws, nodeSize, i, less);
      } else {
        LastFitsBeyond(ws, nodeSize, i, less);
      }
    }
  }

  /** So it does: nodes of four, the keys 1 to 4 in one and 5 in the next, and 1 is forgotten. */
  lemma LastStaysShort()
    ensures var p := (rank: int) => Pair(Key(rank, rank), Null);
            var t := TakenOut(Layout([[p(1), p(2), p(3), p(4)], [p(5)]], [1, 2]), 4, 0, 0).windows;
            t == [[p(2), p(3), p(4)], [p(5)]] && |t[1]| < 4 / 2 && |t[0]| + |t[1]| <= 4
  {
    var p := (rank: int) => Pair(Key(rank, rank), Null);
    assert Removed([p(1), p(2), p(3), p(4)], 0) == [p(2), p(3), p(4)];
  }
}
