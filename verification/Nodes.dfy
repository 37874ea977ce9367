/** One node of the skiparray: a sliding window into a fixed buffer of keys and one
    of values, plus its links. */
module Nodes {
  import opened Pairs

  ghost predicate Paired(ks: seq<Key>, vs: seq<Value>, s: seq<Pair>, i: nat)
    requires i < |ks| == |vs| == |s|
  {
    s[i] == Pair(ks[i], vs[i])
  }

  ghost predicate Zipped(ks: seq<Key>, vs: seq<Value>, s: seq<Pair>) {
    |ks| == |vs| == |s| && forall i {:trigger Paired(ks, vs, s, i)} :: 0 <= i < |s| ==> Paired(ks, vs, s, i)
  }

  lemma ZippedExists(ks: seq<Key>, vs: seq<Value>)
    requires |ks| == |vs|
    ensures exists s :: Zipped(ks, vs, s)
  {
    var s := seq(|ks|, i requires 0 <= i < |ks| => Pair(ks[i], vs[i]));
    assert Zipped(ks, vs, s);
  }

  /** Keys and values cell by cell. */
  ghost function Zip(ks: seq<Key>, vs: seq<Value>): (s: seq<Pair>)
    requires |ks| == |vs|
    ensures |s| == |ks|
  {
    ZippedExists(ks, vs);
    var s :| Zipped(ks, vs, s);
    s
  }

  lemma ZipCells(ks: seq<Key>, vs: seq<Value>)
    requires |ks| == |vs|
    ensures forall i {:trigger Zip(ks, vs)[i]} :: 0 <= i < |ks| ==> Zip(ks, vs)[i] == Pair(ks[i], vs[i])
  {
    forall i | 0 <= i < |ks| ensures Zip(ks, vs)[i] == Pair(ks[i], vs[i]) {
      assert Zipped(ks, vs, Zip(ks, vs)) && Paired(ks, vs, Zip(ks, vs), i);
    }
  }

  /** `to` with n cells from position toPos on overwritten by those of `from`. */
  ghost function Moved<T>(to: seq<T>, toPos: nat, from: seq<T>, fromPos: nat, n: nat): seq<T>
    requires toPos + n <= |to| && fromPos + n <= |from|
  {
    seq(|to|, i requires 0 <= i < |to| => if toPos <= i < toPos + n then from[fromPos + i - toPos] else to[i])
  }

  lemma ZipMoved(ks: seq<Key>, vs: seq<Value>, toPos: nat, ks': seq<Key>, vs': seq<Value>, fromPos: nat, n: nat)
    requires |ks| == |vs| && |ks'| == |vs'|
    requires toPos + n <= |ks| && fromPos + n <= |ks'|
    ensures Zip(Moved(ks, toPos, ks', fromPos, n), Moved(vs, toPos, vs', fromPos, n)) ==
            Moved(Zip(ks, vs), toPos, Zip(ks', vs'), fromPos, n)
  {
    ZipCells(ks, vs);
    ZipCells(ks', vs');
    ZipCells(Moved(ks, toPos, ks', fromPos, n), Moved(vs, toPos, vs', fromPos, n));
  }

  lemma ZipStored(ks: seq<Key>, vs: seq<Value>, i: nat, k: Key, v: Value)
    requires i < |ks| == |vs|
    ensures Zip(ks[i := k], vs[i := v]) == Zip(ks, vs)[i := Pair(k, v)]
  {
    ZipCells(ks, vs);
    ZipCells(ks[i := k], vs[i := v]);
  }

  lemma MovedConstant<T>(s: seq<T>, toPos: nat, s': seq<T>, fromPos: nat, n: nat, x: T)
    requires toPos + n <= |s| && fromPos + n <= |s'|
    requires forall i :: 0 <= i < |s| ==> s[i] == x
    requires forall i :: 0 <= i < |s'| ==> s'[i] == x
    ensures Moved(s, toPos, s', fromPos, n) == s
  {
  }

  /** memmove and memcpy within or between buffers: all reads before all writes. */
  method MoveCells<T>(to: array<T>, toPos: nat, from: array<T>, fromPos: nat, n: nat)
    requires toPos + n <= to.Length && fromPos + n <= from.Length
    modifies to
    ensures to[..] == Moved(old(to[..]), toPos, old(from[..]), fromPos, n)
  {
    forall i | 0 <= i < n {
      to[toPos + i] := from[fromPos + i];
    }
  }

  /** The c cells from position o on. */
  ghost function Slice<T>(s: seq<T>, o: nat, c: nat): (w: seq<T>)
    requires o + c <= |s|
    ensures |w| == c
  {
    seq(c, k requires 0 <= k < c => s[o + k])
  }

  /** Cell k of w is in place, before or after the free cell. */
  ghost predicate InPlace<T>(s: seq<T>, o: nat, w: seq<T>, i: nat, k: nat)
    requires i <= |w| && o + |w| < |s| && k < |w|
  {
    w[k] == s[if k < i then o + k else o + k + 1]
  }

  /** From position o on, the cells hold `w` with one free cell before index i. */
  ghost predicate GapIn<T>(s: seq<T>, o: nat, w: seq<T>, i: nat)
    requires i <= |w|
  {
    && o + |w| < |s|
    && (forall k {:trigger InPlace(s, o, w, i, k)} :: 0 <= k < |w| ==> InPlace(s, o, w, i, k))
  }

  /** The overlapping backward move takes one cell more than the gap needs: the extra
      copy of cell i is where the new one goes, and its original stays in place. */
  lemma GapBackward<T>(s: seq<T>, o: nat, c: nat, i: nat)
    requires 0 < o && i < c && o + c <= |s|
    ensures GapIn(Moved(s, o - 1, s, o, i + 1), o - 1, Slice(s, o, c), i)
  {
  }

  lemma GapForward<T>(s: seq<T>, o: nat, c: nat, i: nat)
    requires i <= c && o + c < |s|
    ensures GapIn(Moved(s, o + i + 1, s, o + i, c - i), o, Slice(s, o, c), i)
  {
  }

  lemma SlideToFront<T>(s: seq<T>, o: nat, c: nat)
    requires o + c <= |s|
    ensures Slice(Moved(s, 0, s, o, c), 0, c) == Slice(s, o, c)
  {
  }

  lemma AppendSlice<T>(s: seq<T>, o: nat, c: nat, s': seq<T>, o': nat, c': nat, m: nat, n: nat)
    requires m + n <= c' && o' + c' <= |s'| && o + c + n <= |s|
    ensures Slice(Moved(s, o + c, s', o' + m, n), o, c + n) == Slice(s, o, c) + Slice(s', o', c')[m..m + n]
  {
  }

  lemma StoreInGap<T>(s: seq<T>, o: nat, w: seq<T>, i: nat, x: T)
    requires i <= |w| && GapIn(s, o, w, i)
    ensures Slice(s[o + i := x], o, |w| + 1) == Inserted(w, i, x)
  {
    var t, v := Slice(s[o + i := x], o, |w| + 1), Inserted(w, i, x);
    forall k | 0 <= k < |v| ensures t[k] == v[k] {
      if k != i {
        assert InPlace(s, o, w, i, if k < i then k else k - 1);
      }
    }
  }

  lemma CloseGap<T>(s: seq<T>, o: nat, c: nat, i: nat)
    requires i < c && o + c <= |s|
    ensures Slice(Moved(s, o + i, s, o + i + 1, c - i - 1), o, c - 1) == Removed(Slice(s, o, c), i)
  {
  }

  /** skiparray_bsearch over the count cells from base on. */
  method Bsearch(key: Key, keys: array<Key>, base: nat, count: nat) returns (found: bool, index: nat)
    requires count > 0 && base + count <= keys.Length
    requires forall i, j :: base <= i < j < base + count ==> keys[i].rank <= keys[j].rank
    ensures index <= count
    ensures found ==> index < count && keys[base + index].rank == key.rank
    ensures !found ==> forall i :: base <= i < base + index ==> keys[i].rank < key.rank
    ensures !found ==> forall i :: base + index <= i < base + count ==> key.rank < keys[i].rank
  {
    var low, high := 0, count;
    while low < high
      invariant 0 <= low <= high <= count
      invariant forall i :: base <= i < base + low ==> keys[i].rank < key.rank
      invariant forall i :: base + high <= i < base + count ==> key.rank < keys[i].rank
    {
      var cur := (low + high) / 2;
      var res := Cmp(key, keys[base + cur]);
      if res < 0 {
        high := cur;
      } else if res > 0 {
        low := cur + 1;
      } else {
        return true, cur;
      }
    }
    return false, low;
  }

  class Node {
    const height: nat
    const keys: array<Key>
    const values: array?<Value>  // null when the skiparray ignores values
    var offset: nat
    var count: nat
    var back: Node?
    var fwd: seq<Node?>  // the struct's flexible array member

    constructor (height: nat, nodeSize: nat, useValues: bool)
      requires height >= 1 && nodeSize >= 2
      ensures this.height == height && keys.Length == nodeSize && fresh(keys)
      ensures (values != null) == useValues && (values != null ==> fresh(values))
      ensures Fits() && offset == nodeSize / 2 && count == 0
      ensures back == null && |fwd| == height && forall l :: 0 <= l < height ==> fwd[l] == null
    {
      this.height := height;
      keys := new Key[nodeSize](_ => Key(0, 0));
      if useValues {
        values := new Value[nodeSize](_ => Null);
      } else {
        values := null;
      }
      offset, count, back := nodeSize / 2, 0, null;
      fwd := seq(height, _ => null);
    }

    /** The buffers the node owns. */
    ghost function Buffers(): set<object> {
      var ks: set<object> := {keys};
      if values == null then ks else ks + {values}
    }

    /** The window lies within the buffers, and an empty node has room at its offset. */
    ghost predicate Fits()
      reads `offset, `count
    {
      && offset + count <= keys.Length
      && offset < keys.Length
      && (values != null ==> values.Length == keys.Length)
    }

    ghost function ValueCells(): (vs: seq<Value>)
      requires values != null ==> values.Length == keys.Length
      reads values
      ensures |vs| == keys.Length
    {
      if values == null then seq(keys.Length, _ => Null) else values[..]
    }

    /** The whole buffers, cell by cell. */
    ghost function Cells(): (cells: seq<Pair>)
      requires values != null ==> values.Length == keys.Length
      reads keys, values
      ensures |cells| == keys.Length
    {
      Zip(keys[..], ValueCells())
    }

    /** The pairs the node holds, in order. */
    ghost function Window(): (w: seq<Pair>)
      requires Fits()
      reads `offset, `count, keys, values
      ensures |w| == count
    {
      Slice(Cells(), offset, count)
    }

    function PairAt(index: nat): (pair: Pair)
      requires Fits() && index < count
      reads `offset, `count, keys, values
      ensures pair == Window()[index]
    {
      ZipCells(keys[..], ValueCells());
      Pair(keys[offset + index], if values == null then Null else values[offset + index])
    }

    /** Neither the window's bounds nor the buffers have changed. */
    twostate predicate Untouched()
      reads `offset, `count, keys, values
    {
      && offset == old(offset) && count == old(count)
      && keys[..] == old(keys[..])
      && (values != null ==> values[..] == old(values[..]))
    }

    function LastKey(): Key
      requires Fits() && count > 0
      reads `offset, `count, keys
    {
      keys[offset + count - 1]
    }

    lemma LastKeyOfWindow()
      requires Fits() && count > 0
      ensures LastKey() == Window()[count - 1].key
    {
      ZipCells(keys[..], ValueCells());
    }

    lemma KeysOfWindow()
      requires Fits()
      ensures forall i :: offset <= i < offset + count ==> keys[i] == Window()[i - offset].key
    {
      ZipCells(keys[..], ValueCells());
      ghost var cells, w := Cells(), Window();
      assert forall i :: offset <= i < offset + count ==> cells[i] == w[i - offset];
    }

    /** search_within_node */
    method SearchWithin(key: Key) returns (found: bool, index: nat)
      requires Fits() && count > 0 && Ascending(Window())
      ensures index <= count
      ensures found ==> index < count && Window()[index].key.rank == key.rank
      ensures index > 0 ==> Window()[index - 1].key.rank < key.rank
      ensures !found && index < count ==> key.rank < Window()[index].key.rank
    {
      KeysOfWindow();
      found, index := Bsearch(key, keys, offset, count);
      ghost var w := Window();
      if index > 0 {
        assert keys[offset + index - 1] == w[index - 1].key;
      }
      if index < count {
        assert keys[offset + index] == w[index].key;
      }
    }

    /** shift_pairs: move cells within the node; the window bounds stay. */
    method ShiftPairs(toPos: nat, fromPos: nat, n: nat)
      requires values != null ==> values.Length == keys.Length
      requires toPos + n <= keys.Length && fromPos + n <= keys.Length
      modifies Buffers()
      ensures Cells() == Moved(old(Cells()), toPos, old(Cells()), fromPos, n)
    {
      ZipMoved(keys[..], ValueCells(), toPos, keys[..], ValueCells(), fromPos, n);
      MoveCells(keys, toPos, keys, fromPos, n);
      if values != null {
        MoveCells(values, toPos, values, fromPos, n);
      } else {
        MovedConstant(ValueCells(), toPos, ValueCells(), fromPos, n, Null);
      }
    }

    /** move_pairs: copy cells of another node into this one. */
    method MovePairs(from: Node, toPos: nat, fromPos: nat, n: nat)
      requires values != null ==> values.Length == keys.Length
      requires from.values != null ==> from.values.Length == from.keys.Length
      requires (values == null) == (from.values == null)
      requires toPos + n <= keys.Length && fromPos + n <= from.keys.Length
      modifies Buffers()
      ensures Cells() == Moved(old(Cells()), toPos, old(from.Cells()), fromPos, n)
    {
      ZipMoved(keys[..], ValueCells(), toPos, from.keys[..], from.ValueCells(), fromPos, n);
      MoveCells(keys, toPos, from.keys, fromPos, n);
      if values != null {
        MoveCells(values, toPos, from.values, fromPos, n);
      } else {
        MovedConstant(ValueCells(), toPos, from.ValueCells(), fromPos, n, Null);
      }
    }

    /** prepare_node_for_insert: open a gap at `index`, moving as few pairs as each
        layout needs; the window is not yet one longer. */
    method PrepareForInsert(index: nat)
      requires Fits() && index <= count < keys.Length
      modifies `offset, Buffers()
      ensures GapIn(Cells(), offset, old(Window()), index)
    {
      if index == 0 {
        OpenFront();
      } else if index < count {
        OpenMiddle(index);
      } else {
        OpenEnd();
      }
    }

    method OpenFront()
      requires Fits() && count < keys.Length
      modifies `offset, Buffers()
      ensures GapIn(Cells(), offset, old(Window()), 0)
    {
      if count > 0 && offset > 0 {
        offset := offset - 1;
      } else {
        GapForward(Cells(), offset, count, 0);
        ShiftPairs(offset + 1, offset, count);
      }
    }

    method OpenMiddle(index: nat)
      requires Fits() && index < count < keys.Length
      modifies `offset, Buffers()
      ensures GapIn(Cells(), offset, old(Window()), index)
    {
      if offset > 0 {
        OpenBackward(index);
      } else {
        OpenForward(index);
      }
    }

    method OpenBackward(index: nat)
      requires Fits() && index < count < keys.Length && offset > 0
      modifies `offset, Buffers()
      ensures GapIn(Cells(), offset, old(Window()), index)
    {
      var toMove := index + 1;
      ghost var o, w, cells := offset - 1, Window(), Moved(Cells(), offset - 1, Cells(), offset, toMove);
      assert GapIn(cells, o, w, index) by {
        GapBackward(Cells(), offset, count, index);
      }
      ShiftPairs(offset - 1, offset, toMove);
      offset := offset - 1;
      assert Cells() == cells;
    }

    method OpenForward(index: nat)
      requires Fits() && index < count < keys.Length && offset == 0
      modifies Buffers()
      ensures GapIn(Cells(), offset, old(Window()), index)
    {
      var toMove := count - index;
      GapForward(Cells(), 0, count, index);
      ShiftPairs(index + 1, index, toMove);
    }

    method OpenEnd()
      requires Fits() && 0 < count < keys.Length
      modifies `offset, Buffers()
      ensures GapIn(Cells(), offset, old(Window()), count)
    {
      if offset + count == keys.Length {
        SlideToFront(Cells(), offset, count);
        ShiftPairs(0, offset, count);
        offset := 0;
      }
    }

    method Store(at: nat, key: Key, value: Value)
      requires at < keys.Length && (values != null ==> values.Length == keys.Length)
      modifies Buffers()
      ensures Cells() == old(Cells())[at := Pair(key, if values == null then Null else value)]
    {
      ZipStored(keys[..], ValueCells(), at, key, if values == null then Null else value);
      ghost var ks, vs := keys[..][at := key], ValueCells()[at := if values == null then Null else value];
      keys[at] := key;
      if values != null {
        values[at] := value;
      }
      assert keys[..] == ks && ValueCells() == vs;
    }

    /** Open the gap and store the pair in it. */
    method InsertAt(index: nat, key: Key, value: Value)
      requires Fits() && index <= count < keys.Length
      modifies `offset, `count, Buffers()
      ensures Fits()
      ensures Window() == Inserted(old(Window()), index, Pair(key, if values == null then Null else value))
    {
      ghost var w := Window();
      PrepareForInsert(index);
      ghost var cells := Cells();
      Store(offset + index, key, value);
      count := count + 1;
      ghost var pair := Pair(key, if values == null then Null else value);
      assert Slice(cells[offset + index := pair], offset, count) == Inserted(w, index, pair) by {
        StoreInGap(cells, offset, w, index, pair);
      }
    }

    /** Overwrite the value at `index`, and its key instance if asked. */
    method ReplaceAt(index: nat, key: Key, value: Value, replaceKey: bool)
      requires Fits() && index < count
      modifies Buffers()
      ensures Fits()
      ensures Window() == old(Window()[index := Pair(if replaceKey then key else Window()[index].key,
                                                     if values == null then Null else value)])
    {
      ghost var at, k, v := offset + index, if replaceKey then key else keys[offset + index], if values == null then Null else value;
      ghost var ks, vs := keys[..][at := k], ValueCells()[at := v];
      assert k == if replaceKey then key else PairAt(index).key;
      ZipStored(keys[..], ValueCells(), at, k, v);
      if values != null {
        values[offset + index] := value;
      }
      if replaceKey {
        keys[offset + index] := key;
      }
      assert keys[..] == ks && ValueCells() == vs;
    }

    /** Drop the first pair by sliding the window's start; deletion never pushes the
        offset off the end of the buffers. */
    method DropFirst()
      requires Fits() && count > 0 && keys.Length >= 2
      modifies `offset, `count
      ensures Fits() && Window() == old(Window())[1..]
    {
      offset := offset + 1;
      if offset == keys.Length {
        offset := keys.Length / 2;
      }
      count := count - 1;
    }

    method DropHead(n: nat)
      requires Fits() && n < count
      modifies `offset, `count
      ensures Fits() && Window() == old(Window()[n..])
    {
      count := count - n;
      offset := offset + n;
    }

    method DropTail(n: nat)
      requires Fits() && n <= count
      modifies `count
      ensures Fits() && Window() == old(Window()[..count - n])
    {
      count := count - n;
    }

    method DropMiddle(index: nat)
      requires Fits() && index < count
      modifies `count, Buffers()
      ensures Fits() && Window() == Removed(old(Window()), index)
    {
      var toMove := count - index - 1;
      ghost var o, c, w := offset, count, Removed(Window(), index);
      ghost var cells := Moved(Cells(), o + index, Cells(), o + index + 1, toMove);
      assert Slice(cells, o, c - 1) == w by {
        CloseGap(Cells(), o, c, index);
      }
      ShiftPairs(offset + index, offset + index + 1, toMove);
      assert Cells() == cells;
      count := count - 1;
      assert Window() == w;
    }

    /** Remove the pair at `index`, as forget does. */
    method RemoveAt(index: nat)
      requires Fits() && index < count && keys.Length >= 2
      modifies `offset, `count, Buffers()
      ensures Fits()
      ensures Window() == Removed(old(Window()), index)
    {
      if index == 0 {
        DropFirst();
      } else if index == count - 1 {
        DropTail(1);
      } else {
        DropMiddle(index);
      }
    }

    /** Slide the window to the front of the buffers. */
    method MoveToFront()
      requires Fits()
      modifies `offset, Buffers()
      ensures Fits() && offset == 0 && Window() == old(Window())
    {
      ghost var w, cells := Window(), Moved(Cells(), 0, Cells(), offset, count);
      assert Slice(cells, 0, count) == w by {
        SlideToFront(Cells(), offset, count);
      }
      ShiftPairs(0, offset, count);
      assert Cells() == cells;
      offset := 0;
      assert Window() == w;
    }

    /** Append the first n pairs of another node's window, which must fit. */
    method AppendFrom(from: Node, n: nat)
      requires from != this && Fits() && from.Fits()
      requires (values == null) == (from.values == null)
      requires n <= from.count && offset + count + n <= keys.Length
      requires Buffers() !! from.Buffers()
      modifies `count, Buffers()
      ensures Fits()
      ensures Window() == old(Window()) + old(from.Window())[..n]
    {
      ghost var o, end := offset, offset + count;
      ghost var cells := Moved(Cells(), end, from.Cells(), from.offset, n);
      ghost var w := Window() + from.Window()[..n];
      assert Slice(cells, o, count + n) == w by {
        AppendSlice(Cells(), o, count, from.Cells(), from.offset, from.count, 0, n);
      }
      MovePairs(from, offset + count, from.offset, n);
      assert Cells() == cells;
      count := count + n;
      assert Window() == w;
    }

    /** Copy the last n pairs of another node's window into this empty node. */
    method CopyTail(from: Node, n: nat)
      requires from != this && Fits() && from.Fits() && count == 0
      requires (values == null) == (from.values == null)
      requires n < from.count && n <= keys.Length
      requires Buffers() !! from.Buffers()
      modifies `offset, `count, Buffers()
      ensures Fits() && offset == 0
      ensures Window() == old(from.Window()[from.count - n..])
    {
      offset := 0;
      ghost var m := from.count - n;
      ghost var cells := Moved(Cells(), 0, from.Cells(), from.offset + m, n);
      ghost var w := from.Window()[m..];
      assert Slice(cells, 0, n) == w by {
        AppendSlice(Cells(), 0, 0, from.Cells(), from.offset, from.count, m, n);
      }
      MovePairs(from, 0, from.offset + from.count - n, n);
      assert Cells() == cells;
      count := count + n;
      assert Window() == w;
    }

    /** Make room by sliding to the front, then append pairs from another node. */
    method Absorb(from: Node, n: nat)
      requires from != this && Fits() && from.Fits()
      requires (values == null) == (from.values == null)
      requires n <= from.count && count + n <= keys.Length
      requires Buffers() !! from.Buffers()
      modifies `offset, `count, Buffers()
      ensures Fits()
      ensures Window() == old(Window()) + old(from.Window())[..n]
    {
      if offset > 0 {
        MoveToFront();
      }
      assert from.Untouched();
      AppendFrom(from, n);
    }

    /** The builder's append, to a node filled from the front of its buffers. */
    method AppendPair(key: Key, value: Value)
      requires Fits() && offset == 0 && count < keys.Length
      modifies `count, Buffers()
      ensures Fits() && Window() == old(Window()) + [Pair(key, if values == null then Null else value)]
    {
      Store(count, key, value);
      count := count + 1;
    }
  }
}
