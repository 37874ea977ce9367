/** Keys, values, pairs, and the plain sorted map that a skiparray refines.

    The comparison callback is a fixed total preorder: a key has a rank, which is
    all that comparing looks at, and an identity, which tells apart two instances
    that compare equal. */
module Pairs {
  datatype Key = Key(rank: int, id: int)

  /** A value pointer: NULL, or some pointer the library never looks behind. */
  datatype Value = Null | Pointer(id: int)

  datatype Pair = Pair(key: Key, value: Value)

  datatype Option<T> = None | Some(value: T)

  /** The comparison callback: only the sign of its result is ever used. */
  function Cmp(a: Key, b: Key): int {
    a.rank - b.rank
  }

  ghost predicate Ascending(s: seq<Pair>) {
    forall i, j {:trigger s[i].key.rank, s[j].key.rank} :: 0 <= i < j < |s| ==> s[i].key.rank < s[j].key.rank
  }

  // ----- The sorted map -----

  ghost predicate IsPos(s: seq<Pair>, key: Key, p: nat) {
    && p <= |s|
    && (forall i :: 0 <= i < p ==> s[i].key.rank < key.rank)
    && (p < |s| ==> key.rank <= s[p].key.rank)
  }

  lemma {:induction false} PosExists(s: seq<Pair>, key: Key)
    ensures exists p: nat :: IsPos(s, key, p)
  {
    if s == [] {
      assert IsPos(s, key, 0);
    } else {
      var n := |s| - 1;
      PosExists(s[..n], key);
      var p: nat :| IsPos(s[..n], key, p);
      assert IsPos(s, key, if p == n && s[n].key.rank < key.rank then n + 1 else p);
    }
  }

  /** How many leading pairs have a smaller key: where `key` is, or belongs. */
  ghost function Pos(s: seq<Pair>, key: Key): (p: nat)
    ensures IsPos(s, key, p)
  {
    PosExists(s, key);
    var p: nat :| IsPos(s, key, p);
    p
  }

  ghost predicate Has(s: seq<Pair>, key: Key) {
    Pos(s, key) < |s| && s[Pos(s, key)].key.rank == key.rank
  }

  ghost function Inserted<T>(s: seq<T>, i: nat, x: T): seq<T>
    requires i <= |s|
  {
    seq(|s| + 1, k requires 0 <= k <= |s| => if k < i then s[k] else if k == i then x else s[k - 1])
  }

  ghost function Removed<T>(s: seq<T>, i: nat): seq<T>
    requires i < |s|
  {
    seq(|s| - 1, k requires 0 <= k < |s| - 1 => if k < i then s[k] else s[k + 1])
  }

  lemma InsertedMembers<T>(s: seq<T>, i: nat, x: T)
    requires i <= |s|
    ensures forall o :: o in Inserted(s, i, x) <==> o in s || o == x
  {
    var t := Inserted(s, i, x);
    assert t[i] == x;
    forall o | o in s ensures o in t {
      var k :| 0 <= k < |s| && s[k] == o;
      assert t[if k < i then k else k + 1] == o;
    }
  }

  lemma InsertedAtEnd<T>(s: seq<T>, x: T)
    ensures Inserted(s, |s|, x) == s + [x]
  {
  }

  ghost function MapSet(s: seq<Pair>, key: Key, value: Value, replaceKey: bool): seq<Pair> {
    var p := Pos(s, key);
    if Has(s, key)
    then s[p := Pair(if replaceKey then key else s[p].key, value)]
    else Inserted(s, p, Pair(key, value))
  }

  ghost function MapForget(s: seq<Pair>, key: Key): seq<Pair> {
    if Has(s, key) then Removed(s, Pos(s, key)) else s
  }

  /** Any split point between smaller and not-smaller keys is the position. */
  lemma PosUnique(s: seq<Pair>, key: Key, p: nat)
    requires IsPos(s, key, p)
    ensures Pos(s, key) == p
  {
    var q := Pos(s, key);
    assert q < |s| ==> key.rank <= s[q].key.rank;
  }

  /** A key is present exactly when some pair compares equal to it. */
  lemma HasIff(s: seq<Pair>, key: Key)
    requires Ascending(s)
    ensures Has(s, key) <==> exists i :: 0 <= i < |s| && s[i].key.rank == key.rank
  {
    if i :| 0 <= i < |s| && s[i].key.rank == key.rank {
      var p := Pos(s, key);
      assert p <= i;
    }
  }

  lemma MapSetAscending(s: seq<Pair>, key: Key, value: Value, replaceKey: bool)
    requires Ascending(s)
    ensures Ascending(MapSet(s, key, value, replaceKey))
    ensures |MapSet(s, key, value, replaceKey)| == |s| + (if Has(s, key) then 0 else 1)
  {
    var p := Pos(s, key);
    var t := MapSet(s, key, value, replaceKey);
    if !Has(s, key) {
      forall i, j | 0 <= i < j < |t| ensures t[i].key.rank < t[j].key.rank {
        assert t[i] == if i < p then s[i] else if i == p then Pair(key, value) else s[i - 1];
        assert t[j] == if j < p then s[j] else if j == p then Pair(key, value) else s[j - 1];
        assert i == p < |s| ==> s[p].key.rank <= s[j - 1].key.rank;
      }
    }
  }

  lemma RemovedAscending(s: seq<Pair>, i: nat)
    requires Ascending(s) && i < |s|
    ensures Ascending(Removed(s, i))
  {
  }

  // ----- The sorted map as a Dafny map from rank to pair -----

  ghost predicate HasRank(s: seq<Pair>, rank: int) {
    exists i :: 0 <= i < |s| && s[i].key.rank == rank
  }

  /** `s` lists exactly the entries of `m`. */
  ghost predicate Lists(s: seq<Pair>, m: map<int, Pair>) {
    && Ascending(s)
    && (forall i :: 0 <= i < |s| ==> s[i].key.rank in m && m[s[i].key.rank] == s[i])
    && (forall r {:trigger HasRank(s, r)} :: r in m ==> HasRank(s, r))
  }

  lemma {:induction false} ListsSome(s: seq<Pair>) returns (m: map<int, Pair>)
    requires Ascending(s)
    ensures Lists(s, m)
  {
    if s == [] {
      m := map[];
    } else {
      var n := |s| - 1;
      m := ListsSome(s[..n]);
      m := m[s[n].key.rank := s[n]];
      forall r | r in m ensures HasRank(s, r) {
        if r == s[n].key.rank {
          assert s[n].key.rank == r;
        } else {
          assert HasRank(s[..n], r);
          var i :| 0 <= i < n && s[..n][i].key.rank == r;
          assert s[i].key.rank == r;
        }
      }
    }
  }

  /** A map has only one ascending listing: the order adds nothing to the map. */
  lemma Canonical(s: seq<Pair>, t: seq<Pair>, m: map<int, Pair>)
    requires Lists(s, m) && Lists(t, m)
    ensures s == t
  {
    CanonicalPrefix(s, t, m, |s|);
    CanonicalPrefix(t, s, m, |t|);
  }

  lemma {:induction false} CanonicalPrefix(s: seq<Pair>, t: seq<Pair>, m: map<int, Pair>, n: nat)
    requires Lists(s, m) && Lists(t, m) && n <= |s|
    ensures n <= |t| && forall k :: 0 <= k < n ==> s[k] == t[k]
  {
    if n > 0 {
      var k := n - 1;
      CanonicalPrefix(s, t, m, k);
      assert HasRank(t, s[k].key.rank);
      var j :| 0 <= j < |t| && t[j].key.rank == s[k].key.rank;
      assert j >= k;
      assert HasRank(s, t[k].key.rank);
      var i :| 0 <= i < |s| && s[i].key.rank == t[k].key.rank;
      assert i >= k;
    }
  }

  /** Setting in the sorted sequence is updating the map. */
  lemma MapSetIsUpdate(s: seq<Pair>, m: map<int, Pair>, key: Key, value: Value, replaceKey: bool)
    requires Lists(s, m)
    ensures Has(s, key) <==> key.rank in m
    ensures Lists(MapSet(s, key, value, replaceKey),
                  m[key.rank := Pair(if key.rank in m && !replaceKey then m[key.rank].key else key, value)])
  {
    var p, t := Pos(s, key), MapSet(s, key, value, replaceKey);
    var m' := m[key.rank := Pair(if key.rank in m && !replaceKey then m[key.rank].key else key, value)];
    MapSetAscending(s, key, value, replaceKey);
    HasIff(s, key);
    assert key.rank in m ==> HasRank(s, key.rank);
    assert t[p] == m'[key.rank];
    forall i | 0 <= i < |t| ensures t[i].key.rank in m' && m'[t[i].key.rank] == t[i] {
      if i != p {
        assert t[i] == s[if Has(s, key) || i < p then i else i - 1];
      }
    }
    forall r | r in m' ensures HasRank(t, r) {
      if r == key.rank {
        assert t[p].key.rank == r;
      } else {
        assert HasRank(s, r);
        var i :| 0 <= i < |s| && s[i].key.rank == r;
        assert t[if Has(s, key) || i < p then i else i + 1] == s[i];
      }
    }
  }

  /** Forgetting in the sorted sequence is removing from the map. */
  lemma MapForgetIsRemoval(s: seq<Pair>, m: map<int, Pair>, key: Key)
    requires Lists(s, m)
    ensures Has(s, key) <==> key.rank in m
    ensures Lists(MapForget(s, key), m - {key.rank})
  {
    HasIff(s, key);
    assert key.rank in m ==> HasRank(s, key.rank);
    if Has(s, key) {
      RemovedLists(s, m, Pos(s, key));
    } else {
      assert m - {key.rank} == m;
    }
  }

  lemma RemovedLists(s: seq<Pair>, m: map<int, Pair>, p: nat)
    requires Lists(s, m) && p < |s|
    ensures Lists(Removed(s, p), m - {s[p].key.rank})
  {
    var t := Removed(s, p);
    forall i | 0 <= i < |t| ensures t[i].key.rank in m && t[i].key.rank != s[p].key.rank && m[t[i].key.rank] == t[i] {
      assert t[i] == s[if i < p then i else i + 1];
    }
    forall r | r in m && r != s[p].key.rank ensures HasRank(t, r) {
      assert HasRank(s, r);
      var i :| 0 <= i < |s| && s[i].key.rank == r;
      assert t[if i < p then i else i - 1] == s[i];
    }
  }

  lemma {:induction false} ListsCount(s: seq<Pair>, m: map<int, Pair>)
    requires Lists(s, m)
    ensures |m| == |s|
  {
    if s == [] {
      assert forall r {:trigger HasRank(s, r)} :: r in m ==> HasRank(s, r);
      assert m.Keys == {} by {
        forall r ensures r !in m {
          assert !HasRank(s, r);
        }
      }
    } else {
      var n := |s| - 1;
      RemovedLists(s, m, n);
      assert Removed(s, n) == s[..n];
      ListsCount(s[..n], m - {s[n].key.rank});
      assert (m - {s[n].key.rank})[s[n].key.rank := s[n]] == m;
    }
  }

  /** Ascending sequences with the same pairs are equal. */
  lemma SameMembers(s: seq<Pair>, t: seq<Pair>)
    requires Ascending(s) && Ascending(t) && forall p :: p in s <==> p in t
    ensures s == t
  {
    var m := ListsSome(s);
    forall i | 0 <= i < |t| ensures t[i].key.rank in m && m[t[i].key.rank] == t[i] {
      assert t[i] in s;
    }
    forall r | r in m ensures HasRank(t, r) {
      assert HasRank(s, r);
      var i :| 0 <= i < |s| && s[i].key.rank == r;
      assert s[i] in t;
    }
    Canonical(s, t, m);
  }

  /** Setting pairs one after the other. */
  ghost function SetAll(s: seq<Pair>, ps: seq<Pair>, replaceKey: bool): seq<Pair> {
    if ps == [] then s else
      var p := ps[|ps| - 1];
      MapSet(SetAll(s, ps[..|ps| - 1], replaceKey), p.key, p.value, replaceKey)
  }

  ghost predicate DistinctRanks(ps: seq<Pair>) {
    forall i, j :: 0 <= i < j < |ps| ==> ps[i].key.rank != ps[j].key.rank
  }

  lemma {:induction false} SetAllMembers(ps: seq<Pair>, replaceKey: bool)
    requires DistinctRanks(ps)
    ensures Ascending(SetAll([], ps, replaceKey))
    ensures forall p :: p in SetAll([], ps, replaceKey) <==> p in ps
  {
    if ps != [] {
      var n := |ps| - 1;
      var s, p := SetAll([], ps[..n], replaceKey), ps[n];
      SetAllMembers(ps[..n], replaceKey);
      assert ps == ps[..n] + [p];
      HasIff(s, p.key);
      forall i | 0 <= i < |s| ensures s[i].key.rank != p.key.rank {
        assert s[i] in ps[..n];
      }
      MapSetAscending(s, p.key, p.value, replaceKey);
      InsertedMembers(s, Pos(s, p.key), p);
    }
  }

  /** The order in which distinct pairs are set does not matter. */
  lemma AnyOrder(s: seq<Pair>, ps: seq<Pair>, replaceKey: bool)
    requires Ascending(s) && multiset(ps) == multiset(s)
    ensures SetAll([], ps, replaceKey) == s
  {
    forall i, j | 0 <= i < j < |ps| ensures ps[i].key.rank != ps[j].key.rank {
      OnceEach(s, ps, i, j);
    }
    SetAllMembers(ps, replaceKey);
    forall p ensures p in SetAll([], ps, replaceKey) <==> p in s {
      assert p in ps <==> p in multiset(ps);
    }
    SameMembers(SetAll([], ps, replaceKey), s);
  }

  lemma OnceEach(s: seq<Pair>, ps: seq<Pair>, i: nat, j: nat)
    requires Ascending(s) && multiset(ps) == multiset(s) && i < j < |ps|
    ensures ps[i].key.rank != ps[j].key.rank
  {
    assert ps[i] in multiset(ps) && ps[j] in multiset(ps);
    var a: nat :| a < |s| && s[a] == ps[i];
    var b: nat :| b < |s| && s[b] == ps[j];
    OnceOnly(s, a);
    if ps[i] == ps[j] {
      Twice(ps, i, j);
      assert false;
    }
  }

  lemma OnceOnly(s: seq<Pair>, a: nat)
    requires Ascending(s) && a < |s|
    ensures multiset(s)[s[a]] == 1
  {
    assert s == s[..a] + [s[a]] + s[a + 1..];
    assert forall b :: 0 <= b < |s| && b != a ==> s[b].key.rank != s[a].key.rank;
    assert s[a] !in multiset(s[..a]) && s[a] !in multiset(s[a + 1..]);
  }

  lemma Twice(s: seq<Pair>, i: nat, j: nat)
    requires i < j < |s| && s[i] == s[j]
    ensures multiset(s)[s[i]] >= 2
  {
    assert s == s[..j] + ([s[j]] + s[j + 1..]);
    assert s[..j][i] == s[i];
    assert s[i] in multiset(s[..j]);
  }
}
