/** The in-place list edits that the reorder handlers perform on a copy of a
    list: `splice` out one element and `splice` it back at a new index, the
    swap of two cells by destructuring assignment, and the `map` that writes
    each element's index into its position. Each method works on an array
    and is proved equal to a function on sequences. */
module ListMoves {

  /** The arrow a reorder button stands for. */
  datatype Direction = Up | Down

  /** `direction === 'up' ? index - 1 : index + 1`. */
  function Target(index: nat, direction: Direction): int {
    if direction == Up then index - 1 else index + 1
  }

  /** Where the element at index `m` after a move from `from` to `to` came
      from. */
  function MovedFrom(from: nat, to: nat, m: nat, n: nat): (k: nat)
    requires from < n && to < n && m < n
    ensures k < n
  {
    if m == to then from
    else if from < to && from <= m < to then m + 1
    else if to < from && to < m <= from then m - 1
    else m
  }

  /** `splice(from, 1)` followed by `splice(to, 0, moved)`: the moved element
      lands at `to`, and the elements between the two indexes shift one
      place towards `from`. */
  function Moved<T>(s: seq<T>, from: nat, to: nat): (r: seq<T>)
    requires from < |s| && to < |s|
    ensures |r| == |s|
    ensures forall m :: 0 <= m < |s| ==> r[m] == s[MovedFrom(from, to, m, |s|)]
  {
    var rest := s[..from] + s[from + 1..];
    SpliceIndexes(s, from, to);
    rest[..to] + [s[from]] + rest[to..]
  }

  lemma SpliceIndexes<T>(s: seq<T>, from: nat, to: nat)
    requires from < |s| && to < |s|
    ensures var rest := s[..from] + s[from + 1..];
      forall m :: 0 <= m < |s| ==> (rest[..to] + [s[from]] + rest[to..])[m] == s[MovedFrom(from, to, m, |s|)]
  {
    var rest := s[..from] + s[from + 1..];
    var r := rest[..to] + [s[from]] + rest[to..];
    assert |rest| == |s| - 1;
    forall k | 0 <= k < |rest| ensures rest[k] == if k < from then s[k] else s[k + 1] {
      if k < from {
        assert rest[k] == s[..from][k];
      } else {
        assert rest[k] == s[from + 1..][k - from];
      }
    }
    forall m | 0 <= m < |s| ensures r[m] == s[MovedFrom(from, to, m, |s|)] {
      if m < to {
        assert r[m] == rest[..to][m] == rest[m];
      } else if m == to {
        assert r[m] == s[from];
      } else {
        assert r[m] == rest[to..][m - to - 1] == rest[m - 1];
      }
    }
  }

  /** Cells `i` and `j` exchanged. */
  function Swap<T>(s: seq<T>, i: nat, j: nat): (r: seq<T>)
    requires i < |s| && j < |s|
    ensures |r| == |s|
    ensures r[i] == s[j] && r[j] == s[i]
    ensures forall m :: 0 <= m < |s| && m != i && m != j ==> r[m] == s[m]
  {
    s[i := s[j]][j := s[i]]
  }

  /** Every element with its index, offset by `base`, written into it. */
  function Renumbered<T>(s: seq<T>, base: int, setPos: (T, int) -> T): (r: seq<T>)
    ensures |r| == |s|
    ensures forall i :: 0 <= i < |s| ==> r[i] == setPos(s[i], base + i)
  {
    if s == [] then [] else [setPos(s[0], base)] + Renumbered(s[1..], base + 1, setPos)
  }

  // -----------------------------------------------------------------------
  // Properties.

  /** Moving an element to a neighbouring index is swapping the two. */
  lemma AdjacentMoveIsSwap<T>(s: seq<T>, i: nat)
    requires i + 1 < |s|
    ensures Moved(s, i, i + 1) == Swap(s, i, i + 1)
    ensures Moved(s, i + 1, i) == Swap(s, i, i + 1)
  {
    var a, b, c := Moved(s, i, i + 1), Moved(s, i + 1, i), Swap(s, i, i + 1);
    assert forall m :: 0 <= m < |s| ==> a[m] == c[m];
    assert forall m :: 0 <= m < |s| ==> b[m] == c[m];
  }

  /** The same, for a move in either direction. */
  lemma NeighbourMoveIsSwap<T>(s: seq<T>, i: nat, j: nat)
    requires i < |s| && j < |s| && (j == i + 1 || i == j + 1)
    ensures Moved(s, i, j) == Swap(s, i, j)
  {
    var a, c := Moved(s, i, j), Swap(s, i, j);
    assert forall m :: 0 <= m < |s| ==> a[m] == c[m];
  }

  /** A move keeps the elements: the result is a permutation. */
  lemma MovedPermutation<T>(s: seq<T>, from: nat, to: nat)
    requires from < |s| && to < |s|
    ensures multiset(Moved(s, from, to)) == multiset(s)
  {
    var x := s[from];
    var rest := s[..from] + s[from + 1..];
    RemovedMultiset(s, from);
    InsertedMultiset(rest, to, x);
  }

  lemma RemovedMultiset<T>(s: seq<T>, i: nat)
    requires i < |s|
    ensures multiset(s[..i] + s[i + 1..]) + multiset{s[i]} == multiset(s)
  {
    assert s == s[..i] + [s[i]] + s[i + 1..];
  }

  lemma InsertedMultiset<T>(s: seq<T>, i: nat, x: T)
    requires i <= |s|
    ensures multiset(s[..i] + [x] + s[i..]) == multiset(s) + multiset{x}
  {
    assert s == s[..i] + s[i..];
  }

  /** Moving an element back to where it came from restores the list. */
  lemma MoveBack<T>(s: seq<T>, from: nat, to: nat)
    requires from < |s| && to < |s|
    ensures Moved(Moved(s, from, to), to, from) == s
  {
    var r := Moved(Moved(s, from, to), to, from);
    assert forall m :: 0 <= m < |s| ==> r[m] == s[m];
  }

  /** A swap undoes itself. */
  lemma SwapTwice<T>(s: seq<T>, i: nat, j: nat)
    requires i < |s| && j < |s|
    ensures Swap(Swap(s, i, j), i, j) == s
  {
    var r := Swap(Swap(s, i, j), i, j);
    assert forall m :: 0 <= m < |s| ==> r[m] == s[m];
  }

  /** A swap keeps the elements. */
  lemma SwapPermutation<T>(s: seq<T>, i: nat, j: nat)
    requires i < |s| && j < |s|
    ensures multiset(Swap(s, i, j)) == multiset(s)
  {
    if i != j {
      var t := s[i := s[j]];
      assert multiset(t) == multiset(s) - multiset{s[i]} + multiset{s[j]};
      assert multiset(t[j := s[i]]) == multiset(t) - multiset{t[j]} + multiset{s[i]};
    }
  }

  /** `map(f)`. */
  function MapSeq<T, K>(s: seq<T>, f: T -> K): (r: seq<K>)
    ensures |r| == |s|
    ensures forall i :: 0 <= i < |s| ==> r[i] == f(s[i])
  {
    if s == [] then [] else [f(s[0])] + MapSeq(s[1..], f)
  }

  /** Writing a position leaves the key of an element alone. */
  ghost predicate KeepsKey<T(!new), K>(setPos: (T, int) -> T, key: T -> K) {
    forall a, p :: key(setPos(a, p)) == key(a)
  }

  /** Writing a position twice is writing the second one. */
  ghost predicate Overwrites<T(!new)>(setPos: (T, int) -> T) {
    forall a, p, q :: setPos(setPos(a, p), q) == setPos(a, q)
  }

  lemma OverwritesAt<T(!new)>(setPos: (T, int) -> T, a: T, p: int, q: int)
    requires Overwrites(setPos)
    ensures setPos(setPos(a, p), q) == setPos(a, q)
  {
  }

  lemma {:induction false} KeysOfMoved<T, K>(s: seq<T>, from: nat, to: nat, key: T -> K)
    requires from < |s| && to < |s|
    ensures MapSeq(Moved(s, from, to), key) == Moved(MapSeq(s, key), from, to)
  {
    var a, b := MapSeq(Moved(s, from, to), key), Moved(MapSeq(s, key), from, to);
    forall m | 0 <= m < |s| ensures a[m] == b[m] {
      var k := MovedFrom(from, to, m, |s|);
      assert Moved(s, from, to)[m] == s[k];
      assert b[m] == MapSeq(s, key)[k];
    }
  }

  lemma {:induction false} KeysOfRenumbered<T(!new), K>(s: seq<T>, base: int, setPos: (T, int) -> T, key: T -> K)
    requires KeepsKey(setPos, key)
    ensures MapSeq(Renumbered(s, base, setPos), key) == MapSeq(s, key)
  {
    var a, b := MapSeq(Renumbered(s, base, setPos), key), MapSeq(s, key);
    assert forall m :: 0 <= m < |s| ==> a[m] == key(setPos(s[m], base + m)) == b[m];
  }

  /** A move followed by renumbering keeps the keys of the list, as a
      multiset. */
  lemma RenumberedMoveKeys<T(!new), K>(s: seq<T>, from: nat, to: nat, base: int, setPos: (T, int) -> T, key: T -> K)
    requires from < |s| && to < |s|
    requires KeepsKey(setPos, key)
    ensures multiset(MapSeq(Renumbered(Moved(s, from, to), base, setPos), key)) == multiset(MapSeq(s, key))
  {
    KeysOfRenumbered(Moved(s, from, to), base, setPos, key);
    KeysOfMoved(s, from, to, key);
    MovedPermutation(MapSeq(s, key), from, to);
  }

  /** Moving back after a move, with renumbering after each, gives the
      original list renumbered. */
  lemma RenumberedMoveBack<T(!new)>(s: seq<T>, from: nat, to: nat, base: int, setPos: (T, int) -> T)
    requires from < |s| && to < |s|
    requires Overwrites(setPos)
    ensures Renumbered(Moved(Renumbered(Moved(s, from, to), base, setPos), to, from), base, setPos)
         == Renumbered(s, base, setPos)
  {
    RenumberAbsorbs(Moved(s, from, to), to, from, base, setPos);
    MoveBack(s, from, to);
  }

  /** Renumbering before a move makes no difference once the result is
      renumbered again. */
  lemma {:induction false} RenumberAbsorbs<T(!new)>(x: seq<T>, i: nat, j: nat, base: int, setPos: (T, int) -> T)
    requires i < |x| && j < |x|
    requires Overwrites(setPos)
    ensures Renumbered(Moved(Renumbered(x, base, setPos), i, j), base, setPos) == Renumbered(Moved(x, i, j), base, setPos)
  {
    var t := Renumbered(x, base, setPos);
    var u := Moved(t, i, j);
    var r := Renumbered(u, base, setPos);
    var v := Moved(x, i, j);
    var w := Renumbered(v, base, setPos);
    forall m | 0 <= m < |x| ensures r[m] == w[m] {
      var k := MovedFrom(i, j, m, |x|);
      calc {
        r[m];
        setPos(u[m], base + m);
        setPos(setPos(x[k], base + k), base + m);
        { OverwritesAt(setPos, x[k], base + k, base + m); }
        setPos(x[k], base + m);
        setPos(v[m], base + m);
        w[m];
      }
    }
  }

  // -----------------------------------------------------------------------
  // The in-place methods.

  /** The two `splice` calls on an array: the cells between the two indexes
      shift by one towards the old index, and the moved element lands at the
      new one. */
  method SpliceMove<T>(a: array<T>, from: nat, to: nat)
    requires from < a.Length && to < a.Length
    modifies a
    ensures a[..] == Moved(old(a[..]), from, to)
  {
    var x := a[from];
    if from < to {
      ShiftDown(a, from, to);
    } else if to < from {
      ShiftUp(a, to, from);
    }
    a[to] := x;
    assert forall m :: 0 <= m < a.Length ==> a[m] == old(a[..])[MovedFrom(from, to, m, a.Length)];
  }

  /** Cells `lo + 1 .. hi` each move one index down; the others stay. */
  method ShiftDown<T>(a: array<T>, lo: nat, hi: nat)
    requires lo < hi < a.Length
    modifies a
    ensures forall m :: 0 <= m < a.Length ==> a[m] == if lo <= m < hi then old(a[m + 1]) else old(a[m])
  {
    var k := lo;
    while k < hi
      invariant lo <= k <= hi
      invariant forall m :: 0 <= m < a.Length ==> a[m] == if lo <= m < k then old(a[m + 1]) else old(a[m])
    {
      a[k] := a[k + 1];
      k := k + 1;
    }
  }

  /** Cells `lo .. hi - 1` each move one index up; the others stay. */
  method ShiftUp<T>(a: array<T>, lo: nat, hi: nat)
    requires lo < hi < a.Length
    modifies a
    ensures forall m :: 0 <= m < a.Length ==> a[m] == if lo < m <= hi then old(a[m - 1]) else old(a[m])
  {
    var k := hi;
    while k > lo
      invariant lo <= k <= hi
      invariant forall m :: 0 <= m < a.Length ==> a[m] == if k < m <= hi then old(a[m - 1]) else old(a[m])
    {
      a[k] := a[k - 1];
      k := k - 1;
    }
  }

  /** `[a[i], a[j]] = [a[j], a[i]]`. */
  method SwapCells<T>(a: array<T>, i: nat, j: nat)
    requires i < a.Length && j < a.Length
    modifies a
    ensures a[..] == Swap(old(a[..]), i, j)
  {
    a[i], a[j] := a[j], a[i];
  }

  /** The renumbering `map((x, i) => ({ ...x, position: base + i }))`,
      done cell by cell. */
  method Renumber<T>(a: array<T>, base: int, setPos: (T, int) -> T)
    modifies a
    ensures a[..] == Renumbered(old(a[..]), base, setPos)
  {
    var i := 0;
    while i < a.Length
      invariant 0 <= i <= a.Length
      invariant forall m :: 0 <= m < i ==> a[m] == setPos(old(a[m]), base + m)
      invariant forall m :: i <= m < a.Length ==> a[m] == old(a[m])
    {
      a[i] := setPos(a[i], base + i);
      i := i + 1;
    }
  }

  /** A fresh array holding the elements of `s`: the `[...list]` copy. */
  method Copy<T>(s: seq<T>) returns (a: array<T>)
    ensures fresh(a) && a[..] == s
  {
    a := new T[|s|](i requires 0 <= i < |s| => s[i]);
  }
}
