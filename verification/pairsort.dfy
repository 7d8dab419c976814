/**
 The ordering Rust's `Vec<(&str, &str)>::sort` uses — lexicographic on the
 key bytes, then on the value bytes — and a sort over it. Sorting is
 canonical: any two arrangements of the same pairs sort to the same list.
 */
module PairSort {

  import opened Bytes

  /** Lexicographic `<=` on byte strings, a proper prefix coming first (`str`'s `Ord`). */
  predicate LexLe(a: seq<byte>, b: seq<byte>)
    decreases |a|
  {
    a == [] || (b != [] && (a[0] < b[0] || (a[0] == b[0] && LexLe(a[1..], b[1..]))))
  }

  lemma {:induction false} LexLeTotal(a: seq<byte>, b: seq<byte>)
    ensures LexLe(a, b) || LexLe(b, a)
    decreases |a|
  {
    if a != [] && b != [] && a[0] == b[0] {
      LexLeTotal(a[1..], b[1..]);
    }
  }

  lemma {:induction false} LexLeAntisymmetric(a: seq<byte>, b: seq<byte>)
    requires LexLe(a, b) && LexLe(b, a)
    ensures a == b
    decreases |a|
  {
    if a != [] {
      LexLeAntisymmetric(a[1..], b[1..]);
      assert a == [a[0]] + a[1..];
      assert b == [b[0]] + b[1..];
    }
  }

  lemma {:induction false} LexLeTransitive(a: seq<byte>, b: seq<byte>, c: seq<byte>)
    requires LexLe(a, b) && LexLe(b, c)
    ensures LexLe(a, c)
    decreases |a|
  {
    if a != [] && a[0] == b[0] && b[0] == c[0] {
      LexLeTransitive(a[1..], b[1..], c[1..]);
    }
  }

  type Pair = (Text, Text)

  /** Tuple ordering: by key, and by value between equal keys. */
  predicate PairLe(p: Pair, q: Pair) {
    (p.0 != q.0 && LexLe(p.0, q.0)) || (p.0 == q.0 && LexLe(p.1, q.1))
  }

  lemma PairLeTotal(p: Pair, q: Pair)
    ensures PairLe(p, q) || PairLe(q, p)
  {
    LexLeTotal(p.0, q.0);
    LexLeTotal(p.1, q.1);
  }

  lemma PairLeAntisymmetric(p: Pair, q: Pair)
    requires PairLe(p, q) && PairLe(q, p)
    ensures p == q
  {
    if p.0 != q.0 {
      LexLeAntisymmetric(p.0, q.0);
    } else {
      LexLeAntisymmetric(p.1, q.1);
    }
  }

  lemma PairLeTransitive(p: Pair, q: Pair, r: Pair)
    requires PairLe(p, q) && PairLe(q, r)
    ensures PairLe(p, r)
  {
    if p.0 == q.0 && q.0 == r.0 {
      LexLeTransitive(p.1, q.1, r.1);
    } else if p.0 == q.0 || q.0 == r.0 {
    } else {
      LexLeTransitive(p.0, q.0, r.0);
      if p.0 == r.0 {
        LexLeAntisymmetric(p.0, q.0);
      }
    }
  }

  predicate Sorted(s: seq<Pair>) {
    forall i, j :: 0 <= i < j < |s| ==> PairLe(s[i], s[j])
  }

  /** An element no greater than any of a sorted list can go in front of it. */
  lemma SortedCons(x: Pair, s: seq<Pair>)
    requires Sorted(s)
    requires forall j :: 0 <= j < |s| ==> PairLe(x, s[j])
    ensures Sorted([x] + s)
  {
    var r := [x] + s;
    forall i, j | 0 <= i < j < |r| ensures PairLe(r[i], r[j]) {
      assert r[j] == s[j - 1];
      if i > 0 {
        assert r[i] == s[i - 1];
      }
    }
  }

  lemma InsertFront(x: Pair, s: seq<Pair>)
    requires Sorted(s) && s != [] && PairLe(x, s[0])
    ensures Sorted([x] + s)
  {
    forall j | 0 <= j < |s| ensures PairLe(x, s[j]) {
      if j > 0 {
        PairLeTransitive(x, s[0], s[j]);
      }
    }
    SortedCons(x, s);
  }

  lemma InsertBehind(x: Pair, s: seq<Pair>, tail: seq<Pair>)
    requires Sorted(s) && s != [] && PairLe(s[0], x)
    requires Sorted(tail) && multiset(tail) == multiset(s[1..]) + multiset{x}
    ensures Sorted([s[0]] + tail)
  {
    forall j | 0 <= j < |tail| ensures PairLe(s[0], tail[j]) {
      assert tail[j] in multiset(tail);
      if tail[j] != x {
        assert tail[j] in multiset(s[1..]);
        var k :| 0 <= k < |s[1..]| && s[1..][k] == tail[j];
        assert s[k + 1] == tail[j];
      }
    }
    SortedCons(s[0], tail);
  }

  /** Places `x` into the sorted list `s`. */
  function Insert(x: Pair, s: seq<Pair>): (r: seq<Pair>)
    requires Sorted(s)
    ensures Sorted(r)
    ensures multiset(r) == multiset(s) + multiset{x}
  {
    if s == [] then [x]
    else if PairLe(x, s[0]) then
      InsertFront(x, s);
      [x] + s
    else
      var tail := Insert(x, s[1..]);
      PairLeTotal(x, s[0]);
      assert s == [s[0]] + s[1..];
      InsertBehind(x, s, tail);
      [s[0]] + tail
  }

  /** Insertion sort under `PairLe`. */
  function Sort(s: seq<Pair>): (r: seq<Pair>)
    ensures Sorted(r)
    ensures multiset(r) == multiset(s)
  {
    if s == [] then []
    else
      assert s == [s[0]] + s[1..];
      Insert(s[0], Sort(s[1..]))
  }

  /** A sorted list is the least element of its multiset. */
  lemma SortedHeadIsLeast(s: seq<Pair>, x: Pair)
    requires Sorted(s) && x in multiset(s)
    ensures PairLe(s[0], x)
  {
    var k :| 0 <= k < |s| && s[k] == x;
    if k == 0 {
      LexLeTotal(x.1, x.1);
    }
  }

  /** Two sorted arrangements of the same pairs are the same list. */
  lemma {:induction false} SortedUnique(a: seq<Pair>, b: seq<Pair>)
    requires Sorted(a) && Sorted(b)
    requires multiset(a) == multiset(b)
    ensures a == b
    decreases |a|
  {
    if a != [] {
      assert a[0] in multiset(a);
      assert b != [];
      assert b[0] in multiset(b);
      SortedHeadIsLeast(a, b[0]);
      SortedHeadIsLeast(b, a[0]);
      PairLeAntisymmetric(a[0], b[0]);
      assert a == [a[0]] + a[1..];
      assert b == [b[0]] + b[1..];
      assert multiset(a) == multiset{a[0]} + multiset(a[1..]);
      assert multiset(b) == multiset{b[0]} + multiset(b[1..]);
      assert multiset(a[1..]) == multiset(a) - multiset{a[0]};
      assert multiset(b[1..]) == multiset(b) - multiset{b[0]};
      SortedUnique(a[1..], b[1..]);
    } else {
      assert |multiset(b)| == 0;
    }
  }

  /** Sorting forgets the order the pairs were given in. */
  lemma SortIgnoresOrder(a: seq<Pair>, b: seq<Pair>)
    requires multiset(a) == multiset(b)
    ensures Sort(a) == Sort(b)
  {
    SortedUnique(Sort(a), Sort(b));
  }
}
