/**
 The order of string keys, and the ordered iteration that the skip list gives:
 a set of keys is visited in strictly increasing lexicographic order.
 */
module Ordered {
  import opened Prelude

  /** Lexicographic order on characters, the `Ord` instance of Rust strings. */
  predicate LexLe(a: string, b: string) {
    a == [] || (b != [] && (a[0] < b[0] || (a[0] == b[0] && LexLe(a[1..], b[1..]))))
  }

  predicate LexLt(a: string, b: string) {
    a != b && LexLe(a, b)
  }

  lemma {:induction false} LexTotal(a: string, b: string)
    ensures LexLe(a, b) || LexLe(b, a)
  {
    if a != [] && b != [] && a[0] == b[0] {
      LexTotal(a[1..], b[1..]);
    }
  }

  lemma {:induction false} LexAntisymmetric(a: string, b: string)
    requires LexLe(a, b) && LexLe(b, a)
    ensures a == b
  {
    if a != [] && b != [] {
      LexAntisymmetric(a[1..], b[1..]);
      assert a == [a[0]] + a[1..] && b == [b[0]] + b[1..];
    }
  }

  lemma {:induction false} LexTransitive(a: string, b: string, c: string)
    requires LexLe(a, b) && LexLe(b, c)
    ensures LexLe(a, c)
  {
    if a != [] && a[0] == b[0] && b[0] == c[0] {
      LexTransitive(a[1..], b[1..], c[1..]);
    }
  }

  /** Every key that starts with `p` is at or after `p`. */
  lemma {:induction false} PrefixIsLower(p: string, k: string)
    requires p <= k
    ensures LexLe(p, k)
  {
    if p != [] {
      assert p[1..] <= k[1..];
      PrefixIsLower(p[1..], k[1..]);
    }
  }

  /** The keys with a given prefix form one contiguous block: whatever lies between
      the prefix and a key of the block is in the block. */
  lemma {:induction false} PrefixBlock(p: string, a: string, b: string)
    requires LexLe(p, a) && LexLe(a, b) && p <= b
    ensures p <= a
  {
    if p != [] {
      assert a[0] == p[0];
      assert p[1..] <= b[1..];
      PrefixBlock(p[1..], a[1..], b[1..]);
      assert p == [p[0]] + p[1..] && a == [a[0]] + a[1..];
    }
  }

  /** Strictly increasing. */
  ghost predicate Sorted(s: seq<string>) {
    forall i, j :: 0 <= i < j < |s| ==> LexLt(s[i], s[j])
  }

  predicate IsLeast(m: string, ks: set<string>) {
    m in ks && forall x <- ks :: LexLe(m, x)
  }

  lemma {:induction false} LeastExists(ks: set<string>)
    requires ks != {}
    ensures exists m :: IsLeast(m, ks)
  {
    var x :| x in ks;
    var rest := ks - {x};
    if rest == {} {
      LexTotal(x, x);
      assert ks == {x};
      assert IsLeast(x, ks);
    } else {
      LeastExists(rest);
      var m :| IsLeast(m, rest);
      LexTotal(x, m);
      LexTotal(x, x);
      if LexLe(m, x) {
        assert IsLeast(m, ks);
      } else {
        forall y <- ks ensures LexLe(x, y) {
          if y != x { LexTransitive(x, m, y); }
        }
        assert IsLeast(x, ks);
      }
    }
  }

  lemma LeastUnique(m: string, m': string, ks: set<string>)
    requires IsLeast(m, ks) && IsLeast(m', ks)
    ensures m == m'
  {
    LexAntisymmetric(m, m');
  }

  function Least(ks: set<string>): (m: string)
    requires ks != {}
    ensures IsLeast(m, ks)
  {
    LeastExists(ks);
    assert forall a, b :: IsLeast(a, ks) && IsLeast(b, ks) ==> a == b by {
      forall a, b | IsLeast(a, ks) && IsLeast(b, ks) ensures a == b { LeastUnique(a, b, ks); }
    }
    var m :| IsLeast(m, ks);
    m
  }

  /** The keys in the order in which a skip list visits them. */
  function InOrder(ks: set<string>): (s: seq<string>)
    ensures forall k :: k in s <==> k in ks
    ensures Sorted(s)
    ensures |s| == |ks|
    decreases |ks|
  {
    if ks == {} then []
    else
      var m := Least(ks);
      var rest := InOrder(ks - {m});
      [m] + rest
  }

  lemma SortedDistinct(s: seq<string>)
    requires Sorted(s)
    ensures Distinct(s)
  {
  }

  /** A strictly increasing sequence is determined by its elements, so `InOrder` is the
      only way of listing a set in order. */
  lemma {:induction false} SortedUnique(s: seq<string>, t: seq<string>)
    requires Sorted(s) && Sorted(t)
    requires forall k :: k in s <==> k in t
    ensures s == t
  {
    assert forall i :: 0 <= i < |s| ==> s[i] in t;
    assert forall i :: 0 <= i < |t| ==> t[i] in s;
    if s == [] || t == [] {
      assert |s| == 0 && |t| == 0;
    } else {
      SortedHead(s, t);
      assert s == [s[0]] + s[1..] && t == [t[0]] + t[1..];
      forall k ensures k in s[1..] <==> k in t[1..] {
        if k in s[1..] { assert k in s; }
        if k in t[1..] { assert k in t; }
      }
      SortedUnique(s[1..], t[1..]);
    }
  }

  lemma SortedHead(s: seq<string>, t: seq<string>)
    requires Sorted(s) && Sorted(t) && s != [] && t != []
    requires forall k :: k in s <==> k in t
    ensures s[0] == t[0]
  {
    assert s[0] in t && t[0] in s;
    var i :| 0 <= i < |t| && t[i] == s[0];
    var j :| 0 <= j < |s| && s[j] == t[0];
    if i != 0 && j != 0 {
      LexAntisymmetric(s[0], t[0]);
    }
  }
}
