/** Counting arguments over sets, sequences and multisets. */
module Counting {

  ghost function Product<A, B>(xs: set<A>, ys: set<B>): set<(A, B)> {
    set x, y | x in xs && y in ys :: (x, y)
  }

  lemma {:induction false} SliceSize<A, B>(x: A, ys: set<B>)
    ensures |Product({x}, ys)| == |ys|
  {
    if ys == {} {
      assert Product({x}, ys) == {};
    } else {
      var y :| y in ys;
      SliceSize(x, ys - {y});
      assert Product({x}, ys) == Product({x}, ys - {y}) + {(x, y)};
    }
  }

  lemma OneMore(n: nat, m: nat)
    ensures n * m + m == (n + 1) * m
  {
  }

  lemma {:induction false} ProductSize<A, B>(xs: set<A>, ys: set<B>)
    ensures |Product(xs, ys)| == |xs| * |ys|
  {
    if xs == {} {
      assert Product(xs, ys) == {};
    } else {
      var x :| x in xs;
      ProductSize(xs - {x}, ys);
      SliceSize(x, ys);
      var rest := Product(xs - {x}, ys);
      assert Product(xs, ys) == rest + Product({x}, ys);
      assert rest !! Product({x}, ys);
      calc {
        |Product(xs, ys)|;
        |rest| + |ys|;
        |xs - {x}| * |ys| + |ys|;
        { OneMore(|xs - {x}|, |ys|); }
        (|xs - {x}| + 1) * |ys|;
        { assert |xs - {x}| + 1 == |xs|; }
        |xs| * |ys|;
      }
    }
  }

  ghost function Elements<T>(s: seq<T>): set<T> {
    set i | 0 <= i < |s| :: s[i]
  }

  lemma {:induction false} ElementsSize<T>(s: seq<T>)
    ensures |Elements(s)| <= |s|
    ensures |Elements(s)| == |s| <==> multiset(s) == multiset(Elements(s))
  {
    if s == [] {
      assert Elements(s) == {};
    } else {
      var n := |s| - 1;
      var front, last := s[..n], s[n];
      assert s == front + [last];
      ElementsSize(front);
      assert Elements(s) == Elements(front) + {last};
      if last in Elements(front) {
        assert Elements(s) == Elements(front);
        assert last in front;
        assert multiset(s)[last] >= 2;
      } else {
        assert last !in front;
        assert multiset(Elements(s)) == multiset(Elements(front)) + multiset{last};
      }
    }
  }

  ghost predicate Distinct<T>(s: seq<T>) {
    forall i, j | 0 <= i < j < |s| :: s[i] != s[j]
  }

  lemma SubsetSize<T>(small: set<T>, large: set<T>)
    requires small <= large
    ensures |small| <= |large|
  {
    assert large == small + (large - small);
  }

  ghost function Image<A, B>(xs: set<A>, f: A -> B): set<B> {
    set x | x in xs :: f(x)
  }

  ghost predicate Injective<A, B>(xs: set<A>, f: A -> B) {
    forall a, b | a in xs && b in xs && a != b :: f(a) != f(b)
  }

  /** An image is as large as its source exactly when no two elements meet. */
  lemma {:induction false} ImageSize<A, B>(xs: set<A>, f: A -> B)
    ensures |Image(xs, f)| <= |xs|
    ensures |Image(xs, f)| == |xs| <==> Injective(xs, f)
  {
    if xs != {} {
      var x :| x in xs;
      var rest := xs - {x};
      ImageSize(rest, f);
      assert Image(xs, f) == Image(rest, f) + {f(x)};
      if f(x) in Image(rest, f) {
        assert Image(xs, f) == Image(rest, f);
      }
    }
  }

  /** The positions at which a property holds. */
  ghost function Indices<T>(s: seq<T>, p: T -> bool): set<int> {
    set i | 0 <= i < |s| && p(s[i])
  }

  /** One more element is one more position or none. */
  lemma IndicesSnoc<T>(s: seq<T>, p: T -> bool)
    requires s != []
    ensures var n := |s| - 1;
            |Indices(s, p)| == |Indices(s[..n], p)| + if p(s[n]) then 1 else 0
  {
    var n := |s| - 1;
    assert Indices(s, p) == Indices(s[..n], p) + if p(s[n]) then {n} else {};
  }
}
