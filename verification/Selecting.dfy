/** Order-preserving selection, told by positions. */
module Selecting {
  import opened Wrappers

  /** The values `f` finds in a sequence, in order. */
  function Select<T, U>(s: seq<T>, f: T -> Option<U>): (r: seq<U>)
    ensures |r| <= |s|
  {
    if s == [] then []
    else
      var last := f(s[|s| - 1]);
      Select(s[..|s| - 1], f) + if last.Some? then [last.value] else []
  }

  /** The positions at which `f` finds something. */
  ghost function Hits<T, U>(s: seq<T>, f: T -> Option<U>): set<int> {
    set i | 0 <= i < |s| && f(s[i]).Some?
  }

  /** What is found at a position sits behind all that is found before it. */
  lemma {:induction false} SelectAt<T, U>(s: seq<T>, f: T -> Option<U>, i: nat)
    requires i < |s| && f(s[i]).Some?
    ensures |Select(s[..i], f)| < |Select(s, f)|
    ensures Select(s, f)[|Select(s[..i], f)|] == f(s[i]).value
  {
    var n := |s| - 1;
    if i < n {
      SelectAt(s[..n], f, i);
      assert s[..n][..i] == s[..i];
    }
  }

  /** As much is selected as there are hits. */
  lemma {:induction false} SelectSize<T, U>(s: seq<T>, f: T -> Option<U>)
    ensures |Select(s, f)| == |Hits(s, f)|
  {
    if s == [] {
      assert Hits(s, f) == {};
    } else {
      var n := |s| - 1;
      SelectSize(s[..n], f);
      assert Hits(s, f) == Hits(s[..n], f) + if f(s[n]).Some? then {n} else {};
    }
  }

  /** Every hit in its place, and nothing else. */
  ghost predicate Selects<T(!new), U>(s: seq<T>, f: T -> Option<U>, r: seq<U>) {
    && |r| == |Hits(s, f)|
    && forall i | 0 <= i < |s| && f(s[i]).Some? ::
         |Hits(s[..i], f)| < |r| && r[|Hits(s[..i], f)|] == f(s[i]).value
  }

  lemma SelectSelects<T(!new), U>(s: seq<T>, f: T -> Option<U>)
    ensures Selects(s, f, Select(s, f))
  {
    SelectSize(s, f);
    forall i | 0 <= i < |s| && f(s[i]).Some?
      ensures |Hits(s[..i], f)| < |Select(s, f)| && Select(s, f)[|Hits(s[..i], f)|] == f(s[i]).value
    {
      SelectAt(s, f, i);
      SelectSize(s[..i], f);
    }
  }

  /** If only two positions are hits, they are what is selected. */
  lemma SelectTwo<T(!new), U>(s: seq<T>, f: T -> Option<U>, i: nat, j: nat)
    requires i < j < |s| && f(s[i]).Some? && f(s[j]).Some?
    requires forall k | 0 <= k < |s| && f(s[k]).Some? :: k == i || k == j
    ensures Select(s, f) == [f(s[i]).value, f(s[j]).value]
  {
    SelectSelects(s, f);
    assert Hits(s, f) == {i, j};
    assert Hits(s[..i], f) == {};
    assert Hits(s[..j], f) == {i};
  }

  /** What `f` yields for each element, one after the other. */
  function Gather<T, U>(s: seq<T>, f: T -> seq<U>): seq<U> {
    if s == [] then [] else Gather(s[..|s| - 1], f) + f(s[|s| - 1])
  }

  lemma {:induction false} GatherMembers<T, U>(s: seq<T>, f: T -> seq<U>, u: U)
    ensures u in Gather(s, f) <==> exists k | 0 <= k < |s| :: u in f(s[k])
  {
    if s != [] {
      var n := |s| - 1;
      GatherMembers(s[..n], f, u);
      if k :| 0 <= k < n && u in f(s[..n][k]) {
        assert u in f(s[k]);
      }
      if k :| 0 <= k < |s| && u in f(s[k]) {
        assert k < n ==> u in f(s[..n][k]);
      }
    }
  }

  /** The blocks 0, 1, ... one after the other. */
  function Blocks<T>(n: nat, block: nat -> seq<T>): seq<T> {
    if n == 0 then [] else Blocks(n - 1, block) + block(n - 1)
  }

  lemma OneBlockMore(m: nat, size: nat)
    ensures (m + 1) * size == m * size + size
  {
  }

  /** Blocks of one size: element `k` of block `i` stands at `i * size + k`. */
  lemma {:induction false} BlockAt<T>(n: nat, block: nat -> seq<T>, size: nat, i: nat, k: nat, index: nat)
    requires forall j: nat | j < n :: |block(j)| == size
    requires i < n && k < size && index == i * size + k
    ensures |Blocks(n, block)| == n * size && index < n * size
    ensures Blocks(n, block)[index] == block(i)[k]
  {
    BlocksLength(n - 1, block, size);
    OneBlockMore(n - 1, size);
    if i < n - 1 {
      BlockAt(n - 1, block, size, i, k, index);
    }
  }

  lemma {:induction false} BlocksLength<T>(n: nat, block: nat -> seq<T>, size: nat)
    requires forall j: nat | j < n :: |block(j)| == size
    ensures |Blocks(n, block)| == n * size
  {
    if n > 0 {
      BlocksLength(n - 1, block, size);
      OneBlockMore(n - 1, size);
    }
  }

  lemma {:induction false} SameBlocks<T>(n: nat, f: nat -> seq<T>, g: nat -> seq<T>)
    requires forall j: nat | j < n :: f(j) == g(j)
    ensures Blocks(n, f) == Blocks(n, g)
  {
    if n > 0 {
      SameBlocks(n - 1, f, g);
    }
  }

  ghost predicate All<T(!new)>(s: seq<T>, p: T -> bool) {
    forall k | 0 <= k < |s| :: p(s[k])
  }

  /** What holds of every element of every block holds throughout. */
  lemma {:induction false} AllBlocks<T(!new)>(n: nat, block: nat -> seq<T>, p: T -> bool)
    requires forall j: nat | j < n :: All(block(j), p)
    ensures All(Blocks(n, block), p)
  {
    if n > 0 {
      AllBlocks(n - 1, block, p);
      assert All(block(n - 1), p);
    }
  }
}
