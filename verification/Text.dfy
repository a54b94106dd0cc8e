/** String operations of the Rust standard library, as far as the evidence
    pipeline uses them. */
module Text {

  /** Unicode `White_Space`, the class removed by `str::trim`. */
  predicate IsWhitespace(c: char) {
    || '\t' <= c <= '\r' || c == ' ' || c == '\U{85}' || c == '\U{A0}' || c == '\U{1680}'
    || '\U{2000}' <= c <= '\U{200A}' || c == '\U{2028}' || c == '\U{2029}'
    || c == '\U{202F}' || c == '\U{205F}' || c == '\U{3000}'
  }

  function TrimStart(s: string): string {
    if s != [] && IsWhitespace(s[0]) then TrimStart(s[1..]) else s
  }

  function TrimEnd(s: string): string {
    if s != [] && IsWhitespace(s[|s| - 1]) then TrimEnd(s[..|s| - 1]) else s
  }

  function Trim(s: string): string {
    TrimEnd(TrimStart(s))
  }

  /** Trimming cuts off exactly the white space at both ends. */
  lemma TrimMeans(s: string) returns (i: nat, j: nat)
    ensures i <= j <= |s| && Trim(s) == s[i..j]
    ensures forall k | 0 <= k < i || j <= k < |s| :: IsWhitespace(s[k])
    ensures i < j ==> !IsWhitespace(s[i]) && !IsWhitespace(s[j - 1])
  {
    i := TrimStartMeans(s);
    var rest := TrimStart(s);
    var n := TrimEndMeans(rest);
    j := i + n;
    assert rest == s[i..] && Trim(s) == rest[..n];
    forall k | j <= k < |s| ensures IsWhitespace(s[k]) {
      assert s[k] == rest[k - i];
    }
    if i < j {
      assert s[i] == rest[0] && s[j - 1] == rest[n - 1];
    }
  }

  lemma {:induction false} TrimStartMeans(s: string) returns (i: nat)
    ensures i <= |s| && TrimStart(s) == s[i..]
    ensures forall k | 0 <= k < i :: IsWhitespace(s[k])
    ensures i < |s| ==> !IsWhitespace(s[i])
  {
    if s != [] && IsWhitespace(s[0]) {
      var n := TrimStartMeans(s[1..]);
      i := n + 1;
      forall k | 0 <= k < i ensures IsWhitespace(s[k]) {
        if k > 0 {
          assert s[k] == s[1..][k - 1];
        }
      }
    } else {
      i := 0;
    }
  }

  lemma {:induction false} TrimEndMeans(s: string) returns (j: nat)
    ensures j <= |s| && TrimEnd(s) == s[..j]
    ensures forall k | j <= k < |s| :: IsWhitespace(s[k])
    ensures j > 0 ==> !IsWhitespace(s[j - 1])
  {
    if s != [] && IsWhitespace(s[|s| - 1]) {
      j := TrimEndMeans(s[..|s| - 1]);
      forall k | j <= k < |s| ensures IsWhitespace(s[k]) {
        if k < |s| - 1 {
          assert s[k] == s[..|s| - 1][k];
        }
      }
    } else {
      j := |s|;
    }
  }

  function LowerChar(c: char): char {
    if 'A' <= c <= 'Z' then c - 'A' + 'a' else c
  }

  /** `str::to_ascii_lowercase`. */
  function Lower(s: string): (r: string)
    ensures |r| == |s|
  {
    seq(|s|, i requires 0 <= i < |s| => LowerChar(s[i]))
  }

  /** `str::contains` for a substring. */
  predicate Contains(s: string, t: string) {
    exists i | 0 <= i <= |s| :: t <= s[i..]
  }

  function Join(parts: seq<string>, separator: string): string {
    if parts == [] then ""
    else if |parts| == 1 then parts[0]
    else parts[0] + separator + Join(parts[1..], separator)
  }

  /** `str::split('/')`: always at least one part. */
  function SplitSlash(s: string): (parts: seq<string>)
    ensures |parts| >= 1
  {
    if s == "" then [""]
    else
      var rest := SplitSlash(s[1..]);
      if s[0] == '/' then [""] + rest
      else [[s[0]] + rest[0]] + rest[1..]
  }

  lemma {:induction false} SplitSlashPlain(s: string)
    requires '/' !in s
    ensures SplitSlash(s) == [s]
  {
    if s != "" {
      SplitSlashPlain(s[1..]);
      assert [s[0]] + s[1..] == s;
    }
  }

  lemma {:induction false} SplitSlashJoin(first: string, rest: string)
    requires '/' !in first
    ensures SplitSlash(first + "/" + rest) == [first] + SplitSlash(rest)
  {
    var s := first + "/" + rest;
    if first == "" {
      assert s[1..] == rest;
    } else {
      assert s[1..] == first[1..] + "/" + rest;
      SplitSlashJoin(first[1..], rest);
      assert [first[0]] + first[1..] == first;
    }
  }
}

/** Decimal rendering, as produced by `{}` and `{:0width}` for unsigned numbers. */
module Decimal {
  predicate IsDigit(c: char) {
    '0' <= c <= '9'
  }

  function Digit(d: nat): (c: char)
    requires d < 10
    ensures IsDigit(c) && c as int - '0' as int == d
  {
    '0' + d as char
  }

  function Render(n: nat): string {
    if n < 10 then [Digit(n)] else Render(n / 10) + [Digit(n % 10)]
  }

  predicate AllDigits(s: string) {
    forall i | 0 <= i < |s| :: IsDigit(s[i])
  }

  lemma {:induction false} RenderDigits(n: nat)
    ensures Render(n) != "" && AllDigits(Render(n))
  {
    if n >= 10 {
      RenderDigits(n / 10);
    }
  }

  function Padded(n: nat, width: nat): string {
    var digits := Render(n);
    if |digits| < width then seq(width - |digits|, _ => '0') + digits else digits
  }

  lemma PaddedDigits(n: nat, width: nat)
    ensures AllDigits(Padded(n, width))
  {
    RenderDigits(n);
  }

  /** The number a digit string denotes. */
  function Value(s: string): int {
    if s == "" then 0 else Value(s[..|s| - 1]) * 10 + (s[|s| - 1] as int - '0' as int)
  }

  lemma {:induction false} RenderDenotes(n: nat)
    ensures Value(Render(n)) == n
  {
    if n >= 10 {
      RenderDenotes(n / 10);
      var s := Render(n);
      assert s[..|s| - 1] == Render(n / 10);
    }
  }

  lemma {:induction false} ValueLeadingZeros(zeros: nat, s: string)
    ensures Value(seq(zeros, _ => '0') + s) == Value(s)
  {
    var padding: string := seq(zeros, _ => '0');
    var t := padding + s;
    if s != "" {
      assert t[..|t| - 1] == padding + s[..|s| - 1];
      ValueLeadingZeros(zeros, s[..|s| - 1]);
    } else if zeros > 0 {
      assert t[..|t| - 1] == seq(zeros - 1, _ => '0') + s;
      ValueLeadingZeros(zeros - 1, s);
    }
  }

  /** Zero padding never makes two numbers read the same. */
  lemma PaddedInjective(m: nat, n: nat, width: nat)
    requires Padded(m, width) == Padded(n, width)
    ensures m == n
  {
    PaddedDenotes(m, width);
    PaddedDenotes(n, width);
  }

  lemma PaddedDenotes(n: nat, width: nat)
    ensures Value(Padded(n, width)) == n
  {
    var digits := Render(n);
    RenderDenotes(n);
    if |digits| < width {
      ValueLeadingZeros(width - |digits|, digits);
    }
  }

  lemma RenderInjective(m: nat, n: nat)
    requires Render(m) == Render(n)
    ensures m == n
  {
    RenderDenotes(m);
    RenderDenotes(n);
  }
}
