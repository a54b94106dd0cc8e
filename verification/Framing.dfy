/** The length-prefixed framing of a materialized tree, whose digest pairs two
    arms on equal starting points (`materialized_tree_sha256`). */
module Framing {
  import opened Wrappers

  newtype byte = n: int | 0 <= n < 256

  datatype File = File(path: seq<byte>, content: seq<byte>)

  const LENGTH_LIMIT: nat := 0x1_0000_0000_0000_0000

  /** `u64::to_le_bytes`, generalised to any width. */
  function LittleEndian(n: nat, width: nat): (bytes: seq<byte>)
    ensures |bytes| == width
  {
    if width == 0 then [] else [(n % 256) as byte] + LittleEndian(n / 256, width - 1)
  }

  function FromLittleEndian(bytes: seq<byte>): nat {
    if bytes == [] then 0 else bytes[0] as nat + 256 * FromLittleEndian(bytes[1..])
  }

  function Power256(width: nat): nat {
    if width == 0 then 1 else 256 * Power256(width - 1)
  }

  lemma {:induction false} LittleEndianRoundTrip(n: nat, width: nat)
    requires n < Power256(width)
    ensures FromLittleEndian(LittleEndian(n, width)) == n
  {
    if width > 0 {
      LittleEndianRoundTrip(n / 256, width - 1);
    }
  }

  /** Byte `i` is the digit of weight 256 to the `i`: the least significant comes
      first. */
  lemma {:induction false} LittleEndianAt(n: nat, width: nat, i: nat)
    requires i < width
    ensures Power256(i) > 0 && LittleEndian(n, width)[i] as nat == n / Power256(i) % 256
  {
    if i > 0 {
      LittleEndianAt(n / 256, width - 1, i - 1);
      DivideTwice(n, 256, Power256(i - 1));
    }
  }

  lemma DivideTwice(n: nat, a: nat, b: nat)
    requires a > 0 && b > 0
    ensures a * b > 0 && n / a / b == n / (a * b)
  {
    var m := n / a;
    Regrouped(a, b, m / b, m % b);
    assert m == b * (m / b) + m % b;
    Grows(a, m % b + 1, b);
    Spread(a, m % b);
    QuotientIs(n, a * b, m / b, a * (m % b) + n % a);
  }

  lemma Regrouped(a: nat, b: nat, q: nat, r: nat)
    ensures a * (b * q + r) == (a * b) * q + a * r
  {
    assert a * (b * q) == (a * b) * q;
  }

  lemma Spread(a: nat, r: nat)
    ensures a * (r + 1) == a * r + a
  {
  }

  lemma QuotientIs(n: nat, d: nat, q: nat, r: nat)
    requires d > 0 && n == d * q + r && r < d
    ensures n / d == q
  {
    var p := n / d;
    assert n == d * p + n % d;
    if p < q {
      Grows(d, p + 1, q);
    } else if p > q {
      Grows(d, q + 1, p);
    }
  }

  lemma Grows(d: nat, x: nat, y: nat)
    requires x <= y
    ensures d * x <= d * y
  {
  }

  lemma EightBytesHoldLengths()
    ensures Power256(8) == LENGTH_LIMIT
  {
    assert Power256(4) == 0x1_0000_0000;
    assert Power256(8) == 256 * (256 * (256 * (256 * Power256(4))));
  }

  function Field(data: seq<byte>): seq<byte> {
    LittleEndian(|data|, 8) + data
  }

  /** The framed bytes of a file list. */
  function Frame(files: seq<File>): seq<byte> {
    if files == [] then []
    else Field(files[0].path) + (Field(files[0].content) + Frame(files[1..]))
  }

  /** The loop that appends to one buffer. */
  method FrameFiles(files: seq<File>) returns (framed: seq<byte>)
    ensures framed == Frame(files)
  {
    framed := [];
    for n := 0 to |files|
      invariant Frame(files) == framed + Frame(files[n..])
    {
      FrameStep(files, n);
      Regroup(framed, Field(files[n].path), Field(files[n].content), Frame(files[n + 1..]));
      framed := framed + Field(files[n].path);
      framed := framed + Field(files[n].content);
    }
  }

  lemma FrameStep(files: seq<File>, n: nat)
    requires n < |files|
    ensures Frame(files[n..]) == Field(files[n].path) + (Field(files[n].content) + Frame(files[n + 1..]))
  {
    assert files[n..][1..] == files[n + 1..];
  }

  lemma Regroup(a: seq<byte>, b: seq<byte>, c: seq<byte>, d: seq<byte>)
    ensures a + (b + (c + d)) == a + b + c + d
  {
  }

  // ----- reading the frame back -----------------------------------------------------------

  /** One length-prefixed field and what follows it. */
  function ReadField(bytes: seq<byte>): Option<(seq<byte>, seq<byte>)> {
    if |bytes| < 8 then None
    else
      var length := FromLittleEndian(bytes[..8]);
      if 8 + length > |bytes| then None else Some((bytes[8..8 + length], bytes[8 + length..]))
  }

  /** The file list a frame denotes, if it is a frame. */
  function Unframe(bytes: seq<byte>): Option<seq<File>>
    decreases |bytes|
  {
    if bytes == [] then Some([])
    else
      match ReadField(bytes)
      case None => None
      case Some((path, rest)) =>
        match ReadField(rest)
        case None => None
        case Some((content, more)) =>
          match Unframe(more)
          case None => None
          case Some(files) => Some([File(path, content)] + files)
  }

  predicate Storable(file: File) {
    |file.path| < LENGTH_LIMIT && |file.content| < LENGTH_LIMIT
  }

  lemma ReadBack(data: seq<byte>, rest: seq<byte>)
    requires |data| < LENGTH_LIMIT
    ensures ReadField(Field(data) + rest) == Some((data, rest))
  {
    var bytes := Field(data) + rest;
    assert bytes[..8] == LittleEndian(|data|, 8);
    EightBytesHoldLengths();
    LittleEndianRoundTrip(|data|, 8);
    assert bytes[8..8 + |data|] == data;
    assert bytes[8 + |data|..] == rest;
  }

  lemma UnframeStep(file: File, tail: seq<byte>, files: seq<File>)
    requires Storable(file) && Unframe(tail) == Some(files)
    ensures Unframe(Field(file.path) + (Field(file.content) + tail)) == Some([file] + files)
  {
    ReadBack(file.path, Field(file.content) + tail);
    ReadBack(file.content, tail);
  }

  /** Reading a frame back yields exactly the files that were framed. */
  lemma {:induction false} UnframeFrame(files: seq<File>)
    requires forall i | 0 <= i < |files| :: Storable(files[i])
    ensures Unframe(Frame(files)) == Some(files)
  {
    if files != [] {
      UnframeFrame(files[1..]);
      UnframeStep(files[0], Frame(files[1..]), files[1..]);
      assert [files[0]] + files[1..] == files;
    }
  }

  /** Two file lists with the same framed bytes are the same list: no split of
      paths and contents can imitate another. The list holds path texts as the
      program writes them, that is after the lossy reading of names and with `/`
      in place of `\`. */
  lemma FramingInjective(a: seq<File>, b: seq<File>)
    requires forall i | 0 <= i < |a| :: Storable(a[i])
    requires forall i | 0 <= i < |b| :: Storable(b[i])
    requires Frame(a) == Frame(b)
    ensures a == b
  {
    UnframeFrame(a);
    UnframeFrame(b);
  }
}
