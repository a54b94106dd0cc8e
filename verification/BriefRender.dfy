/** Rendering a repository brief within a byte limit (`render_bounded`) and the
    flags that say what was cut (`generate_repository_brief`). */
module BriefRender {
  import opened Wrappers
  import opened Decimal
  import opened BriefRules
  import opened BriefScan
  import opened BriefTraversal
  import opened BriefCounts

  datatype Limits = Limits(maxFiles: nat, maxBytes: nat)

  datatype Brief = Brief(
    text: string,
    filesIncluded: nat,
    filesRendered: nat,
    instructionFiles: nat,
    manifestFiles: nat,
    directoriesVisited: nat,
    hiddenOmitted: nat,
    runtimeOmitted: nat,
    sensitiveOmitted: nat,
    truncatedByFiles: bool,
    truncatedByBytes: bool)

  // ----- UTF-8 lengths ----------------------------------------------------------------------------

  function Width(c: char): nat {
    if c < '\U{80}' then 1 else if c < '\U{800}' then 2 else if c < '\U{10000}' then 3 else 4
  }

  /** `str::len`. Lengths of strings held in memory add up exactly: a saturated
      sum would need more text than there are addresses. */
  function Bytes(s: string): nat {
    if s == "" then 0 else Bytes(s[..|s| - 1]) + Width(s[|s| - 1])
  }

  lemma {:induction false} BytesConcat(a: string, b: string)
    ensures Bytes(a + b) == Bytes(a) + Bytes(b)
  {
    if b == "" {
      assert a + b == a;
    } else {
      var front := b[..|b| - 1];
      BytesConcat(a, front);
      assert (a + b)[..|a + b| - 1] == a + front;
    }
  }

  /** The characters that `truncate(floor_char_boundary(limit))` keeps. */
  function Floor(s: string, limit: nat): (n: nat)
    requires Bytes(s) > limit
    ensures n < |s| && Bytes(s[..n]) <= limit < Bytes(s[..n + 1])
  {
    var n := |s| - 1;
    assert s[..n + 1] == s;
    if Bytes(s[..n]) <= limit then n
    else
      var kept := Floor(s[..n], limit);
      assert s[..n][..kept] == s[..kept] && s[..n][..kept + 1] == s[..kept + 1];
      kept
  }

  // ----- header and lines ---------------------------------------------------------------------------

  function Truncation(files: bool, bytes: bool): string {
    match (files, bytes)
    case (false, false) => "none"
    case (true, false) => "file-limit"
    case (false, true) => "byte-limit"
    case (true, true) => "file-limit,byte-limit"
  }

  /** The header tells the two flags apart. */
  lemma TruncationTells(f: bool, b: bool, g: bool, c: bool)
    requires Truncation(f, b) == Truncation(g, c)
    ensures f == g && b == c
  {
    assert "file-limit"[0] != "byte-limit"[0];
    assert |"none"| == 4 && |"file-limit"| == 10 && |"byte-limit"| == 10 && |"file-limit,byte-limit"| == 21;
  }

  const PRIVACY := "privacy=relative-path-metadata-only; contents=excluded; symlinks=not-followed"

  function RenderHeader(limits: Limits, files: bool, bytes: bool): string {
    ("repository-brief/v1 truncation=" + Truncation(files, bytes) + "\n")
    + (("limits files=" + Render(limits.maxFiles) + " bytes=" + Render(limits.maxBytes) + "\n")
       + (PRIVACY + "\n" + "tree:" + "\n"))
  }

  function Annotation(relevance: Relevance, symlink: bool): string {
    match (relevance, symlink)
    case (Instruction, false) => " [instruction]"
    case (Manifest, false) => " [manifest]"
    case (Ordinary, false) => ""
    case (Instruction, true) => " [instruction,symlink]"
    case (Manifest, true) => " [manifest,symlink]"
    case (Ordinary, true) => " [symlink]"
  }

  function RenderEntry(entry: Entry): string {
    "- " + (entry.path + Annotation(entry.relevance, entry.symlink)) + "\n"
  }

  /** An annotation tells relevance and symlink apart. */
  lemma AnnotationTells(r: Relevance, s: bool, q: Relevance, t: bool)
    requires Annotation(r, s) == Annotation(q, t)
    ensures r == q && s == t
  {
    AnnotationLength(r, s);
    AnnotationLength(q, t);
  }

  lemma AnnotationLength(r: Relevance, s: bool)
    ensures |Annotation(r, s)|
            == (match r case Ordinary => 0 case Instruction => 14 case Manifest => 11)
               + (if s then if r == Ordinary then 10 else 8 else 0)
  {
  }

  function RenderAll(entries: seq<Entry>): (lines: seq<string>)
    ensures |lines| == |entries|
  {
    seq(|entries|, i requires 0 <= i < |entries| => RenderEntry(entries[i]))
  }

  function Concat(lines: seq<string>): string {
    if lines == [] then "" else Concat(lines[..|lines| - 1]) + lines[|lines| - 1]
  }

  lemma ConcatExtend(lines: seq<string>, n: nat)
    requires n < |lines|
    ensures Concat(lines[..n + 1]) == Concat(lines[..n]) + lines[n]
    ensures Bytes(Concat(lines[..n + 1])) == Bytes(Concat(lines[..n])) + Bytes(lines[n])
  {
    assert lines[..n + 1][..n] == lines[..n];
    BytesConcat(Concat(lines[..n]), lines[n]);
  }

  lemma {:induction false} ConcatGrows(lines: seq<string>, m: nat, n: nat)
    requires m <= n <= |lines|
    ensures Bytes(Concat(lines[..m])) <= Bytes(Concat(lines[..n]))
    decreases n
  {
    if m < n {
      ConcatGrows(lines, m, n - 1);
      ConcatExtend(lines, n - 1);
    }
  }

  /** A line tells the entry: with the path known, what follows it tells relevance
      and symlink; with those known, the line tells the path. */
  lemma EntryTells(e: Entry, f: Entry)
    requires RenderEntry(e) == RenderEntry(f)
    requires e.path == f.path || (e.relevance == f.relevance && e.symlink == f.symlink)
    ensures e == f
  {
    var x, y := Annotation(e.relevance, e.symlink), Annotation(f.relevance, f.symlink);
    assert RenderEntry(e)[2..|RenderEntry(e)| - 1] == e.path + x;
    assert RenderEntry(f)[2..|RenderEntry(f)| - 1] == f.path + y;
    if e.relevance == f.relevance && e.symlink == f.symlink {
      assert |e.path| == |f.path|;
      assert e.path == (e.path + x)[..|e.path|] && f.path == (f.path + y)[..|f.path|];
    } else {
      assert x == (e.path + x)[|e.path|..] && y == (f.path + y)[|f.path|..];
      AnnotationTells(e.relevance, e.symlink, f.relevance, f.symlink);
    }
  }

  lemma {:induction false} SplitAt(c: char, a: string, x: string, b: string, y: string)
    requires c !in a && c !in b && a + ([c] + x) == b + ([c] + y)
    ensures a == b && x == y
  {
    var s, t := a + ([c] + x), b + ([c] + y);
    if a == "" || b == "" {
      assert s[0] == t[0];
      assert a == "" && b == "";
      assert s[1..] == x && t[1..] == y;
    } else {
      assert s[0] == a[0] && t[0] == b[0];
      assert s[1..] == a[1..] + ([c] + x) && t[1..] == b[1..] + ([c] + y);
      SplitAt(c, a[1..], x, b[1..], y);
      assert a == [a[0]] + a[1..] && b == [b[0]] + b[1..];
    }
  }

  /** The header, grouped from the left. */
  function HeaderOf(title: string, flags: string, files: string, bytes: string, tail: string): string {
    title + (flags + (['\n'] + ("limits files=" + (files + ([' '] + ("bytes=" + (bytes + (['\n'] + tail))))))))
  }

  lemma HeaderInjective(title: string, tail: string, f: string, m: string, n: string,
                        f': string, m': string, n': string)
    requires '\n' !in f && '\n' !in f' && ' ' !in m && ' ' !in m' && '\n' !in n && '\n' !in n'
    requires HeaderOf(title, f, m, n, tail) == HeaderOf(title, f', m', n', tail)
    ensures f == f' && m == m' && n == n'
  {
    var z, z' := n + (['\n'] + tail), n' + (['\n'] + tail);
    var y, y' := m + ([' '] + ("bytes=" + z)), m' + ([' '] + ("bytes=" + z'));
    var x, x' := f + (['\n'] + ("limits files=" + y)), f' + (['\n'] + ("limits files=" + y'));
    StripPrefix(title, x, x');
    SplitAt('\n', f, "limits files=" + y, f', "limits files=" + y');
    StripPrefix("limits files=", y, y');
    SplitAt(' ', m, "bytes=" + z, m', "bytes=" + z');
    StripPrefix("bytes=", z, z');
    SplitAt('\n', n, tail, n', tail);
  }

  lemma StripPrefix(prefix: string, x: string, y: string)
    requires prefix + x == prefix + y
    ensures x == y
  {
    assert x == (prefix + x)[|prefix|..] && y == (prefix + y)[|prefix|..];
  }

  lemma HeaderRegrouped(title: string, flags: string, files: string, bytes: string, tail: string)
    ensures (title + flags + "\n") + (("limits files=" + files + " bytes=" + bytes + "\n") + tail)
            == HeaderOf(title, flags, files, bytes, tail)
  {
    assert " bytes=" == [' '] + "bytes=";
  }

  lemma DigitsPlain(n: nat)
    ensures '\n' !in Render(n) && ' ' !in Render(n)
  {
    RenderDigits(n);
    assert forall i | 0 <= i < |Render(n)| :: IsDigit(Render(n)[i]);
  }

  /** The header tells both limits and both flags. */
  lemma HeaderTells(l: Limits, f: bool, b: bool, m: Limits, g: bool, c: bool)
    requires RenderHeader(l, f, b) == RenderHeader(m, g, c)
    ensures l == m && f == g && b == c
  {
    var title, tail := "repository-brief/v1 truncation=", PRIVACY + "\n" + "tree:" + "\n";
    HeaderRegrouped(title, Truncation(f, b), Render(l.maxFiles), Render(l.maxBytes), tail);
    HeaderRegrouped(title, Truncation(g, c), Render(m.maxFiles), Render(m.maxBytes), tail);
    DigitsPlain(l.maxFiles);
    DigitsPlain(l.maxBytes);
    DigitsPlain(m.maxFiles);
    DigitsPlain(m.maxBytes);
    TruncationPlain(f, b);
    TruncationPlain(g, c);
    HeaderInjective(title, tail, Truncation(f, b), Render(l.maxFiles), Render(l.maxBytes),
                    Truncation(g, c), Render(m.maxFiles), Render(m.maxBytes));
    RenderInjective(l.maxFiles, m.maxFiles);
    RenderInjective(l.maxBytes, m.maxBytes);
    TruncationTells(f, b, g, c);
  }

  lemma TruncationPlain(f: bool, b: bool)
    ensures '\n' !in Truncation(f, b)
  {
  }

  // ----- bounded rendering -----------------------------------------------------------------------------

  /** `text` is `header` with the longest run of whole lines that fits, or, when
      even the header is too long, its longest prefix that fits. */
  ghost predicate LongestFit(header: string, lines: seq<string>, maxBytes: nat, text: string, rendered: nat) {
    if Bytes(header) > maxBytes then
      && rendered == 0
      && |text| < |header| && text == header[..|text|]
      && Bytes(text) <= maxBytes < Bytes(header[..|text| + 1])
    else
      && rendered <= |lines|
      && text == header + Concat(lines[..rendered])
      && forall k | rendered < k <= |lines| :: Bytes(header + Concat(lines[..k])) > maxBytes
  }

  /** `lines` are the rendered entries. */
  method RenderBounded(header: string, lines: seq<string>, maxBytes: nat) returns (text: string, rendered: nat)
    ensures Bytes(text) <= maxBytes
    ensures LongestFit(header, lines, maxBytes, text, rendered)
  {
    text, rendered := header, 0;
    if Bytes(text) > maxBytes {
      var kept := Floor(text, maxBytes);
      text := text[..kept];
      return;
    }
    assert Concat(lines[..0]) == "" && header + "" == header;
    while rendered < |lines|
      invariant rendered <= |lines|
      invariant text == header + Concat(lines[..rendered])
      invariant Bytes(text) == Bytes(header) + Bytes(Concat(lines[..rendered]))
      invariant Bytes(text) <= maxBytes
    {
      var line := lines[rendered];
      ConcatExtend(lines, rendered);
      BytesConcat(text, line);
      if Bytes(text) + Bytes(line) > maxBytes {
        NothingLongerFits(header, lines, rendered, maxBytes);
        return;
      }
      assert text + line == header + (Concat(lines[..rendered]) + line);
      text := text + line;
      rendered := rendered + 1;
    }
  }

  lemma NothingLongerFits(header: string, lines: seq<string>, rendered: nat, maxBytes: nat)
    requires rendered < |lines|
    requires Bytes(header) + Bytes(Concat(lines[..rendered + 1])) > maxBytes
    ensures forall k | rendered < k <= |lines| :: Bytes(header + Concat(lines[..k])) > maxBytes
  {
    forall k | rendered < k <= |lines| ensures Bytes(header + Concat(lines[..k])) > maxBytes {
      BytesConcat(header, Concat(lines[..k]));
      ConcatGrows(lines, rendered + 1, k);
    }
  }

  // ----- the byte flag ------------------------------------------------------------------------------------

  lemma FlagLengthensHeader(limits: Limits, files: bool)
    ensures Bytes(RenderHeader(limits, files, true)) > Bytes(RenderHeader(limits, files, false))
  {
    var rest := ("limits files=" + Render(limits.maxFiles) + " bytes=" + Render(limits.maxBytes) + "\n")
                + (PRIVACY + "\n" + "tree:" + "\n");
    var title := "repository-brief/v1 truncation=";
    forall bytes: bool
      ensures Bytes(RenderHeader(limits, files, bytes))
              == Bytes(title) + Bytes(Truncation(files, bytes)) + Bytes("\n") + Bytes(rest)
    {
      BytesConcat(title, Truncation(files, bytes));
      BytesConcat(title + Truncation(files, bytes), "\n");
      BytesConcat(title + Truncation(files, bytes) + "\n", rest);
    }
    TruncationLengths();
  }

  lemma {:induction false} AsciiBytes(s: string)
    requires forall i | 0 <= i < |s| :: s[i] < '\U{80}'
    ensures Bytes(s) == |s|
  {
    if s != "" {
      AsciiBytes(s[..|s| - 1]);
    }
  }

  lemma TruncationLengths()
    ensures forall files: bool :: Bytes(Truncation(files, true)) > Bytes(Truncation(files, false))
  {
    AsciiBytes("none");
    AsciiBytes("file-limit");
    AsciiBytes("byte-limit");
    AsciiBytes("file-limit,byte-limit");
  }

  /** The fold that decides the byte flag. */
  method CompleteLength(header: string, lines: seq<string>) returns (length: nat)
    ensures length == Bytes(header + Concat(lines))
  {
    length := Bytes(header);
    for n := 0 to |lines|
      invariant length == Bytes(header) + Bytes(Concat(lines[..n]))
    {
      ConcatExtend(lines, n);
      length := length + Bytes(lines[n]);
    }
    assert lines[..|lines|] == lines;
    BytesConcat(header, Concat(lines));
  }

  /** `short` is the header without the byte flag and `final` the one used:
      everything fits under the former exactly when all is rendered under the
      latter, although the flag itself takes room. */
  lemma FlagExact(short: string, final: string, lines: seq<string>, maxBytes: nat, text: string, rendered: nat)
    requires Bytes(short + Concat(lines)) > maxBytes ==> Bytes(final) > Bytes(short)
    requires Bytes(short + Concat(lines)) <= maxBytes ==> final == short
    requires LongestFit(final, lines, maxBytes, text, rendered) && Bytes(text) <= maxBytes
    ensures Bytes(short + Concat(lines)) <= maxBytes <==> Bytes(final) <= maxBytes && rendered == |lines|
    ensures Bytes(short + Concat(lines)) <= maxBytes <==> text == short + Concat(lines)
  {
    assert lines[..|lines|] == lines;
    BytesConcat(short, Concat(lines));
    BytesConcat(final, Concat(lines));
  }

  // ----- one line per file ---------------------------------------------------------------------------------

  function Newlines(s: string): nat {
    if s == "" then 0 else Newlines(s[..|s| - 1]) + (if s[|s| - 1] == '\n' then 1 else 0)
  }

  lemma {:induction false} NewlinesConcat(a: string, b: string)
    ensures Newlines(a + b) == Newlines(a) + Newlines(b)
  {
    if b == "" {
      assert a + b == a;
    } else {
      NewlinesConcat(a, b[..|b| - 1]);
      assert (a + b)[..|a + b| - 1] == a + b[..|b| - 1];
    }
  }

  lemma {:induction false} PrintableHasNone(s: string)
    requires '\n' !in s
    ensures Newlines(s) == 0
  {
    if s != "" {
      PrintableHasNone(s[..|s| - 1]);
    }
  }

  lemma OneLine(s: string)
    requires '\n' !in s
    ensures Newlines(s + "\n") == 1
  {
    PrintableHasNone(s);
    assert (s + "\n")[..|s|] == s;
  }

  predicate SingleLines(lines: seq<string>) {
    forall i | 0 <= i < |lines| :: Newlines(lines[i]) == 1
  }

  lemma {:induction false} LinesAreCounted(lines: seq<string>)
    requires SingleLines(lines)
    ensures Newlines(Concat(lines)) == |lines|
  {
    if lines != [] {
      var front := lines[..|lines| - 1];
      assert forall i | 0 <= i < |front| :: front[i] == lines[i];
      LinesAreCounted(front);
      NewlinesConcat(Concat(front), lines[|lines| - 1]);
    }
  }

  predicate AllPrintable(entries: seq<Entry>) {
    forall i | 0 <= i < |entries| :: Printable(entries[i].path)
  }

  lemma AnnotationPlain(relevance: Relevance, symlink: bool)
    ensures '\n' !in Annotation(relevance, symlink)
  {
  }

  lemma EntryIsOneLine(entry: Entry)
    requires Printable(entry.path)
    ensures Newlines(RenderEntry(entry)) == 1
  {
    assert '\n' !in entry.path;
    AnnotationPlain(entry.relevance, entry.symlink);
    OneLine("- " + (entry.path + Annotation(entry.relevance, entry.symlink)));
  }

  lemma EntriesAreSingleLines(entries: seq<Entry>)
    requires AllPrintable(entries)
    ensures SingleLines(RenderAll(entries))
  {
    forall i | 0 <= i < |entries| ensures Newlines(RenderAll(entries)[i]) == 1 {
      EntryIsOneLine(entries[i]);
    }
  }

  lemma DisplayedArePrintable(files: seq<Place>)
    requires AllFiles(files)
    ensures AllPrintable(DisplayAll([], files))
  {
    forall i | 0 <= i < |files| ensures Printable(DisplayAll([], files)[i].path) {
      DisplayPrintable([] + files[i].path);
    }
  }

  // ----- the brief ---------------------------------------------------------------------------------------------

  function CountRelevance(entries: seq<Entry>, relevance: Relevance): nat {
    |set i | 0 <= i < |entries| && entries[i].relevance == relevance|
  }

  /** What a rendering within `maxBytes` says about its lines; `short` is the
      header without the byte flag, `long` the one with it. */
  ghost predicate Faithful(
    short: string, long: string, lines: seq<string>, maxBytes: nat, text: string, rendered: nat, cut: bool)
  {
    var header := if cut then long else short;
    && Bytes(text) <= maxBytes
    && LongestFit(header, lines, maxBytes, text, rendered)
    && (!cut <==> Bytes(header) <= maxBytes && rendered == |lines|)
    && (!cut <==> text == short + Concat(lines))
    && (Bytes(header) <= maxBytes ==> Newlines(text) == Newlines(header) + rendered)
  }

  method Compose(short: string, long: string, lines: seq<string>, maxBytes: nat)
    returns (text: string, rendered: nat, cut: bool)
    requires Bytes(long) > Bytes(short) && SingleLines(lines)
    ensures Faithful(short, long, lines, maxBytes, text, rendered, cut)
  {
    var length := CompleteLength(short, lines);
    cut := length > maxBytes;
    var header := if cut then long else short;
    text, rendered := RenderBounded(header, lines, maxBytes);
    FlagExact(short, header, lines, maxBytes, text, rendered);
    if Bytes(header) <= maxBytes {
      LinesAreCounted(lines[..rendered]);
      NewlinesConcat(header, Concat(lines[..rendered]));
    }
  }

  /** What a brief says about the entries it was made from. */
  ghost predicate Describes(brief: Brief, limits: Limits, entries: seq<Entry>) {
    && Faithful(RenderHeader(limits, brief.truncatedByFiles, false), RenderHeader(limits, brief.truncatedByFiles, true),
                RenderAll(entries), limits.maxBytes, brief.text, brief.filesRendered, brief.truncatedByBytes)
    && brief.filesIncluded == |entries|
    && brief.instructionFiles == CountRelevance(entries, Instruction)
    && brief.manifestFiles == CountRelevance(entries, Manifest)
  }

  method RenderBrief(p: Progress, limits: Limits) returns (brief: Brief)
    requires AllPrintable(p.entries)
    ensures Describes(brief, limits, p.entries)
    ensures brief.truncatedByFiles == p.limitReached
    ensures brief.directoriesVisited == p.directories && brief.hiddenOmitted == p.hidden
    ensures brief.runtimeOmitted == p.runtime && brief.sensitiveOmitted == p.sensitive
  {
    FlagLengthensHeader(limits, p.limitReached);
    EntriesAreSingleLines(p.entries);
    var text, rendered, cut := Compose(
      RenderHeader(limits, p.limitReached, false), RenderHeader(limits, p.limitReached, true),
      RenderAll(p.entries), limits.maxBytes);
    brief := Brief(text, |p.entries|, rendered, CountRelevance(p.entries, Instruction),
                   CountRelevance(p.entries, Manifest), p.directories, p.hidden, p.runtime, p.sensitive,
                   p.limitReached, cut);
  }

  /** The counters of a brief that was not cut by the file limit. */
  ghost predicate CountsEntries(brief: Brief, root: Node) {
    && brief.directoriesVisited == Ceiling(1 + Tally(Entered, root))
    && brief.runtimeOmitted == Ceiling(Tally(Generated, root))
    && brief.hiddenOmitted == Ceiling(Tally(Hidden, root))
    && brief.sensitiveOmitted == Ceiling(Tally(Secret, root))
  }

  /** With room for every file, a scan that does not fail reads everything. */
  lemma UnlimitedScanFinishes(root: Node, maxFiles: nat)
    requires !FailsWithin(Places(root), maxFiles) && |Traversal(root)| <= maxFiles
    ensures Consume(|Traversal(root)|, NOTHING_YET, Visits(root, [])).1 == Going
  {
    ScanMeetsTree(root, maxFiles);
    var visits := Visits(root, []);
    LimitIrrelevant(maxFiles, |Traversal(root)|, NOTHING_YET, visits);
    ConsumeKeepsFirst(maxFiles, NOTHING_YET, visits);
  }

  /** A brief is within its byte limit, holds the header and the longest run of
      whole lines that fits, and both flags say exactly what was cut. */
  method GenerateRepositoryBrief(root: Node, limits: Limits) returns (result: Option<Brief>)
    ensures AllFiles(Traversal(root))
    ensures result.None? <==> FailsWithin(Places(root), limits.maxFiles)
    ensures WellFormed(root) ==> (result.None? <==> ObstacleWithin(root, limits.maxFiles))
    ensures result.Some? ==>
      && Describes(result.value, limits, First(DisplayAll([], Traversal(root)), limits.maxFiles))
      && (result.value.truncatedByFiles <==> |Traversal(root)| > limits.maxFiles)
      && (!result.value.truncatedByFiles ==> CountsEntries(result.value, root))
  {
    var scanned := ScanWorkspace(root, limits.maxFiles);
    if scanned.None? {
      return None;
    }
    DisplayedArePrintable(Traversal(root));
    if !scanned.value.limitReached {
      UnlimitedScanFinishes(root, limits.maxFiles);
      FinishedScanCounts(root, |Traversal(root)|);
    }
    var brief := RenderBrief(scanned.value, limits);
    return Some(brief);
  }
}
