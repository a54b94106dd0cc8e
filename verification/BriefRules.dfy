/** Names the repository brief omits or annotates, and how it displays paths. */
module BriefRules {
  import opened Text

  datatype Relevance = Ordinary | Instruction | Manifest

  predicate EndsWith(s: string, suffix: string) {
    |suffix| <= |s| && s[|s| - |suffix|..] == suffix
  }

  predicate IsHidden(name: string) {
    "." <= name
  }

  predicate IsRuntimeDirectory(name: string) {
    Lower(name) in {
      ".git", ".ferric", "target", "node_modules", "__pycache__", ".pytest_cache", ".ruff_cache",
      ".mypy_cache", ".tox", ".nox", ".venv", "venv", "dist", "coverage"
    }
  }

  predicate IsSensitiveDirectory(name: string) {
    Lower(name) in {"secrets", "credentials", "private-keys", "private_keys"}
  }

  function AfterLastDot(s: string): string
    requires '.' in s
  {
    if '.' in s[1..] then AfterLastDot(s[1..]) else s[1..]
  }

  /** What follows the last dot, unless that dot starts the name. */
  function Extension(name: string): string {
    if name != "" && '.' in name[1..] then AfterLastDot(name[1..]) else ""
  }

  predicate IsSensitiveFile(name: string) {
    var lower := Lower(name);
    || Extension(lower) in {"key", "pem", "p12", "pfx", "kdbx", "jks"}
    || lower in {
         "credentials", "credentials.json", "auth.json", "id_rsa", "id_ed25519", "known_hosts",
         "secrets.json", "secrets.toml", "secrets.yaml", "secrets.yml"
       }
    || "secret." <= lower
    || EndsWith(lower, "-credentials.json")
    || EndsWith(lower, "_credentials.json")
  }

  function ClassifyFile(name: string): Relevance {
    var lower := Lower(name);
    if lower in {"agents.md", "claude.md", "codex.md", "contributing.md", "readme"} || "readme." <= lower
    then Instruction
    else if
      || lower in {
           "cargo.toml", "cargo.lock", "package.json", "package-lock.json", "pnpm-lock.yaml", "yarn.lock",
           "pyproject.toml", "poetry.lock", "uv.lock", "go.mod", "go.sum", "go.work", "composer.json",
           "composer.lock", "pom.xml", "build.gradle", "build.gradle.kts", "settings.gradle",
           "settings.gradle.kts", "gradle.properties", "gemfile", "gemfile.lock", "mix.exs", "mix.lock",
           "deno.json", "deno.jsonc", "deno.lock", "rust-toolchain", "rust-toolchain.toml", "makefile",
           "justfile", "cmakelists.txt", "dockerfile"
         }
      || ("requirements" <= lower && EndsWith(lower, ".txt"))
      || ("docker-compose." <= lower && (EndsWith(lower, ".yaml") || EndsWith(lower, ".yml")))
    then Manifest
    else Ordinary
  }

  // ----- displayed paths ---------------------------------------------------------------------

  /** `char::is_control`: the general category Cc. */
  predicate IsControl(c: char) {
    c <= '\U{1F}' || '\U{7F}' <= c <= '\U{9F}'
  }

  function HexDigit(n: nat): (c: char)
    requires n < 16
    ensures !IsControl(c) && c != '\\' && c != '/' && c != '}'
  {
    if n < 10 then '0' + n as char else 'a' + (n - 10) as char
  }

  /** `char::escape_default`, for the characters the brief escapes. */
  function EscapeControl(c: char): string
    requires c == '\\' || IsControl(c)
  {
    if c == '\t' then "\\t"
    else if c == '\r' then "\\r"
    else if c == '\n' then "\\n"
    else if c == '\\' then "\\\\"
    else if c < '\U{10}' then "\\u{" + [HexDigit(c as nat)] + "}"
    else "\\u{" + [HexDigit(c as nat / 16), HexDigit(c as nat % 16)] + "}"
  }

  function EscapeChar(c: char): string {
    if c == '\\' || IsControl(c) then EscapeControl(c) else [c]
  }

  function EscapeComponent(component: string): string {
    if component == "" then "" else EscapeChar(component[0]) + EscapeComponent(component[1..])
  }

  function EscapeAll(components: seq<string>): (r: seq<string>)
    ensures |r| == |components|
  {
    seq(|components|, i requires 0 <= i < |components| => EscapeComponent(components[i]))
  }

  function DisplayPath(components: seq<string>): string {
    Join(EscapeAll(components), "/")
  }

  // ----- a displayed path is one line and names one path --------------------------------------

  predicate Printable(s: string) {
    forall i | 0 <= i < |s| :: !IsControl(s[i])
  }

  lemma EscapeCharPrintable(c: char)
    ensures Printable(EscapeChar(c)) && EscapeChar(c) != ""
    ensures c != '/' ==> '/' !in EscapeChar(c)
  {
  }

  lemma {:induction false} EscapePrintable(s: string)
    ensures Printable(EscapeComponent(s))
    ensures '/' !in s ==> '/' !in EscapeComponent(s)
  {
    if s != "" {
      EscapeCharPrintable(s[0]);
      EscapePrintable(s[1..]);
    }
  }

  lemma {:induction false} JoinPrintable(parts: seq<string>)
    requires forall i | 0 <= i < |parts| :: Printable(parts[i])
    ensures Printable(Join(parts, "/"))
  {
    if |parts| > 1 {
      JoinPrintable(parts[1..]);
    }
  }

  /** No path can break its line or smuggle in a control character. */
  lemma DisplayPrintable(components: seq<string>)
    ensures Printable(DisplayPath(components))
  {
    forall i | 0 <= i < |components| ensures Printable(EscapeAll(components)[i]) {
      EscapePrintable(components[i]);
    }
    JoinPrintable(EscapeAll(components));
  }

  lemma HexDigitInjective(m: nat, n: nat)
    requires m < 16 && n < 16 && HexDigit(m) == HexDigit(n)
    ensures m == n
  {
  }

  /** The escapes form a prefix code. */
  lemma EscapeCharDecodes(c: char, d: char, s: string, t: string)
    requires EscapeChar(c) + s == EscapeChar(d) + t
    ensures c == d && s == t
  {
    var left, right := EscapeChar(c) + s, EscapeChar(d) + t;
    assert left[0] == EscapeChar(c)[0] && right[0] == EscapeChar(d)[0];
    if c == '\\' || IsControl(c) {
      assert d == '\\' || IsControl(d);
      assert left[1] == EscapeChar(c)[1] && right[1] == EscapeChar(d)[1];
      if left[1] == 'u' {
        EscapedNumberDecodes(c, d, s, t);
      }
    }
    assert |EscapeChar(c)| == |EscapeChar(d)|;
    assert s == left[|EscapeChar(c)|..] && t == right[|EscapeChar(d)|..];
  }

  lemma EscapedNumberDecodes(c: char, d: char, s: string, t: string)
    requires IsControl(c) && c !in {'\t', '\r', '\n'} && IsControl(d) && d !in {'\t', '\r', '\n'}
    requires EscapeChar(c) + s == EscapeChar(d) + t
    ensures c == d
  {
    var left, right := EscapeChar(c) + s, EscapeChar(d) + t;
    assert left[3] == EscapeChar(c)[3] && right[3] == EscapeChar(d)[3];
    assert left[4] == EscapeChar(c)[4] && right[4] == EscapeChar(d)[4];
    if c < '\U{10}' {
      assert left[4] == '}';
      assert d < '\U{10}';
      HexDigitInjective(c as nat, d as nat);
    } else {
      assert d >= '\U{10}';
      HexDigitInjective(c as nat / 16, d as nat / 16);
      HexDigitInjective(c as nat % 16, d as nat % 16);
    }
  }

  lemma {:induction false} EscapeInjective(a: string, b: string)
    requires EscapeComponent(a) == EscapeComponent(b)
    ensures a == b
  {
    if a == "" || b == "" {
      if a != "" { EscapeCharPrintable(a[0]); }
      if b != "" { EscapeCharPrintable(b[0]); }
    } else {
      EscapeCharDecodes(a[0], b[0], EscapeComponent(a[1..]), EscapeComponent(b[1..]));
      EscapeInjective(a[1..], b[1..]);
      assert a == [a[0]] + a[1..] && b == [b[0]] + b[1..];
    }
  }

  lemma {:induction false} JoinSplits(parts: seq<string>)
    requires parts != [] && forall i | 0 <= i < |parts| :: '/' !in parts[i]
    ensures SplitSlash(Join(parts, "/")) == parts
  {
    if |parts| == 1 {
      SplitSlashPlain(parts[0]);
    } else {
      JoinSplits(parts[1..]);
      assert Join(parts, "/") == parts[0] + "/" + Join(parts[1..], "/");
      SplitSlashJoin(parts[0], Join(parts[1..], "/"));
      assert parts == [parts[0]] + parts[1..];
    }
  }

  predicate Names(components: seq<string>) {
    components != [] && forall i | 0 <= i < |components| :: '/' !in components[i]
  }

  lemma DisplaySplits(components: seq<string>)
    requires Names(components)
    ensures SplitSlash(DisplayPath(components)) == EscapeAll(components)
  {
    forall i | 0 <= i < |components| ensures '/' !in EscapeAll(components)[i] {
      EscapePrintable(components[i]);
    }
    JoinSplits(EscapeAll(components));
  }

  /** Two paths whose names are valid Unicode are never displayed alike. (A name
      that is not is first replaced by its lossy reading.) */
  lemma DisplayInjective(a: seq<string>, b: seq<string>)
    requires Names(a) && Names(b)
    requires DisplayPath(a) == DisplayPath(b)
    ensures a == b
  {
    DisplaySplits(a);
    DisplaySplits(b);
    assert EscapeAll(a) == EscapeAll(b);
    forall i | 0 <= i < |a| ensures a[i] == b[i] {
      assert EscapeAll(a)[i] == EscapeAll(b)[i];
      EscapeInjective(a[i], b[i]);
    }
  }

  // ----- what is shown as it is ----------------------------------------------------------------

  predicate Plainly(component: string) {
    forall i | 0 <= i < |component| :: component[i] != '\\' && !IsControl(component[i])
  }

  lemma {:induction false} EscapePlain(component: string)
    requires Plainly(component)
    ensures EscapeComponent(component) == component
  {
    if component != "" {
      EscapePlain(component[1..]);
      assert component == [component[0]] + component[1..];
    }
  }

  /** Names without backslashes and control characters are displayed verbatim. */
  lemma OrdinaryVerbatim(components: seq<string>)
    requires forall i | 0 <= i < |components| :: Plainly(components[i])
    ensures DisplayPath(components) == Join(components, "/")
  {
    forall i | 0 <= i < |components| ensures EscapeAll(components)[i] == components[i] {
      EscapePlain(components[i]);
    }
    assert EscapeAll(components) == components;
  }

  // ----- which names count as secrets -------------------------------------------------------------

  lemma {:induction false} AfterDot(s: string, ext: string)
    requires '.' !in ext && |s| > |ext| && s[|s| - |ext|..] == ext && s[|s| - |ext| - 1] == '.'
    ensures AfterLastDot(s) == ext
  {
    var k := |s| - |ext| - 1;
    if k == 0 {
      assert s[1..] == ext;
    } else {
      assert s[1..][k - 1] == '.' && s[1..][k..] == ext;
      AfterDot(s[1..], ext);
    }
  }

  /** A name that ends in `.ext`, with something before the dot, has that
      extension. */
  lemma ExtensionOf(name: string, ext: string)
    requires '.' !in ext && |name| > |ext| + 1 && EndsWith(name, "." + ext)
    ensures Extension(name) == ext
  {
    var k := |name| - |ext| - 1;
    assert name[k..] == "." + ext;
    assert name[k] == name[k..][0] == '.';
    assert name[k + 1..] == name[k..][1..] == ext;
    var tail := name[1..];
    assert tail[k - 1] == '.' && tail[k..] == ext;
    AfterDot(tail, ext);
  }

  lemma {:induction false} DotBefore(s: string)
    requires '.' in s
    ensures var ext := AfterLastDot(s); |s| > |ext| && EndsWith(s, "." + ext)
  {
    if '.' in s[1..] {
      DotBefore(s[1..]);
      var ext := AfterLastDot(s);
      assert s[|s| - |ext| - 1..] == s[1..][|s| - |ext| - 2..];
    } else {
      assert s == "." + s[1..];
    }
  }

  lemma ExtensionEnds(name: string)
    requires Extension(name) != ""
    ensures var ext := Extension(name); |name| > |ext| + 1 && EndsWith(name, "." + ext)
  {
    var tail, ext := name[1..], Extension(name);
    DotBefore(tail);
    assert name[|name| - |ext| - 1..] == tail[|tail| - |ext| - 1..];
  }

  /** Key material: the name ends in one of these extensions, with something
      before the dot. */
  ghost predicate EndsAsKey(lower: string) {
    exists ext | ext in {"key", "pem", "p12", "pfx", "kdbx", "jks"} ::
      |lower| > |ext| + 1 && EndsWith(lower, "." + ext)
  }

  lemma KeyExactly(lower: string)
    ensures EndsAsKey(lower) <==> Extension(lower) in {"key", "pem", "p12", "pfx", "kdbx", "jks"}
  {
    if EndsAsKey(lower) {
      var ext :| ext in {"key", "pem", "p12", "pfx", "kdbx", "jks"}
        && |lower| > |ext| + 1 && EndsWith(lower, "." + ext);
      assert '.' !in ext;
      ExtensionOf(lower, ext);
    }
    if Extension(lower) in {"key", "pem", "p12", "pfx", "kdbx", "jks"} {
      ExtensionEnds(lower);
    }
  }

  /** A secret by its name, whatever its case. */
  ghost predicate NamedSecret(name: string) {
    var lower := Lower(name);
    || EndsAsKey(lower)
    || lower in {
         "credentials", "credentials.json", "auth.json", "id_rsa", "id_ed25519", "known_hosts",
         "secrets.json", "secrets.toml", "secrets.yaml", "secrets.yml"
       }
    || "secret." <= lower
    || EndsWith(lower, "-credentials.json") || EndsWith(lower, "_credentials.json")
  }

  lemma SensitiveExactly(name: string)
    ensures IsSensitiveFile(name) <==> NamedSecret(name)
  {
    KeyExactly(Lower(name));
  }

  ghost predicate NamesInstruction(lower: string) {
    lower in {"agents.md", "claude.md", "codex.md", "contributing.md", "readme"} || "readme." <= lower
  }

  ghost predicate NamesManifest(lower: string) {
    || lower in {
         "cargo.toml", "cargo.lock", "package.json", "package-lock.json", "pnpm-lock.yaml", "yarn.lock",
         "pyproject.toml", "poetry.lock", "uv.lock", "go.mod", "go.sum", "go.work", "composer.json",
         "composer.lock", "pom.xml", "build.gradle", "build.gradle.kts", "settings.gradle",
         "settings.gradle.kts", "gradle.properties", "gemfile", "gemfile.lock", "mix.exs", "mix.lock",
         "deno.json", "deno.jsonc", "deno.lock", "rust-toolchain", "rust-toolchain.toml", "makefile",
         "justfile", "cmakelists.txt", "dockerfile"
       }
    || ("requirements" <= lower && EndsWith(lower, ".txt"))
    || ("docker-compose." <= lower && (EndsWith(lower, ".yaml") || EndsWith(lower, ".yml")))
  }

  /** No name is both, so the order of the two tests does not matter. */
  lemma KindsDisjoint(lower: string)
    requires NamesInstruction(lower)
    ensures !NamesManifest(lower)
  {
    if "readme" <= lower {
      ReadmeNoManifest(lower);
    } else {
      DocumentNoManifest(lower);
    }
  }

  lemma ReadmeNoManifest(lower: string)
    requires "readme" <= lower
    ensures !NamesManifest(lower)
  {
    assert lower[0] == 'r' && lower[1] == 'e' && lower[2] == 'a';
  }

  lemma DocumentNoManifest(lower: string)
    requires lower in {"agents.md", "claude.md", "codex.md", "contributing.md"}
    ensures !NamesManifest(lower)
  {
    assert EndsWith(lower, ".md");
    var n := |lower|;
    assert lower[n - 1] == 'd' && lower[n - 2] == 'm' && lower[n - 3] == '.';
  }

  lemma ClassifiedExactly(name: string)
    ensures ClassifyFile(name) == Instruction <==> NamesInstruction(Lower(name))
    ensures ClassifyFile(name) == Manifest <==> NamesManifest(Lower(name))
  {
    if NamesInstruction(Lower(name)) {
      KindsDisjoint(Lower(name));
    }
  }

  /** The escapes a reader of a brief meets. */
  lemma EscapesNamed()
    ensures EscapeChar('\t') == "\\t" && EscapeChar('\r') == "\\r" && EscapeChar('\n') == "\\n"
    ensures EscapeChar('\\') == "\\\\"
    ensures EscapeChar('\0') == "\\u{0}" && EscapeChar('\U{1B}') == "\\u{1b}" && EscapeChar('\U{9F}') == "\\u{9f}"
  {
  }
}
