/** Attempt identities and the two artifact names each of them owns
    (`AttemptIdentity::validate` and `AttemptIdentity::paths`). */
module AttemptNames {
  import opened Text
  import opened Decimal

  datatype Identity = Identity(runId: string, trialId: string, level: nat)

  predicate NameChar(c: char) {
    'a' <= c <= 'z' || 'A' <= c <= 'Z' || '0' <= c <= '9' || c == '-' || c == '_'
  }

  predicate ValidName(s: string) {
    s != "" && forall i | 0 <= i < |s| :: NameChar(s[i])
  }

  predicate Valid(identity: Identity) {
    ValidName(identity.runId) && ValidName(identity.trialId)
  }

  function Stem(identity: Identity): string {
    identity.trialId + "-l" + Render(identity.level)
  }

  function PathTo(identity: Identity, suffix: string): string {
    "traces" + "/" + (identity.runId + "/" + (Stem(identity) + suffix))
  }

  function TracePath(identity: Identity): string {
    PathTo(identity, ".jsonl")
  }

  function SidecarPath(identity: Identity): string {
    PathTo(identity, ".budget.json")
  }

  // ----- reading the identity back off a name ----------------------------------------------

  lemma ValidNameHasNoSlash(s: string)
    requires ValidName(s)
    ensures '/' !in s
  {
    assert forall i | 0 <= i < |s| :: NameChar(s[i]) && s[i] != '/';
  }

  lemma StemHasNoSlash(identity: Identity)
    requires Valid(identity)
    ensures '/' !in Stem(identity)
  {
    ValidNameHasNoSlash(identity.trialId);
    RenderDigits(identity.level);
    assert '/' !in Render(identity.level);
  }

  lemma PathSplits(identity: Identity, suffix: string)
    requires Valid(identity) && '/' !in suffix
    ensures SplitSlash(PathTo(identity, suffix)) == ["traces", identity.runId, Stem(identity) + suffix]
  {
    ValidNameHasNoSlash(identity.runId);
    StemHasNoSlash(identity);
    var file := Stem(identity) + suffix;
    SplitSlashPlain(file);
    SplitSlashJoin(identity.runId, file);
    SplitSlashJoin("traces", identity.runId + "/" + file);
  }

  /** The level starts after the last letter of the stem, whatever the trial id
      contains. */
  lemma DigitsAfterTrial(identity: Identity, k: nat)
    requires |identity.trialId| + 2 <= k < |Stem(identity)|
    ensures IsDigit(Stem(identity)[k])
  {
    RenderDigits(identity.level);
    assert Stem(identity)[k] == Render(identity.level)[k - |identity.trialId| - 2];
  }

  lemma StemNotLonger(a: Identity, b: Identity)
    requires Stem(a) == Stem(b)
    ensures |a.trialId| >= |b.trialId|
  {
    if |a.trialId| < |b.trialId| {
      DigitsAfterTrial(a, |b.trialId| + 1);
    }
  }

  lemma StemInjective(a: Identity, b: Identity)
    requires Stem(a) == Stem(b)
    ensures a.trialId == b.trialId && a.level == b.level
  {
    StemNotLonger(a, b);
    StemNotLonger(b, a);
    assert a.trialId == Stem(a)[..|a.trialId|] == b.trialId;
    assert Render(a.level) == Stem(a)[|a.trialId| + 2..] == Render(b.level);
    RenderInjective(a.level, b.level);
  }

  lemma PathInjective(a: Identity, b: Identity, suffix: string)
    requires Valid(a) && Valid(b) && '/' !in suffix
    requires PathTo(a, suffix) == PathTo(b, suffix)
    ensures a == b
  {
    PathSplits(a, suffix);
    PathSplits(b, suffix);
    var partsA := ["traces", a.runId, Stem(a) + suffix];
    var partsB := ["traces", b.runId, Stem(b) + suffix];
    assert partsA == partsB;
    assert partsA[1] == partsB[1] && partsA[2] == partsB[2];
    assert |Stem(a)| == |Stem(b)|;
    assert Stem(a) == (Stem(a) + suffix)[..|Stem(a)|] == Stem(b);
    StemInjective(a, b);
  }

  /** No name serves both as a trace and as a sidecar, even of two attempts. */
  lemma TraceIsNotSidecar(a: Identity, b: Identity)
    ensures TracePath(a) != SidecarPath(b)
  {
    var t, s := TracePath(a), SidecarPath(b);
    assert t[|t| - 1] == 'l' && s[|s| - 1] == 'n';
  }

  /** Distinct attempts never share a trace or a sidecar name. */
  lemma NamesIdentifyAttempts(a: Identity, b: Identity)
    requires Valid(a) && Valid(b)
    ensures TracePath(a) == TracePath(b) <==> a == b
    ensures SidecarPath(a) == SidecarPath(b) <==> a == b
    ensures {TracePath(a), SidecarPath(a)} !! {TracePath(b), SidecarPath(b)} <==> a != b
  {
    TraceIsNotSidecar(a, b);
    TraceIsNotSidecar(b, a);
    if TracePath(a) == TracePath(b) {
      PathInjective(a, b, ".jsonl");
    }
    if SidecarPath(a) == SidecarPath(b) {
      PathInjective(a, b, ".budget.json");
    }
    if a == b {
      assert TracePath(a) in {TracePath(a), SidecarPath(a)} * {TracePath(b), SidecarPath(b)};
    }
  }

  /** The artifacts of a valid attempt lie exactly two levels below the results
      directory: no component is empty, `.` or `..`. */
  lemma NamesStayInside(identity: Identity)
    requires Valid(identity)
    ensures SplitSlash(TracePath(identity)) ==
            ["traces", identity.runId, identity.trialId + "-l" + Render(identity.level) + ".jsonl"]
    ensures SplitSlash(SidecarPath(identity)) ==
            ["traces", identity.runId, identity.trialId + "-l" + Render(identity.level) + ".budget.json"]
    ensures identity.runId != "" && identity.runId != "." && identity.runId != ".."
    ensures |Stem(identity)| >= 4
  {
    PathSplits(identity, ".jsonl");
    PathSplits(identity, ".budget.json");
    assert NameChar(identity.runId[0]);
    RenderDigits(identity.level);
  }
}
