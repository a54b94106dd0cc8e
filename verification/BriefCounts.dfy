/** The counters of a finished scan are numbers of tree entries. */
module BriefCounts {
  import opened BriefRules
  import opened BriefScan
  import opened BriefTraversal
  import opened Ordering
  import Text

  /** What becomes of an entry that is not listed. */
  datatype Fate = Entered | Generated | Hidden | Secret

  ghost function FateOf(child: Child): set<Fate> {
    var name, lower := child.name, Text.Lower(child.name);
    match child.node
    case File(_) => if "." <= name then {Hidden} else if NamedSecret(name) then {Secret} else {}
    case Untyped => {}
    case _ =>
      if lower in {
           ".git", ".ferric", "target", "node_modules", "__pycache__", ".pytest_cache", ".ruff_cache",
           ".mypy_cache", ".tox", ".nox", ".venv", "venv", "dist", "coverage"
         } then {Generated}
      else if "." <= name then {Hidden}
      else if lower in {"secrets", "credentials", "private-keys", "private_keys"} then {Secret}
      else {Entered}
  }

  /** How many entries met this fate, below a directory, wherever it was entered. */
  ghost function Tally(fate: Fate, directory: Node): nat
    decreases Size(directory)
  {
    if directory.Directory? then TallyAll(fate, directory.children) else 0
  }

  ghost function TallyAll(fate: Fate, children: seq<Child>): nat
    decreases SizeAll(children)
  {
    if children == [] then 0
    else
      var fates := FateOf(children[0]);
      (if fate in fates then 1 else 0)
      + (if Entered in fates then Tally(fate, children[0].node) else 0)
      + TallyAll(fate, children[1..])
  }

  // ----- sorting changes no count ----------------------------------------------------------------

  /** What one entry adds. */
  ghost function TallyOne(fate: Fate, child: Child): nat {
    (if fate in FateOf(child) then 1 else 0) + (if Entered in FateOf(child) then Tally(fate, child.node) else 0)
  }

  lemma TallyCons(fate: Fate, child: Child, rest: seq<Child>)
    ensures TallyAll(fate, [child] + rest) == TallyOne(fate, child) + TallyAll(fate, rest)
  {
    assert ([child] + rest)[1..] == rest;
  }

  lemma {:induction false} TallyInsert(fate: Fate, child: Child, sorted: seq<Child>)
    ensures TallyAll(fate, Insert(child, sorted)) == TallyAll(fate, [child]) + TallyAll(fate, sorted)
  {
    TallyCons(fate, child, []);
    assert [child] + [] == [child];
    if sorted == [] || !Less(sorted[0].name, child.name) {
      TallyCons(fate, child, sorted);
    } else {
      TallyInsert(fate, child, sorted[1..]);
      TallyCons(fate, sorted[0], Insert(child, sorted[1..]));
    }
  }

  lemma {:induction false} TallySort(fate: Fate, children: seq<Child>)
    ensures TallyAll(fate, SortByName(children)) == TallyAll(fate, children)
  {
    if children != [] {
      TallySort(fate, children[1..]);
      TallyInsert(fate, children[0], SortByName(children[1..]));
      assert [children[0]][1..] == [];
    }
  }

  // ----- the visits count the fates ----------------------------------------------------------------

  predicate Marks(visit: Visit, fate: Fate) {
    match fate
    case Entered => visit == EnterDirectory
    case Generated => visit == SkipRuntime
    case Hidden => visit == SkipHidden
    case Secret => visit == SkipSensitive
  }

  function Marked(visits: seq<Visit>, fate: Fate): nat {
    if visits == [] then 0 else (if Marks(visits[0], fate) then 1 else 0) + Marked(visits[1..], fate)
  }

  lemma {:induction false} MarkedConcat(a: seq<Visit>, b: seq<Visit>, fate: Fate)
    ensures Marked(a + b, fate) == Marked(a, fate) + Marked(b, fate)
  {
    if a == [] {
      assert a + b == b;
    } else {
      assert (a + b)[1..] == a[1..] + b;
      MarkedConcat(a[1..], b, fate);
    }
  }

  lemma MarkedOne(visit: Visit, fate: Fate)
    ensures Marked([visit], fate) == if Marks(visit, fate) then 1 else 0
  {
    assert [visit][1..] == [];
  }

  lemma {:induction false} VisitsMarked(directory: Node, relative: seq<string>, fate: Fate)
    ensures Marked(Visits(directory, relative), fate) == Tally(fate, directory) + if fate == Entered then 1 else 0
    decreases Size(directory), 0
  {
    var visits := Visits(directory, relative);
    if directory.Directory? {
      var children := SortByName(directory.children);
      assert visits[1..] == VisitsAll(children, relative);
      ChildrenMarked(children, relative, fate);
      TallySort(fate, directory.children);
    } else {
      assert visits[1..] == [Broken];
      MarkedOne(Broken, fate);
    }
  }

  lemma FileMarked(name: string, symlink: bool, relative: seq<string>, fate: Fate)
    ensures var child := Child(name, File(symlink));
            Marked(VisitsOf(child, relative), fate) == if fate in FateOf(child) then 1 else 0
  {
    FileFate(name, symlink);
    if IsHidden(name) {
      MarkedOne(SkipHidden, fate);
    } else if IsSensitiveFile(name) {
      MarkedOne(SkipSensitive, fate);
    } else {
      MarkedOne(Show(EntryOf(relative, name, symlink)), fate);
    }
  }

  lemma FileFate(name: string, symlink: bool)
    ensures FateOf(Child(name, File(symlink)))
            == if IsHidden(name) then {Hidden} else if IsSensitiveFile(name) then {Secret} else {}
  {
    SensitiveExactly(name);
  }

  /** A directory entry the scan does not enter. */
  lemma SkippedMarked(child: Child, relative: seq<string>, fate: Fate)
    requires !child.node.File? && !child.node.Untyped? && DirectoryOmitted(child.name)
    ensures Marked(VisitsOf(child, relative), fate) == if fate in FateOf(child) then 1 else 0
    ensures Entered !in FateOf(child)
  {
    MarkedOne(SkipRuntime, fate);
    MarkedOne(SkipHidden, fate);
    MarkedOne(SkipSensitive, fate);
  }

  lemma EnteredFate(child: Child)
    requires !child.node.File? && !child.node.Untyped? && !DirectoryOmitted(child.name)
    ensures FateOf(child) == {Entered}
  {
  }

  lemma {:induction false} ChildMarked(child: Child, relative: seq<string>, fate: Fate)
    ensures Marked(VisitsOf(child, relative), fate)
            == TallyOne(fate, child)
    decreases Size(child.node), 1
  {
    if child.node.File? {
      FileMarked(child.name, child.node.symlink, relative, fate);
    } else if child.node.Untyped? {
      MarkedOne(Broken, fate);
    } else if DirectoryOmitted(child.name) {
      SkippedMarked(child, relative, fate);
    } else {
      EnteredFate(child);
      VisitsMarked(child.node, relative + [child.name], fate);
    }
  }

  lemma {:induction false} ChildrenMarked(children: seq<Child>, relative: seq<string>, fate: Fate)
    ensures Marked(VisitsAll(children, relative), fate) == TallyAll(fate, children)
    decreases SizeAll(children)
  {
    if children != [] {
      ChildMarked(children[0], relative, fate);
      ChildrenMarked(children[1..], relative, fate);
      MarkedConcat(VisitsOf(children[0], relative), VisitsAll(children[1..], relative), fate);
    }
  }

  // ----- the counters count the visits ----------------------------------------------------------------

  function Counter(p: Progress, fate: Fate): nat {
    match fate
    case Entered => p.directories
    case Generated => p.runtime
    case Hidden => p.hidden
    case Secret => p.sensitive
  }

  function Ceiling(n: nat): nat {
    if n <= USIZE_MAX then n else USIZE_MAX
  }

  lemma MeetCounts(maxFiles: nat, p: Progress, visit: Visit, fate: Fate)
    ensures Counter(Meet(maxFiles, p, visit).0, fate)
            == if Marks(visit, fate) then Bump(Counter(p, fate)) else Counter(p, fate)
  {
  }

  lemma {:induction false} ConsumeCounts(maxFiles: nat, p: Progress, visits: seq<Visit>, fate: Fate)
    requires Counter(p, fate) <= USIZE_MAX && Consume(maxFiles, p, visits).1 == Going
    ensures Counter(Consume(maxFiles, p, visits).0, fate) == Ceiling(Counter(p, fate) + Marked(visits, fate))
    decreases |visits|
  {
    if visits != [] {
      MeetCounts(maxFiles, p, visits[0], fate);
      ConsumeCounts(maxFiles, Meet(maxFiles, p, visits[0]).0, visits[1..], fate);
    }
  }

  /** After a scan that met neither the file limit nor an unreadable place, each
      counter is the number of tree entries that met its fate. */
  lemma FinishedScanCounts(root: Node, maxFiles: nat)
    requires Consume(maxFiles, NOTHING_YET, Visits(root, [])).1 == Going
    ensures var p := Consume(maxFiles, NOTHING_YET, Visits(root, [])).0;
            && p.directories == Ceiling(1 + Tally(Entered, root))
            && p.runtime == Ceiling(Tally(Generated, root))
            && p.hidden == Ceiling(Tally(Hidden, root))
            && p.sensitive == Ceiling(Tally(Secret, root))
  {
    var p := Consume(maxFiles, NOTHING_YET, Visits(root, [])).0;
    CounterCounts(root, maxFiles, Entered);
    CounterCounts(root, maxFiles, Generated);
    CounterCounts(root, maxFiles, Hidden);
    CounterCounts(root, maxFiles, Secret);
    assert p.directories == Counter(p, Entered) && p.runtime == Counter(p, Generated);
    assert p.hidden == Counter(p, Hidden) && p.sensitive == Counter(p, Secret);
  }

  lemma CounterCounts(root: Node, maxFiles: nat, fate: Fate)
    requires Consume(maxFiles, NOTHING_YET, Visits(root, [])).1 == Going
    ensures Counter(Consume(maxFiles, NOTHING_YET, Visits(root, [])).0, fate)
            == Ceiling(Tally(fate, root) + if fate == Entered then 1 else 0)
  {
    ConsumeCounts(maxFiles, NOTHING_YET, Visits(root, []), fate);
    VisitsMarked(root, [], fate);
  }
}
