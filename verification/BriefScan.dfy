/** The bounded scan behind a repository brief (`Scan::visit_directory`) and the
    unbounded traversal it cuts short. */
module BriefScan {
  import opened Ordering
  import opened BriefRules

  /** A workspace as the file system shows it: listings in no particular order,
      directories that cannot be read, entries whose type cannot be read. */
  datatype Node = File(symlink: bool) | Untyped | Directory(children: seq<Child>) | Unreadable

  datatype Child = Child(name: string, node: Node)

  datatype Entry = Entry(path: string, relevance: Relevance, symlink: bool)

  const USIZE_MAX: nat := 0xFFFF_FFFF_FFFF_FFFF

  /** `usize::saturating_add(1)`. */
  function Bump(n: nat): nat {
    if n < USIZE_MAX then n + 1 else n
  }

  function Size(node: Node): nat {
    match node
    case File(_) => 0
    case Untyped => 0
    case Unreadable => 0
    case Directory(children) => 1 + SizeAll(children)
  }

  function SizeAll(children: seq<Child>): nat {
    if children == [] then 0 else 1 + Size(children[0].node) + SizeAll(children[1..])
  }

  // ----- entries are sorted by name ------------------------------------------------------------

  function Insert(child: Child, sorted: seq<Child>): (r: seq<Child>)
    ensures SizeAll(r) == SizeAll([child]) + SizeAll(sorted)
    ensures multiset(r) == multiset([child]) + multiset(sorted)
  {
    if sorted == [] || !Less(sorted[0].name, child.name) then
      assert ([child] + sorted)[1..] == sorted;
      [child] + sorted
    else
      var rest := Insert(child, sorted[1..]);
      assert ([sorted[0]] + rest)[1..] == rest;
      assert sorted == [sorted[0]] + sorted[1..];
      [sorted[0]] + rest
  }

  /** A stable sort by name, which neither loses nor repeats an entry. */
  function SortByName(children: seq<Child>): (r: seq<Child>)
    ensures SizeAll(r) == SizeAll(children)
    ensures multiset(r) == multiset(children)
  {
    if children == [] then []
    else
      assert children == [children[0]] + children[1..];
      assert SizeAll([children[0]]) == 1 + Size(children[0].node);
      Insert(children[0], SortByName(children[1..]))
  }

  // ----- the unbounded traversal ----------------------------------------------------------------

  /** A leaf the traversal comes to, by its path: a visible file, or a place
      that cannot be read. */
  datatype Place = Place(path: seq<string>, leaf: Node)

  predicate DirectoryOmitted(name: string) {
    IsRuntimeDirectory(name) || IsHidden(name) || IsSensitiveDirectory(name)
  }

  predicate FileOmitted(name: string) {
    IsHidden(name) || IsSensitiveFile(name)
  }

  function Below(name: string, places: seq<Place>): (r: seq<Place>)
    ensures |r| == |places|
  {
    seq(|places|, i requires 0 <= i < |places| => Place([name] + places[i].path, places[i].leaf))
  }

  /** Every place below a directory, in sorted depth-first order. */
  function Places(directory: Node): seq<Place>
    decreases Size(directory), 0
  {
    if directory.Directory? then PlacesAll(SortByName(directory.children)) else [Place([], Unreadable)]
  }

  /** The places one child contributes. */
  function PlacesOf(child: Child): seq<Place>
    decreases Size(child.node), 1
  {
    match child.node
    case File(_) => if FileOmitted(child.name) then [] else [Place([child.name], child.node)]
    case Untyped => [Place([child.name], Untyped)]
    case _ => if DirectoryOmitted(child.name) then [] else Below(child.name, Places(child.node))
  }

  function PlacesAll(children: seq<Child>): seq<Place>
    decreases SizeAll(children)
  {
    if children == [] then [] else PlacesOf(children[0]) + PlacesAll(children[1..])
  }

  function Files(places: seq<Place>): seq<Place> {
    if places == [] then []
    else Files(places[..|places| - 1]) + if places[|places| - 1].leaf.File? then [places[|places| - 1]] else []
  }

  /** Every visible file of a workspace, in sorted depth-first order. */
  function Traversal(root: Node): seq<Place> {
    Files(Places(root))
  }

  // ----- the scan as one pass over what it meets --------------------------------------------------

  datatype Visit =
    | EnterDirectory
    | SkipRuntime
    | SkipHidden
    | SkipSensitive
    | Broken
    | Show(entry: Entry)

  function EntryOf(relative: seq<string>, name: string, symlink: bool): Entry {
    Entry(DisplayPath(relative + [name]), ClassifyFile(name), symlink)
  }

  function Visits(directory: Node, relative: seq<string>): seq<Visit>
    decreases Size(directory), 0
  {
    if directory.Directory? then [EnterDirectory] + VisitsAll(SortByName(directory.children), relative)
    else [EnterDirectory, Broken]
  }

  function VisitsOf(child: Child, relative: seq<string>): seq<Visit>
    decreases Size(child.node), 1
  {
    match child.node
    case File(symlink) =>
      if IsHidden(child.name) then [SkipHidden]
      else if IsSensitiveFile(child.name) then [SkipSensitive]
      else [Show(EntryOf(relative, child.name, symlink))]
    case Untyped => [Broken]
    case _ =>
      if IsRuntimeDirectory(child.name) then [SkipRuntime]
      else if IsHidden(child.name) then [SkipHidden]
      else if IsSensitiveDirectory(child.name) then [SkipSensitive]
      else Visits(child.node, relative + [child.name])
  }

  function VisitsAll(children: seq<Child>, relative: seq<string>): seq<Visit>
    decreases SizeAll(children)
  {
    if children == [] then []
    else VisitsOf(children[0], relative) + VisitsAll(children[1..], relative)
  }

  /** The fields of a scan. */
  datatype Progress = Progress(
    entries: seq<Entry>,
    directories: nat,
    hidden: nat,
    runtime: nat,
    sensitive: nat,
    limitReached: bool)

  const NOTHING_YET := Progress([], 0, 0, 0, 0, false)

  datatype Status = Going | Full | Error

  function Meet(maxFiles: nat, p: Progress, visit: Visit): (Progress, Status) {
    match visit
    case EnterDirectory => (p.(directories := Bump(p.directories)), Going)
    case SkipRuntime => (p.(runtime := Bump(p.runtime)), Going)
    case SkipHidden => (p.(hidden := Bump(p.hidden)), Going)
    case SkipSensitive => (p.(sensitive := Bump(p.sensitive)), Going)
    case Broken => (p, Error)
    case Show(entry) =>
      if |p.entries| == maxFiles then (p.(limitReached := true), Full)
      else (p.(entries := p.entries + [entry]), Going)
  }

  function Consume(maxFiles: nat, p: Progress, visits: seq<Visit>): (Progress, Status)
    decreases |visits|
  {
    if visits == [] then (p, Going)
    else
      var (next, status) := Meet(maxFiles, p, visits[0]);
      if status == Going then Consume(maxFiles, next, visits[1..]) else (next, status)
  }

  lemma {:induction false} ConsumeConcat(maxFiles: nat, p: Progress, a: seq<Visit>, b: seq<Visit>)
    ensures
      var (next, status) := Consume(maxFiles, p, a);
      Consume(maxFiles, p, a + b) == if status == Going then Consume(maxFiles, next, b) else (next, status)
    decreases |a|
  {
    if a == [] {
      assert a + b == b;
    } else {
      assert (a + b)[1..] == a[1..] + b;
      ConsumeConcat(maxFiles, Meet(maxFiles, p, a[0]).0, a[1..], b);
    }
  }

  lemma ConsumeOne(maxFiles: nat, p: Progress, visit: Visit)
    ensures Consume(maxFiles, p, [visit]) == Meet(maxFiles, p, visit)
  {
    assert [visit][1..] == [];
  }

  /** Child `k` is met before the children after it. */
  lemma ConsumeChild(maxFiles: nat, p: Progress, children: seq<Child>, k: nat, relative: seq<string>)
    requires k < |children|
    ensures
      var (next, status) := Consume(maxFiles, p, VisitsOf(children[k], relative));
      Consume(maxFiles, p, VisitsAll(children[k..], relative))
      == if status == Going then Consume(maxFiles, next, VisitsAll(children[k + 1..], relative)) else (next, status)
  {
    assert children[k..][1..] == children[k + 1..];
    ConsumeConcat(maxFiles, p, VisitsOf(children[k], relative), VisitsAll(children[k + 1..], relative));
  }

  lemma SizeAt(children: seq<Child>, k: nat)
    requires k < |children|
    ensures Size(children[k].node) < SizeAll(children)
    decreases |children|
  {
    if k > 0 {
      SizeAt(children[1..], k - 1);
    }
  }

  /** The scan in place. */
  class Scan {
    const maxFiles: nat
    var entries: seq<Entry>
    var directoriesVisited: nat
    var hiddenOmitted: nat
    var runtimeOmitted: nat
    var sensitiveOmitted: nat
    var fileLimitReached: bool

    constructor (maxFiles: nat)
      ensures this.maxFiles == maxFiles && State() == NOTHING_YET
    {
      this.maxFiles := maxFiles;
      entries := [];
      directoriesVisited, hiddenOmitted, runtimeOmitted, sensitiveOmitted := 0, 0, 0, 0;
      fileLimitReached := false;
    }

    function State(): Progress
      reads this
    {
      Progress(entries, directoriesVisited, hiddenOmitted, runtimeOmitted, sensitiveOmitted, fileLimitReached)
    }

    /** One recursive visit is one pass over the directory's visits, cut short
        by the first error or by the file that no longer fits. */
    method VisitDirectory(directory: Node, relative: seq<string>) returns (status: Status)
      modifies this
      ensures (State(), status) == Consume(maxFiles, old(State()), Visits(directory, relative))
      decreases Size(directory), 1
    {
      var visits := Visits(directory, relative);
      directoriesVisited := Bump(directoriesVisited);
      if !directory.Directory? {
        assert visits[1..] == [Broken];
        return Error;
      }
      var children := SortByName(directory.children);
      assert visits[1..] == VisitsAll(children, relative);
      for k := 0 to |children|
        invariant Consume(maxFiles, old(State()), visits)
                  == Consume(maxFiles, State(), VisitsAll(children[k..], relative))
      {
        SizeAt(children, k);
        ConsumeChild(maxFiles, State(), children, k, relative);
        status := VisitChild(children[k], relative);
        if status != Going {
          return;
        }
      }
      return Going;
    }

    method VisitChild(child: Child, relative: seq<string>) returns (status: Status)
      modifies this
      ensures (State(), status) == Consume(maxFiles, old(State()), VisitsOf(child, relative))
      decreases Size(child.node), 2
    {
      if child.node.Untyped? {
        ConsumeOne(maxFiles, State(), Broken);
        return Error;
      }
      if child.node.File? {
        status := VisitFile(child.name, child.node.symlink, relative);
        return;
      }
      var name := child.name;
      if IsRuntimeDirectory(name) {
        status := Note(SkipRuntime);
      } else if IsHidden(name) {
        status := Note(SkipHidden);
      } else if IsSensitiveDirectory(name) {
        status := Note(SkipSensitive);
      } else {
        status := VisitDirectory(child.node, relative + [name]);
      }
    }

    method VisitFile(name: string, symlink: bool, relative: seq<string>) returns (status: Status)
      modifies this
      ensures (State(), status) == Consume(maxFiles, old(State()), VisitsOf(Child(name, File(symlink)), relative))
    {
      if IsHidden(name) {
        status := Note(SkipHidden);
      } else if IsSensitiveFile(name) {
        status := Note(SkipSensitive);
      } else {
        status := Note(Show(EntryOf(relative, name, symlink)));
      }
    }

    /** Count one visit, or keep the entry if there is room for it. */
    method Note(visit: Visit) returns (status: Status)
      modifies this
      ensures (State(), status) == Consume(maxFiles, old(State()), [visit])
    {
      ConsumeOne(maxFiles, State(), visit);
      status := Going;
      match visit {
        case EnterDirectory => directoriesVisited := Bump(directoriesVisited);
        case SkipRuntime => runtimeOmitted := Bump(runtimeOmitted);
        case SkipHidden => hiddenOmitted := Bump(hiddenOmitted);
        case SkipSensitive => sensitiveOmitted := Bump(sensitiveOmitted);
        case Broken => status := Error;
        case Show(entry) =>
          if |entries| == maxFiles {
            fileLimitReached := true;
            status := Full;
          } else {
            entries := entries + [entry];
          }
      }
    }
  }
}
