/** The early-stopping scan is a prefix of the unbounded sorted traversal, and
    the traversal comes to exactly the visible files and unreadable places, in
    ascending order. */
module BriefTraversal {
  import opened Wrappers
  import opened Ordering
  import opened BriefRules
  import opened BriefScan
  import Text

  /** The entries shown among some visits. */
  function Shown(visits: seq<Visit>): seq<Entry> {
    if visits == [] then []
    else (if visits[0].Show? then [visits[0].entry] else []) + Shown(visits[1..])
  }

  // ----- the one pass keeps a prefix --------------------------------------------------------------

  function First(entries: seq<Entry>, limit: nat): seq<Entry> {
    if |entries| <= limit then entries else entries[..limit]
  }

  lemma {:induction false} ConsumeKeepsFirst(maxFiles: nat, p: Progress, visits: seq<Visit>)
    requires |p.entries| <= maxFiles && !p.limitReached
    requires Consume(maxFiles, p, visits).1 != Error
    ensures
      var (end, status) := Consume(maxFiles, p, visits);
      && end.entries == First(p.entries + Shown(visits), maxFiles)
      && (end.limitReached <==> |p.entries + Shown(visits)| > maxFiles)
      && (status == Full <==> end.limitReached)
    decreases |visits|
  {
    if visits != [] {
      var (next, status) := Meet(maxFiles, p, visits[0]);
      var rest := Shown(visits[1..]);
      if status == Going {
        ConsumeKeepsFirst(maxFiles, next, visits[1..]);
        assert next.entries + rest == p.entries + Shown(visits);
      } else {
        assert First(p.entries + ([visits[0].entry] + rest), maxFiles) == p.entries;
      }
    } else {
      assert p.entries + Shown(visits) == p.entries;
    }
  }

  /** An unreadable place is met while every file so far still fits. */
  predicate BreaksWithin(visits: seq<Visit>, room: nat) {
    visits != [] &&
    (visits[0].Broken?
     || (if visits[0].Show? then room > 0 && BreaksWithin(visits[1..], room - 1)
         else BreaksWithin(visits[1..], room)))
  }

  lemma {:induction false} ConsumeFails(maxFiles: nat, p: Progress, visits: seq<Visit>)
    requires |p.entries| <= maxFiles
    ensures Consume(maxFiles, p, visits).1 == Error <==> BreaksWithin(visits, maxFiles - |p.entries|)
    decreases |visits|
  {
    if visits != [] {
      var (next, status) := Meet(maxFiles, p, visits[0]);
      if status == Going {
        ConsumeFails(maxFiles, next, visits[1..]);
      }
    }
  }

  // ----- what the visits come to are the places ------------------------------------------------------

  /** The visits that show a file or break. */
  function Leaves(visits: seq<Visit>): seq<Visit> {
    if visits == [] then []
    else (if visits[0].Show? || visits[0].Broken? then [visits[0]] else []) + Leaves(visits[1..])
  }

  lemma {:induction false} LeavesConcat(a: seq<Visit>, b: seq<Visit>)
    ensures Leaves(a + b) == Leaves(a) + Leaves(b)
  {
    if a == [] {
      assert a + b == b;
    } else {
      assert (a + b)[1..] == a[1..] + b && (a + b)[0] == a[0];
      LeavesConcat(a[1..], b);
      var first := if a[0].Show? || a[0].Broken? then [a[0]] else [];
      assert Leaves(a + b) == first + Leaves(a[1..] + b);
      assert Leaves(a) == first + Leaves(a[1..]);
    }
  }

  /** Only the leaves decide what is shown and where a scan breaks. */
  lemma {:induction false} LeavesDecide(visits: seq<Visit>, room: nat)
    ensures Shown(Leaves(visits)) == Shown(visits)
    ensures BreaksWithin(Leaves(visits), room) <==> BreaksWithin(visits, room)
    decreases |visits|
  {
    if visits != [] {
      var leaves := Leaves(visits);
      var less := if visits[0].Show? && room > 0 then room - 1 else room;
      LeavesDecide(visits[1..], less);
      if visits[0].Show? || visits[0].Broken? {
        assert leaves[0] == visits[0] && leaves[1..] == Leaves(visits[1..]);
      } else {
        assert leaves == Leaves(visits[1..]);
      }
    }
  }

  function Displayed(relative: seq<string>, place: Place): Entry
    requires place.path != [] && place.leaf.File?
  {
    Entry(DisplayPath(relative + place.path), ClassifyFile(place.path[|place.path| - 1]), place.leaf.symlink)
  }

  predicate Rooted(places: seq<Place>) {
    forall i | 0 <= i < |places| && places[i].leaf.File? :: places[i].path != []
  }

  function VisitOf(relative: seq<string>, place: Place): Visit
    requires place.leaf.File? ==> place.path != []
  {
    if place.leaf.File? then Show(Displayed(relative, place)) else Broken
  }

  function VisitAll(relative: seq<string>, places: seq<Place>): (r: seq<Visit>)
    requires Rooted(places)
    ensures |r| == |places|
  {
    seq(|places|, i requires 0 <= i < |places| => VisitOf(relative, places[i]))
  }

  lemma VisitBelow(relative: seq<string>, name: string, places: seq<Place>)
    requires Rooted(places)
    ensures Rooted(Below(name, places))
    ensures VisitAll(relative, Below(name, places)) == VisitAll(relative + [name], places)
  {
    forall i | 0 <= i < |places|
      ensures VisitOf(relative, Below(name, places)[i]) == VisitOf(relative + [name], places[i])
    {
      assert relative + ([name] + places[i].path) == relative + [name] + places[i].path;
    }
  }

  lemma VisitConcat(relative: seq<string>, a: seq<Place>, b: seq<Place>)
    requires Rooted(a) && Rooted(b)
    ensures Rooted(a + b)
    ensures VisitAll(relative, a + b) == VisitAll(relative, a) + VisitAll(relative, b)
  {
  }

  lemma {:induction false} VisitsLeadToPlaces(directory: Node, relative: seq<string>)
    ensures Rooted(Places(directory))
    ensures Leaves(Visits(directory, relative)) == VisitAll(relative, Places(directory))
    decreases Size(directory), 0
  {
    var visits := Visits(directory, relative);
    if directory.Directory? {
      var children := SortByName(directory.children);
      assert visits[1..] == VisitsAll(children, relative);
      ChildrenLeadToPlaces(children, relative);
    } else {
      assert visits[1..] == [Broken] && [Broken][1..] == [];
    }
  }

  lemma FileLeadsToPlace(name: string, symlink: bool, relative: seq<string>)
    ensures
      var child := Child(name, File(symlink));
      && Rooted(PlacesOf(child))
      && Leaves(VisitsOf(child, relative)) == VisitAll(relative, PlacesOf(child))
  {
    var child := Child(name, File(symlink));
    assert VisitsOf(child, relative)[1..] == [];
    if !FileOmitted(name) {
      assert Displayed(relative, Place([name], File(symlink))) == EntryOf(relative, name, symlink);
    }
  }

  lemma {:induction false} ChildLeadsToPlaces(child: Child, relative: seq<string>)
    ensures Rooted(PlacesOf(child))
    ensures Leaves(VisitsOf(child, relative)) == VisitAll(relative, PlacesOf(child))
    decreases Size(child.node), 1
  {
    match child.node {
      case File(symlink) => FileLeadsToPlace(child.name, symlink, relative);
      case Untyped => assert [Broken][1..] == [];
      case _ =>
        if DirectoryOmitted(child.name) {
          assert VisitsOf(child, relative)[1..] == [];
        } else {
          VisitsLeadToPlaces(child.node, relative + [child.name]);
          VisitBelow(relative, child.name, Places(child.node));
        }
    }
  }

  lemma {:induction false} ChildrenLeadToPlaces(children: seq<Child>, relative: seq<string>)
    ensures Rooted(PlacesAll(children))
    ensures Leaves(VisitsAll(children, relative)) == VisitAll(relative, PlacesAll(children))
    decreases SizeAll(children)
  {
    if children != [] {
      ChildLeadsToPlaces(children[0], relative);
      ChildrenLeadToPlaces(children[1..], relative);
      LeavesConcat(VisitsOf(children[0], relative), VisitsAll(children[1..], relative));
      VisitConcat(relative, PlacesOf(children[0]), PlacesAll(children[1..]));
    }
  }

  // ----- files and obstacles among the places ----------------------------------------------------------

  predicate AllFiles(files: seq<Place>) {
    forall i | 0 <= i < |files| :: files[i].leaf.File? && files[i].path != []
  }

  function DisplayAll(relative: seq<string>, files: seq<Place>): (r: seq<Entry>)
    requires AllFiles(files)
    ensures |r| == |files|
  {
    seq(|files|, i requires 0 <= i < |files| => Displayed(relative, files[i]))
  }

  lemma {:induction false} FilesOnly(places: seq<Place>)
    requires Rooted(places)
    ensures AllFiles(Files(places))
  {
    if places != [] {
      FilesOnly(places[..|places| - 1]);
    }
  }

  lemma {:induction false} ShownSnoc(visits: seq<Visit>, last: Visit)
    ensures Shown(visits + [last]) == Shown(visits) + if last.Show? then [last.entry] else []
  {
    if visits == [] {
      assert [last][1..] == [];
    } else {
      var all := visits + [last];
      assert all[1..] == visits[1..] + [last] && all[0] == visits[0];
      ShownSnoc(visits[1..], last);
      var first := if visits[0].Show? then [visits[0].entry] else [];
      assert Shown(all) == first + Shown(visits[1..] + [last]);
      assert Shown(visits) == first + Shown(visits[1..]);
    }
  }

  lemma {:induction false} ShownAreFiles(relative: seq<string>, places: seq<Place>)
    requires Rooted(places)
    ensures AllFiles(Files(places))
    ensures Shown(VisitAll(relative, places)) == DisplayAll(relative, Files(places))
  {
    FilesOnly(places);
    if places != [] {
      var front, last := places[..|places| - 1], places[|places| - 1];
      ShownAreFiles(relative, front);
      assert VisitAll(relative, places) == VisitAll(relative, front) + [VisitOf(relative, last)];
      ShownSnoc(VisitAll(relative, front), VisitOf(relative, last));
    }
  }

  /** Some place that cannot be read has at most `room` files before it. */
  predicate FailsWithin(places: seq<Place>, room: nat) {
    exists k | 0 <= k < |places| :: !places[k].leaf.File? && |Files(places[..k])| <= room
  }

  lemma {:induction false} BreaksWithinExactly(visits: seq<Visit>, room: nat)
    ensures BreaksWithin(visits, room) <==>
      exists k | 0 <= k < |visits| :: visits[k].Broken? && |Shown(visits[..k])| <= room
  {
    if visits != [] {
      var rest := visits[1..];
      var cost := if visits[0].Show? then 1 else 0;
      forall k | 0 < k < |visits| ensures |Shown(visits[..k])| == cost + |Shown(rest[..k - 1])| {
        assert visits[..k][1..] == rest[..k - 1];
      }
      assert visits[..0] == [];
      if room >= cost {
        BreaksWithinExactly(rest, room - cost);
        if k :| 0 <= k < |rest| && rest[k].Broken? && |Shown(rest[..k])| <= room - cost {
          assert visits[k + 1].Broken? && |Shown(visits[..k + 1])| <= room;
        }
        if k :| 0 < k < |visits| && visits[k].Broken? && |Shown(visits[..k])| <= room {
          assert rest[k - 1].Broken?;
        }
      }
    }
  }

  lemma BreaksAtObstacles(relative: seq<string>, places: seq<Place>, room: nat)
    requires Rooted(places)
    ensures BreaksWithin(VisitAll(relative, places), room) <==> FailsWithin(places, room)
  {
    var visits := VisitAll(relative, places);
    BreaksWithinExactly(visits, room);
    forall k | 0 <= k < |places| ensures |Shown(visits[..k])| == |Files(places[..k])| {
      ShownAreFiles(relative, places[..k]);
      assert visits[..k] == VisitAll(relative, places[..k]);
    }
    if k :| 0 <= k < |visits| && visits[k].Broken? && |Shown(visits[..k])| <= room {
      assert !places[k].leaf.File?;
    }
    if k :| 0 <= k < |places| && !places[k].leaf.File? && |Files(places[..k])| <= room {
      assert visits[k].Broken?;
    }
  }

  /** A limit that is never reached makes no difference. */
  lemma {:induction false} LimitIrrelevant(maxFiles: nat, other: nat, p: Progress, visits: seq<Visit>)
    requires |p.entries| + |Shown(visits)| <= maxFiles
    requires |p.entries| + |Shown(visits)| <= other
    ensures Consume(maxFiles, p, visits) == Consume(other, p, visits)
    decreases |visits|
  {
    if visits != [] {
      var (next, status) := Meet(maxFiles, p, visits[0]);
      if status == Going {
        LimitIrrelevant(maxFiles, other, next, visits[1..]);
      }
    }
  }

  // ----- the places are exactly those that visible paths lead to -------------------------------------------

  /** The path leads through visible directories to this leaf: a visible file, a
      visible directory that cannot be read or an entry of unknown type. */
  ghost predicate Reaches(directory: Node, path: seq<string>, leaf: Node)
    decreases |path|
  {
    if directory.Directory? then path != [] && exists child | child in directory.children :: Leads(child, path, leaf)
    else path == [] && leaf == Unreadable
  }

  ghost predicate Leads(child: Child, path: seq<string>, leaf: Node)
    requires path != []
    decreases |path|, 0
  {
    && child.name == path[0]
    && match child.node
       case File(_) => |path| == 1 && leaf == child.node && !FileOmitted(child.name)
       case Untyped => |path| == 1 && leaf == Untyped
       case _ => !DirectoryOmitted(child.name) && Reaches(child.node, path[1..], leaf)
  }

  lemma SortKeepsMembers(children: seq<Child>)
    ensures forall child :: child in SortByName(children) <==> child in children
  {
    forall child ensures child in SortByName(children) <==> child in children {
      assert child in multiset(SortByName(children)) <==> child in multiset(children);
    }
  }

  lemma MemberBelow(name: string, places: seq<Place>, path: seq<string>, leaf: Node)
    requires path != []
    ensures Place(path, leaf) in Below(name, places) <==> path[0] == name && Place(path[1..], leaf) in places
  {
    if path[0] == name && Place(path[1..], leaf) in places {
      var i :| 0 <= i < |places| && places[i] == Place(path[1..], leaf);
      assert [name] + path[1..] == path;
      assert Below(name, places)[i] == Place(path, leaf);
    }
    if Place(path, leaf) in Below(name, places) {
      var i :| 0 <= i < |places| && Below(name, places)[i] == Place(path, leaf);
      assert path[1..] == places[i].path;
      assert places[i] == Place(path[1..], leaf);
    }
  }

  lemma {:induction false} NoEmptyPath(children: seq<Child>)
    ensures forall i | 0 <= i < |PlacesAll(children)| :: PlacesAll(children)[i].path != []
    decreases SizeAll(children)
  {
    if children != [] {
      NoEmptyPath(children[1..]);
    }
  }

  /** The traversal comes to a leaf exactly when a visible path leads to it. */
  lemma {:induction false} PlacesAreReached(directory: Node, path: seq<string>, leaf: Node)
    ensures Place(path, leaf) in Places(directory) <==> Reaches(directory, path, leaf)
    decreases Size(directory), 0
  {
    if directory.Directory? {
      var children := SortByName(directory.children);
      if path == [] {
        NoEmptyPath(children);
        assert forall place | place in Places(directory) :: place.path != [];
      } else {
        SortKeepsMembers(directory.children);
        ReachedAmong(children, path, leaf);
      }
    }
  }

  lemma {:induction false} ReachedBy(child: Child, path: seq<string>, leaf: Node)
    requires path != []
    ensures Place(path, leaf) in PlacesOf(child) <==> Leads(child, path, leaf)
    decreases Size(child.node), 1
  {
    match child.node {
      case File(_) => assert |path| == 1 ==> path == [path[0]];
      case Untyped => assert |path| == 1 ==> path == [path[0]];
      case _ =>
        if !DirectoryOmitted(child.name) {
          MemberBelow(child.name, Places(child.node), path, leaf);
          PlacesAreReached(child.node, path[1..], leaf);
        }
    }
  }

  lemma {:induction false} ReachedAmong(children: seq<Child>, path: seq<string>, leaf: Node)
    requires path != []
    ensures Place(path, leaf) in PlacesAll(children) <==>
      exists child | child in children :: Leads(child, path, leaf)
    decreases SizeAll(children)
  {
    if children != [] {
      ReachedBy(children[0], path, leaf);
      ReachedAmong(children[1..], path, leaf);
      if child :| child in children && Leads(child, path, leaf) {
        assert child == children[0] || child in children[1..];
      }
    }
  }

  lemma {:induction false} FilesMembers(places: seq<Place>, place: Place)
    ensures place in Files(places) <==> place in places && place.leaf.File?
  {
    if places != [] {
      var front := places[..|places| - 1];
      FilesMembers(front, place);
      assert places == front + [places[|places| - 1]];
    }
  }

  /** A file is listed exactly when a visible path leads to it. */
  lemma ListedExactlyWhenVisible(root: Node, path: seq<string>, symlink: bool)
    ensures Place(path, File(symlink)) in Traversal(root) <==> Reaches(root, path, File(symlink))
  {
    PlacesAreReached(root, path, File(symlink));
    FilesMembers(Places(root), Place(path, File(symlink)));
  }

  /** A directory name the brief may look into. */
  ghost predicate OpenDirectory(name: string) {
    && !("." <= name)
    && Text.Lower(name) !in {
         ".git", ".ferric", "target", "node_modules", "__pycache__", ".pytest_cache", ".ruff_cache",
         ".mypy_cache", ".tox", ".nox", ".venv", "venv", "dist", "coverage",
         "secrets", "credentials", "private-keys", "private_keys"
       }
  }

  lemma OpenExactly(name: string)
    ensures DirectoryOmitted(name) <==> !OpenDirectory(name)
  {
  }

  /** A path the brief may show: open directories, then a file that is neither
      hidden nor a named secret. */
  ghost predicate OpenPath(path: seq<string>) {
    path != [] &&
    if |path| == 1 then !("." <= path[0]) && !NamedSecret(path[0])
    else OpenDirectory(path[0]) && OpenPath(path[1..])
  }

  lemma FileIsOpen(name: string)
    requires !FileOmitted(name)
    ensures !("." <= name) && !NamedSecret(name)
  {
    SensitiveExactly(name);
  }

  lemma LedToFile(child: Child, path: seq<string>, leaf: Node)
    requires path != [] && Leads(child, path, leaf) && leaf.File? && child.node.File?
    ensures |path| == 1 && child.name == path[0] && !FileOmitted(path[0])
  {
  }

  lemma LedOnward(child: Child, path: seq<string>, leaf: Node)
    requires path != [] && Leads(child, path, leaf) && leaf.File? && !child.node.File?
    ensures |path| > 1 && child.name == path[0] && !DirectoryOmitted(path[0]) && Reaches(child.node, path[1..], leaf)
  {
  }

  lemma {:induction false} ReachedThroughOpen(directory: Node, path: seq<string>, symlink: bool)
    requires Reaches(directory, path, File(symlink))
    ensures OpenPath(path)
    decreases |path|
  {
    var child :| child in directory.children && Leads(child, path, File(symlink));
    if child.node.File? {
      LedToFile(child, path, File(symlink));
      FileIsOpen(path[0]);
    } else {
      LedOnward(child, path, File(symlink));
      OpenExactly(path[0]);
      ReachedThroughOpen(child.node, path[1..], symlink);
    }
  }

  /** No listed file is hidden or a named secret, and none lies below a hidden,
      generated or secret directory. */
  lemma NoSecretListed(root: Node, place: Place)
    requires place in Traversal(root)
    ensures place.leaf.File? && OpenPath(place.path)
  {
    FilesMembers(Places(root), place);
    PlacesAreReached(root, place.path, place.leaf);
    ReachedThroughOpen(root, place.path, place.leaf.symlink);
  }

  // ----- in ascending order -----------------------------------------------------------------------------

  predicate DistinctNames(children: seq<Child>) {
    forall i, j | 0 <= i < j < |children| :: children[i].name != children[j].name
  }

  /** No directory holds two entries of the same name. */
  predicate WellFormed(node: Node)
  {
    node.Directory? ==>
      && DistinctNames(node.children)
      && forall i | 0 <= i < |node.children| :: WellFormed(node.children[i].node)
  }

  predicate AscendingNames(children: seq<Child>) {
    forall i, j | 0 <= i < j < |children| :: Less(children[i].name, children[j].name)
  }

  predicate PathLess(a: seq<string>, b: seq<string>) {
    b != [] && (a == [] || Less(a[0], b[0]) || (a[0] == b[0] && PathLess(a[1..], b[1..])))
  }

  lemma {:induction false} PathLessAsymmetric(a: seq<string>, b: seq<string>)
    requires PathLess(a, b)
    ensures !PathLess(b, a) && a != b
  {
    if a != [] {
      LessIrreflexive(a[0]);
      if Less(a[0], b[0]) {
        if Less(b[0], a[0]) {
          LessTransitive(a[0], b[0], a[0]);
        }
      } else {
        PathLessAsymmetric(a[1..], b[1..]);
      }
    }
  }

  predicate AscendingPaths(places: seq<Place>) {
    forall i, j | 0 <= i < j < |places| :: PathLess(places[i].path, places[j].path)
  }

  /** Whatever precedes the child and the rest precedes their merge. */
  lemma InsertFollows(head: Child, child: Child, rest: seq<Child>)
    requires Less(head.name, child.name) && forall k | 0 <= k < |rest| :: Less(head.name, rest[k].name)
    ensures forall k | 0 <= k < |Insert(child, rest)| :: Less(head.name, Insert(child, rest)[k].name)
  {
    var tail := Insert(child, rest);
    forall k | 0 <= k < |tail| ensures Less(head.name, tail[k].name) {
      assert tail[k] in multiset(tail);
      assert tail[k] == child || tail[k] in rest;
    }
  }

  lemma {:induction false} InsertAscends(child: Child, sorted: seq<Child>)
    requires AscendingNames(sorted) && forall i | 0 <= i < |sorted| :: sorted[i].name != child.name
    ensures AscendingNames(Insert(child, sorted))
  {
    if sorted != [] {
      var head, rest := sorted[0], sorted[1..];
      LessTotal(head.name, child.name);
      if Less(head.name, child.name) {
        InsertAscends(child, rest);
        InsertFollows(head, child, rest);
      } else {
        forall k | 0 <= k < |sorted| ensures Less(child.name, sorted[k].name) {
          if k > 0 {
            LessTransitive(child.name, head.name, sorted[k].name);
          }
        }
      }
    }
  }

  lemma {:induction false} SortAscends(children: seq<Child>)
    requires DistinctNames(children)
    ensures AscendingNames(SortByName(children))
  {
    if children != [] {
      var rest := SortByName(children[1..]);
      SortAscends(children[1..]);
      SortKeepsMembers(children[1..]);
      forall i | 0 <= i < |rest| ensures rest[i].name != children[0].name {
        assert rest[i] in children[1..];
      }
      InsertAscends(children[0], rest);
    }
  }

  predicate StartsAmong(places: seq<Place>, children: seq<Child>) {
    forall i | 0 <= i < |places| ::
      places[i].path != [] && exists child | child in children :: child.name == places[i].path[0]
  }

  lemma {:induction false} PlacesStart(children: seq<Child>)
    ensures StartsAmong(PlacesAll(children), children)
    decreases SizeAll(children)
  {
    if children != [] {
      PlacesStart(children[1..]);
      var rest := PlacesAll(children[1..]);
      forall i | 0 <= i < |rest| ensures exists child | child in children :: child.name == rest[i].path[0] {
        var child :| child in children[1..] && child.name == rest[i].path[0];
        assert child in children;
      }
    }
  }

  /** The traversal is strictly ascending, component by component: nothing is
      listed twice and the order does not depend on the listing. */
  lemma {:induction false} TraversalAscends(directory: Node)
    requires WellFormed(directory)
    ensures AscendingPaths(Places(directory))
    decreases Size(directory), 0
  {
    if directory.Directory? {
      var children := SortByName(directory.children);
      SortAscends(directory.children);
      SortKeepsMembers(directory.children);
      forall i | 0 <= i < |children| ensures WellFormed(children[i].node) {
        assert children[i] in directory.children;
      }
      PlacesAllAscend(children);
    }
  }

  lemma {:induction false} PlacesOfAscend(child: Child)
    requires WellFormed(child.node)
    ensures AscendingPaths(PlacesOf(child))
    ensures forall i | 0 <= i < |PlacesOf(child)| ::
      PlacesOf(child)[i].path != [] && PlacesOf(child)[i].path[0] == child.name
    decreases Size(child.node), 1
  {
    if !child.node.File? && !child.node.Untyped? && !DirectoryOmitted(child.name) {
      TraversalAscends(child.node);
      var places := Places(child.node);
      var below := Below(child.name, places);
      forall i, j | 0 <= i < j < |places| ensures PathLess(below[i].path, below[j].path) {
        assert below[i].path[1..] == places[i].path && below[j].path[1..] == places[j].path;
      }
    }
  }

  lemma {:induction false} PlacesAllAscend(children: seq<Child>)
    requires AscendingNames(children) && forall i | 0 <= i < |children| :: WellFormed(children[i].node)
    ensures AscendingPaths(PlacesAll(children))
    decreases SizeAll(children)
  {
    if children != [] {
      var first, rest := PlacesOf(children[0]), PlacesAll(children[1..]);
      PlacesOfAscend(children[0]);
      PlacesAllAscend(children[1..]);
      PlacesStart(children[1..]);
      forall i, j | 0 <= i < |first| && 0 <= j < |rest| ensures PathLess(first[i].path, rest[j].path) {
        var child :| child in children[1..] && child.name == rest[j].path[0];
      }
    }
  }

  // ----- failing, told by the tree alone ------------------------------------------------------------------

  /** How many of these files come before a path. */
  function FilesBefore(files: seq<Place>, path: seq<string>): nat {
    if files == [] then 0
    else FilesBefore(files[..|files| - 1], path) + if PathLess(files[|files| - 1].path, path) then 1 else 0
  }

  /** A visible path leads to a place that cannot be read, and at most `room`
      visible files come before it. */
  ghost predicate ObstacleWithin(root: Node, room: nat) {
    exists path, leaf :: Reaches(root, path, leaf) && !leaf.File? && FilesBefore(Traversal(root), path) <= room
  }

  /** In an ascending list the files before a member are those listed before it. */
  lemma {:induction false} FilesBeforeMember(places: seq<Place>, k: nat, n: nat)
    requires AscendingPaths(places) && k < |places| && n <= |places|
    ensures FilesBefore(Files(places[..n]), places[k].path) == |Files(places[..if n <= k then n else k])|
    decreases n
  {
    if n > 0 {
      FilesBeforeMember(places, k, n - 1);
      var last := places[n - 1];
      FilesSnoc(places, n);
      BeforeSnoc(Files(places[..n - 1]), last, places[k].path);
      if n - 1 < k {
        assert PathLess(last.path, places[k].path);
      } else if n - 1 > k {
        PathLessAsymmetric(places[k].path, last.path);
      } else {
        PathIrreflexive(last.path);
      }
    }
  }

  lemma FilesSnoc(places: seq<Place>, n: nat)
    requires 0 < n <= |places|
    ensures Files(places[..n])
            == if places[n - 1].leaf.File? then Files(places[..n - 1]) + [places[n - 1]] else Files(places[..n - 1])
  {
    assert places[..n][..n - 1] == places[..n - 1];
  }

  lemma BeforeSnoc(files: seq<Place>, last: Place, path: seq<string>)
    ensures FilesBefore(files + [last], path) == FilesBefore(files, path) + if PathLess(last.path, path) then 1 else 0
  {
    assert (files + [last])[..|files|] == files;
  }

  lemma {:induction false} PathIrreflexive(a: seq<string>)
    ensures !PathLess(a, a)
  {
    if a != [] {
      LessIrreflexive(a[0]);
      PathIrreflexive(a[1..]);
    }
  }

  lemma FailsAtObstacle(root: Node, room: nat)
    requires WellFormed(root)
    ensures FailsWithin(Places(root), room) <==> ObstacleWithin(root, room)
  {
    var places := Places(root);
    TraversalAscends(root);
    assert places[..|places|] == places;
    if k :| 0 <= k < |places| && !places[k].leaf.File? && |Files(places[..k])| <= room {
      FilesBeforeMember(places, k, |places|);
      PlacesAreReached(root, places[k].path, places[k].leaf);
      assert places[k] == Place(places[k].path, places[k].leaf);
    }
    if path, leaf :| Reaches(root, path, leaf) && !leaf.File? && FilesBefore(Traversal(root), path) <= room {
      PlacesAreReached(root, path, leaf);
      var k :| 0 <= k < |places| && places[k] == Place(path, leaf);
      FilesBeforeMember(places, k, |places|);
    }
  }

  // ----- the scan of a workspace ---------------------------------------------------------------------

  /** The scan holds the first `maxFiles` entries of the unbounded traversal and
      says so exactly when there are more. It fails exactly when a visible path
      leads to a place that cannot be read before the first file that no longer
      fits. */
  method ScanWorkspace(root: Node, maxFiles: nat) returns (result: Option<Progress>)
    ensures AllFiles(Traversal(root))
    ensures result.None? <==> FailsWithin(Places(root), maxFiles)
    ensures WellFormed(root) ==> (result.None? <==> ObstacleWithin(root, maxFiles))
    ensures result.Some? ==>
      && result.value.entries == First(DisplayAll([], Traversal(root)), maxFiles)
      && (result.value.limitReached <==> |Traversal(root)| > maxFiles)
      && (!result.value.limitReached ==> result.value == Consume(|Traversal(root)|, NOTHING_YET, Visits(root, [])).0)
  {
    var scan := new Scan(maxFiles);
    var status := scan.VisitDirectory(root, []);
    ghost var visits := Visits(root, []);
    ScanMeetsTree(root, maxFiles);
    if status == Error {
      return None;
    }
    ConsumeKeepsFirst(maxFiles, NOTHING_YET, visits);
    assert NOTHING_YET.entries + Shown(visits) == DisplayAll([], Traversal(root));
    if !scan.fileLimitReached {
      LimitIrrelevant(maxFiles, |Traversal(root)|, NOTHING_YET, visits);
    }
    return Some(scan.State());
  }

  lemma ScanMeetsTree(root: Node, maxFiles: nat)
    ensures AllFiles(Traversal(root))
    ensures Shown(Visits(root, [])) == DisplayAll([], Traversal(root))
    ensures Consume(maxFiles, NOTHING_YET, Visits(root, [])).1 == Error <==> FailsWithin(Places(root), maxFiles)
    ensures WellFormed(root) ==> (FailsWithin(Places(root), maxFiles) <==> ObstacleWithin(root, maxFiles))
  {
    VisitsLeadToPlaces(root, []);
    LeavesMeetPlaces(Visits(root, []), Places(root), maxFiles);
    if WellFormed(root) {
      FailsAtObstacle(root, maxFiles);
    }
  }

  lemma LeavesMeetPlaces(visits: seq<Visit>, places: seq<Place>, maxFiles: nat)
    requires Rooted(places) && Leaves(visits) == VisitAll([], places)
    ensures AllFiles(Files(places)) && Shown(visits) == DisplayAll([], Files(places))
    ensures Consume(maxFiles, NOTHING_YET, visits).1 == Error <==> FailsWithin(places, maxFiles)
  {
    ConsumeFails(maxFiles, NOTHING_YET, visits);
    LeavesDecide(visits, maxFiles);
    ShownAreFiles([], places);
    BreaksAtObstacles([], places, maxFiles);
  }

  // ----- a brief of a workspace that cannot be read in full ----------------------------------------------

  lemma UnreadableChild(name: string)
    requires !DirectoryOmitted(name)
    ensures PlacesOf(Child(name, Unreadable)) == [Place([name], Unreadable)]
    ensures Leads(Child(name, Unreadable), [name], Unreadable)
  {
    var below := Below(name, [Place([], Unreadable)]);
    assert [name] + [] == [name];
    assert below[0] == Place([name], Unreadable);
    assert below == [Place([name], Unreadable)];
    assert PlacesOf(Child(name, Unreadable)) == Below(name, Places(Unreadable));
    assert [name][1..] == [];
  }

  lemma TwoSorted(x: Child, y: Child)
    requires Less(x.name, y.name)
    ensures SortByName([x, y]) == [x, y]
  {
    assert [x, y][1..] == [y] && [y][1..] == [];
    assert SortByName([y]) == [y];
    LessTotal(x.name, y.name);
    if Less(y.name, x.name) {
      LessTransitive(x.name, y.name, x.name);
      LessIrreflexive(x.name);
    }
  }

  lemma TwoPlaces(x: Child, y: Child)
    ensures PlacesAll([x, y]) == PlacesOf(x) + PlacesOf(y)
  {
    assert [x, y][1..] == [y] && [y][1..] == [];
    assert PlacesAll([y]) == PlacesOf(y) + PlacesAll([]);
  }

  lemma FileThenUnreadable(a: string, b: string)
    requires Less(a, b) && a != b && !FileOmitted(a) && !DirectoryOmitted(b)
    ensures
      var root := Directory([Child(a, File(false)), Child(b, Unreadable)]);
      && WellFormed(root)
      && Reaches(root, [b], Unreadable)
      && Places(root) == [Place([a], File(false)), Place([b], Unreadable)]
  {
    var x, y := Child(a, File(false)), Child(b, Unreadable);
    var root := Directory([x, y]);
    TwoSorted(x, y);
    TwoPlaces(x, y);
    UnreadableChild(b);
    assert y in root.children;
  }

  lemma OrdinaryNames()
    ensures Less("a", "b") && !FileOmitted("a") && !DirectoryOmitted("b")
  {
    assert |Text.Lower("a")| == 1 && |Text.Lower("b")| == 1;
    assert Extension(Text.Lower("a")) == "";
  }

  /** A workspace with an unreadable directory whose scan succeeds all the same:
      with no room for files, the first file ends it. */
  lemma UnreadableWorkspaceScanned() returns (root: Node, path: seq<string>)
    ensures WellFormed(root) && Reaches(root, path, Unreadable)
    ensures !FailsWithin(Places(root), 0)
  {
    OrdinaryNames();
    FileThenUnreadable("a", "b");
    root := Directory([Child("a", File(false)), Child("b", Unreadable)]);
    path := ["b"];
    var places := Places(root);
    assert places[..1] == [places[0]] && [places[0]][..0] == [];
    assert Files(places[..1]) == [places[0]];
    forall k | 0 <= k < |places| && !places[k].leaf.File? ensures |Files(places[..k])| > 0 {
      assert k == 1;
    }
  }
}
