/** Setup files: the collision check on their paths, and writing them one by one
    into an empty workspace on a file system that ignores ASCII case
    (`validate_path_collisions`, `materialize_setup_files`). */
module Setup {
  import opened Text
  import opened Ordering
  import opened Counting
  import opened Selecting
  import opened Wrappers

  type Key = seq<string>

  datatype Node = Folder | Contents(text: string)

  type Tree = map<Key, Node>

  function Fold(parts: seq<string>): (r: Key)
    ensures |r| == |parts|
  {
    seq(|parts|, i requires 0 <= i < |parts| => Lower(parts[i]))
  }

  /** The components the collision check compares. */
  function Components(path: string): Key {
    Fold(SplitSlash(path))
  }

  predicate Skipped(part: string) {
    part == "" || part == "."
  }

  function Significant(parts: seq<string>): seq<string> {
    if parts == [] then []
    else (if Skipped(parts[0]) then [] else [parts[0]]) + Significant(parts[1..])
  }

  function NotSkipped(part: string): Option<string> {
    if part == "" || part == "." then None else Some(part)
  }

  /** Exactly the components other than the empty one and `.` count, in order. */
  lemma {:induction false} SignificantSelects(parts: seq<string>)
    ensures Significant(parts) == Select(parts, NotSkipped)
    ensures Selects(parts, NotSkipped, Significant(parts))
  {
    SelectSelects(parts, NotSkipped);
    SignificantIsSelect(parts);
  }

  lemma {:induction false} SignificantIsSelect(parts: seq<string>)
    ensures Significant(parts) == Select(parts, NotSkipped)
  {
    if parts != [] {
      var n := |parts| - 1;
      SignificantIsSelect(parts[..n]);
      SignificantSnoc(parts[..n], parts[n]);
      assert parts == parts[..n] + [parts[n]];
    }
  }

  lemma {:induction false} SignificantSnoc(parts: seq<string>, part: string)
    ensures Significant(parts + [part]) == Significant(parts) + if Skipped(part) then [] else [part]
  {
    if parts == [] {
      assert [part][1..] == [] && [] + [part] == [part];
    } else {
      assert (parts + [part])[1..] == parts[1..] + [part];
      SignificantSnoc(parts[1..], part);
    }
  }

  /** The file a path names: empty and `.` components name nothing. */
  function Resolve(path: string): Key {
    Significant(Components(path))
  }

  /** The last component names something, so that a file can be opened there. */
  predicate NamesFile(path: string) {
    var parts := Components(path);
    !Skipped(parts[|parts| - 1])
  }

  lemma {:induction false} LastIsSignificant(parts: seq<string>)
    requires parts != [] && !Skipped(parts[|parts| - 1])
    ensures Significant(parts) != []
  {
    if |parts| > 1 {
      LastIsSignificant(parts[1..]);
    }
  }

  lemma {:induction false} PlainSignificant(parts: seq<string>)
    requires forall i | 0 <= i < |parts| :: !Skipped(parts[i])
    ensures Significant(parts) == parts
  {
    if parts != [] {
      PlainSignificant(parts[1..]);
      assert parts == [parts[0]] + parts[1..];
    }
  }

  // ----- the collision check -----------------------------------------------------------------------

  /** `is_component_prefix`. */
  predicate IsComponentPrefix(left: Key, right: Key) {
    |left| < |right| && forall i | 0 <= i < |left| :: left[i] == right[i]
  }

  predicate Collide(left: Key, right: Key) {
    left == right || IsComponentPrefix(left, right) || IsComponentPrefix(right, left)
  }

  /** No two paths name one file or a file and its ancestor. */
  ghost predicate CollisionFree(paths: set<string>, name: string -> Key) {
    forall a, b | a in paths && b in paths && a != b :: !Collide(name(a), name(b))
  }

  /** No list collides with a later one. */
  ghost predicate Apart(split: seq<Key>) {
    forall i, j | 0 <= i < j < |split| :: !Collide(split[i], split[j])
  }

  method CollidesLater(split: seq<Key>, i: nat) returns (found: bool)
    requires i < |split|
    ensures found <==> exists j | i < j < |split| :: Collide(split[i], split[j])
  {
    for j := i + 1 to |split|
      invariant forall b | i < b < j :: !Collide(split[i], split[b])
    {
      if Collide(split[i], split[j]) {
        return true;
      }
    }
    return false;
  }

  method AllApart(split: seq<Key>) returns (ok: bool)
    ensures ok <==> Apart(split)
  {
    for i := 0 to |split|
      invariant forall a, b | 0 <= a < i && a < b < |split| :: !Collide(split[a], split[b])
    {
      var found := CollidesLater(split, i);
      if found {
        return false;
      }
    }
    return true;
  }

  lemma ApartMeansFree(paths: set<string>, keys: seq<string>, split: seq<Key>)
    requires (forall p :: p in keys <==> p in paths) && Distinct(keys) && |split| == |keys|
    requires forall i | 0 <= i < |keys| :: split[i] == Components(keys[i])
    ensures Apart(split) <==> CollisionFree(paths, Components)
  {
    if Apart(split) {
      forall a, b | a in paths && b in paths && a != b ensures !Collide(Components(a), Components(b)) {
        var i :| 0 <= i < |keys| && keys[i] == a;
        var j :| 0 <= j < |keys| && keys[j] == b;
        CollideBothWays(split[i], split[j]);
      }
    }
    if CollisionFree(paths, Components) {
      forall i, j | 0 <= i < j < |split| ensures !Collide(split[i], split[j]) {
        assert keys[i] in paths && keys[j] in paths;
      }
    }
  }

  lemma CollideBothWays(a: Key, b: Key)
    ensures Collide(a, b) <==> Collide(b, a)
  {
  }

  /** `validate_path_collisions` over the keys of the setup map. */
  method ValidatePathCollisions(paths: set<string>) returns (ok: bool)
    ensures ok <==> CollisionFree(paths, Components)
  {
    var keys := Sorted(paths);
    AscendingDistinct(keys);
    var split := seq(|keys|, i requires 0 <= i < |keys| => Components(keys[i]));
    ApartMeansFree(paths, keys, split);
    ok := AllApart(split);
  }

  // ----- trees ------------------------------------------------------------------------------------------

  /** `a` is `b` or a folder on the way to it. */
  predicate Under(a: Key, b: Key) {
    |a| <= |b| && a == b[..|a|]
  }

  predicate Ancestor(a: Key, b: Key) {
    |a| < |b| && Under(a, b)
  }

  /** No file is asked to be a folder as well. */
  ghost predicate Antichain(keys: set<Key>) {
    forall a, b | a in keys && b in keys :: !Ancestor(a, b)
  }

  ghost predicate OnTheWay(key: Key, written: map<Key, string>) {
    key == [] || exists k | k in written :: Under(key, k)
  }

  /** The tree holds exactly the files written and the folders leading to them. */
  ghost predicate Reflects(tree: Tree, written: map<Key, string>) {
    && (forall key :: key in tree <==> OnTheWay(key, written))
    && (forall key | key in tree :: tree[key] == if key in written then Contents(written[key]) else Folder)
  }

  lemma FilesAreInTree(tree: Tree, written: map<Key, string>, key: Key)
    requires Reflects(tree, written)
    ensures key in written ==> key in tree
  {
    if key in written {
      assert Under(key, key);
      assert OnTheWay(key, written);
    }
  }

  /** A folder stands where a file is to go exactly when the target is an
      ancestor of a file. */
  lemma TargetIsFolder(tree: Tree, written: map<Key, string>, key: Key)
    requires Reflects(tree, written) && Antichain(written.Keys) && key != []
    ensures key in tree && tree[key].Folder? <==> exists k | k in written :: Ancestor(key, k)
  {
    FilesAreInTree(tree, written, key);
    if k :| k in written && Ancestor(key, k) {
      assert Under(key, k);
      assert OnTheWay(key, written);
      assert key !in written;
    }
    if key in tree && tree[key].Folder? {
      assert OnTheWay(key, written) && key !in written;
      var k :| k in written && Under(key, k);
      assert k[..|k|] == k;
      assert Ancestor(key, k);
    }
  }

  predicate Passable(tree: Tree, folder: Key) {
    forall n | 0 <= n <= |folder| :: folder[..n] !in tree || tree[folder[..n]].Folder?
  }

  lemma UnderParent(key: Key, target: Key)
    requires target != []
    ensures Ancestor(key, target) <==> Under(key, target[..|target| - 1])
    ensures Under(key, target) <==> key == target || Under(key, target[..|target| - 1])
  {
    var folder := target[..|target| - 1];
    if |key| <= |folder| {
      assert folder[..|key|] == target[..|key|];
    }
  }

  /** Creating the parent folders fails exactly when one of them is a file. */
  lemma PassableExactly(tree: Tree, written: map<Key, string>, target: Key)
    requires Reflects(tree, written) && target != []
    ensures Passable(tree, target[..|target| - 1]) <==> forall k | k in written :: !Ancestor(k, target)
  {
    var folder := target[..|target| - 1];
    if Passable(tree, folder) {
      forall k | k in written ensures !Ancestor(k, target) {
        UnderParent(k, target);
        FilesAreInTree(tree, written, k);
      }
    } else {
      var n :| 0 <= n <= |folder| && folder[..n] in tree && tree[folder[..n]].Contents?;
      UnderParent(folder[..n], target);
      assert folder[..n] in written && Ancestor(folder[..n], target);
    }
  }

  /** `made` is `tree` with every folder up to `folder`. */
  ghost predicate Extended(tree: Tree, made: Tree, folder: Key) {
    && (forall key :: key in made <==> key in tree || Under(key, folder))
    && (forall key | key in made :: made[key] == if key in tree then tree[key] else Folder)
  }

  lemma OnTheWayAfter(key: Key, written: map<Key, string>, target: Key, text: string)
    ensures OnTheWay(key, written[target := text]) <==> OnTheWay(key, written) || Under(key, target)
  {
    var after := written[target := text];
    if k :| k in written && Under(key, k) {
      assert k in after;
    }
    assert target in after;
  }

  lemma StoredReflects(tree: Tree, made: Tree, written: map<Key, string>, target: Key, text: string)
    requires Reflects(tree, written) && target != []
    requires Extended(tree, made, target[..|target| - 1])
    ensures Reflects(made[target := Contents(text)], written[target := text])
  {
    var after := made[target := Contents(text)];
    forall key ensures key in after <==> OnTheWay(key, written[target := text]) {
      UnderParent(key, target);
      OnTheWayAfter(key, written, target, text);
    }
    forall key | key in after
      ensures after[key] == if key in written[target := text] then Contents(written[target := text][key]) else Folder
    {
      FilesAreInTree(tree, written, key);
    }
  }

  lemma AntichainStep(keys: set<Key>, target: Key)
    requires Antichain(keys)
    ensures Antichain(keys + {target}) <==> forall k | k in keys :: !Ancestor(k, target) && !Ancestor(target, k)
  {
  }

  // ----- the workspace --------------------------------------------------------------------------------

  class Workspace {
    var tree: Tree

    constructor ()
      ensures tree == map[[] := Folder]
    {
      tree := map[[] := Folder];
    }

    /** `create_dir_all`: an existing folder is fine, an existing file is not. */
    method CreateDirAll(folder: Key) returns (ok: bool)
      modifies this
      ensures ok <==> Passable(old(tree), folder)
      ensures ok ==> Extended(old(tree), tree, folder)
    {
      for n := 0 to |folder| + 1
        invariant forall m | 0 <= m < n :: folder[..m] !in old(tree) || old(tree)[folder[..m]].Folder?
        invariant forall key :: key in tree <==> key in old(tree) || (|key| < n && Under(key, folder))
        invariant forall key | key in tree :: tree[key] == if key in old(tree) then old(tree)[key] else Folder
      {
        var key := folder[..n];
        if key in tree {
          if tree[key].Contents? {
            return false;
          }
        } else {
          tree := tree[key := Folder];
        }
        assert forall k: Key | Under(k, folder) && |k| == n :: k == key;
      }
      return true;
    }

    /** `fs::write`, once the parent exists. */
    method Write(path: string, content: string) returns (ok: bool)
      modifies this
      ensures ok <==> NamesFile(path) && (Resolve(path) in old(tree) ==> old(tree)[Resolve(path)].Contents?)
      ensures tree == if ok then old(tree)[Resolve(path) := Contents(content)] else old(tree)
    {
      var key := Resolve(path);
      ok := NamesFile(path) && (key !in tree || tree[key].Contents?);
      if ok {
        tree := tree[key := Contents(content)];
      }
    }

    method StoreFile(path: string, content: string, ghost written: map<Key, string>) returns (ok: bool)
      requires Reflects(tree, written) && Antichain(written.Keys)
      modifies this
      ensures ok <==> NamesFile(path) && Antichain(written.Keys + {Resolve(path)})
      ensures ok ==> Reflects(tree, written[Resolve(path) := content])
    {
      var target := Resolve(path);
      AntichainStep(written.Keys, target);
      if target == [] {
        UnnamedTarget(path);
        return false;
      }
      ghost var before := tree;
      PassableExactly(tree, written, target);
      TargetIsFolder(tree, written, target);
      ok := CreateDirAll(target[..|target| - 1]);
      if ok {
        ghost var made := tree;
        UnderParent(target, target);
        ok := Write(path, content);
        StoredReflects(before, made, written, target, content);
      }
    }

    /** Written in key order into an empty workspace: this succeeds exactly when
        every path names a file and no file is an ancestor of another, and then
        the tree holds what the paths stand for and nothing else. */
    method MaterializeSetupFiles(files: map<string, string>) returns (ok: bool)
      requires tree == map[[] := Folder]
      modifies this
      ensures ok <==> Storable(files.Keys)
      ensures ok ==> Reflects(tree, Stored(Sorted(files.Keys), files))
    {
      var keys := Sorted(files.Keys);
      NothingStored(files);
      for n := 0 to |keys|
        invariant StoredSoFar(tree, keys, n, files)
      {
        ghost var written := Stored(keys[..n], files);
        ok := StoreFile(keys[n], files[keys[n]], written);
        if !ok {
          NotStorable(keys, n, files);
          return;
        }
        OneMoreStored(tree, keys, n, files);
      }
      AllStored(tree, keys, files);
      return true;
    }
  }

  lemma UnnamedTarget(path: string)
    requires Resolve(path) == []
    ensures !NamesFile(path)
  {
    if NamesFile(path) {
      LastIsSignificant(Components(path));
    }
  }

  // ----- what a set of paths stands for ------------------------------------------------------------------

  /** The files after writing `paths` in turn; a later one replaces an earlier. */
  function Stored(paths: seq<string>, files: map<string, string>): map<Key, string>
    requires forall p | p in paths :: p in files
  {
    if paths == [] then map[]
    else
      var last := paths[|paths| - 1];
      Stored(paths[..|paths| - 1], files)[Resolve(last) := files[last]]
  }

  ghost function Targets(paths: set<string>): set<Key> {
    Image(paths, Resolve)
  }

  ghost predicate Storable(paths: set<string>) {
    (forall p | p in paths :: NamesFile(p)) && Antichain(Targets(paths))
  }

  lemma {:induction false} StoredKeys(paths: seq<string>, files: map<string, string>)
    requires forall p | p in paths :: p in files
    ensures Stored(paths, files).Keys == set p | p in paths :: Resolve(p)
  {
    if paths != [] {
      StoredKeys(paths[..|paths| - 1], files);
      assert paths == paths[..|paths| - 1] + [paths[|paths| - 1]];
    }
  }

  ghost predicate StoredSoFar(tree: Tree, paths: seq<string>, n: nat, files: map<string, string>) {
    && n <= |paths| && (forall p | p in paths :: p in files)
    && (forall p | p in paths[..n] :: NamesFile(p))
    && Antichain(Stored(paths[..n], files).Keys)
    && Reflects(tree, Stored(paths[..n], files))
  }

  lemma NothingStored(files: map<string, string>)
    ensures StoredSoFar(map[[] := Folder], Sorted(files.Keys), 0, files)
  {
    assert Sorted(files.Keys)[..0] == [];
    assert Reflects(map[[] := Folder], map[]);
  }

  lemma OneMoreStored(tree: Tree, paths: seq<string>, n: nat, files: map<string, string>)
    requires n < |paths| && (forall p | p in paths :: p in files)
    requires forall p | p in paths[..n] :: NamesFile(p)
    requires NamesFile(paths[n]) && Antichain(Stored(paths[..n], files).Keys + {Resolve(paths[n])})
    requires Reflects(tree, Stored(paths[..n], files)[Resolve(paths[n]) := files[paths[n]]])
    ensures StoredSoFar(tree, paths, n + 1, files)
  {
    var next := paths[..n + 1];
    assert next[..n] == paths[..n] && next == paths[..n] + [paths[n]];
    assert Stored(next, files).Keys == Stored(paths[..n], files).Keys + {Resolve(paths[n])};
  }

  lemma AllStored(tree: Tree, paths: seq<string>, files: map<string, string>)
    requires StoredSoFar(tree, paths, |paths|, files)
    requires forall p :: p in paths <==> p in files.Keys
    ensures Storable(files.Keys) && Reflects(tree, Stored(paths, files))
  {
    assert paths[..|paths|] == paths;
    StoredKeys(paths, files);
    assert Stored(paths, files).Keys == Targets(files.Keys);
  }

  lemma NotStorable(paths: seq<string>, n: nat, files: map<string, string>)
    requires n < |paths| && forall p :: p in paths <==> p in files.Keys
    requires !(NamesFile(paths[n]) && Antichain(Stored(paths[..n], files).Keys + {Resolve(paths[n])}))
    ensures !Storable(files.Keys)
  {
    StoredKeys(paths[..n], files);
    assert paths[n] in files.Keys;
    assert Stored(paths[..n], files).Keys + {Resolve(paths[n])} <= Targets(files.Keys);
  }

  // ----- exactly the map's files -----------------------------------------------------------------------------

  ghost predicate Separate(paths: set<string>) {
    Injective(paths, Resolve)
  }

  /** One file per entry of the map, each with its own contents, and no other. */
  ghost predicate ExactlyTheFiles(tree: Tree, files: map<string, string>) {
    && (forall p | p in files :: Resolve(p) in tree && tree[Resolve(p)] == Contents(files[p]))
    && |FilesOf(tree)| == |files|
  }

  ghost function FilesOf(tree: Tree): set<Key> {
    set key | key in tree && tree[key].Contents?
  }

  lemma {:induction false} StoredContents(paths: seq<string>, files: map<string, string>, p: string)
    requires (forall q | q in paths :: q in files) && Separate(files.Keys) && p in paths
    ensures Resolve(p) in Stored(paths, files) && Stored(paths, files)[Resolve(p)] == files[p]
  {
    var front, last := paths[..|paths| - 1], paths[|paths| - 1];
    assert paths == front + [last];
    if p != last {
      StoredContents(front, files, p);
    }
  }

  lemma FilesOfStored(tree: Tree, written: map<Key, string>)
    requires Reflects(tree, written)
    ensures FilesOf(tree) == written.Keys
  {
    forall key ensures key in FilesOf(tree) <==> key in written {
      FilesAreInTree(tree, written, key);
    }
  }

  lemma SeparateContents(tree: Tree, paths: seq<string>, files: map<string, string>, p: string)
    requires (forall q | q in paths :: q in files) && Separate(files.Keys) && p in paths
    requires Reflects(tree, Stored(paths, files))
    ensures Resolve(p) in tree && tree[Resolve(p)] == Contents(files[p])
  {
    StoredContents(paths, files, p);
    FilesAreInTree(tree, Stored(paths, files), Resolve(p));
  }

  lemma StoredTargets(paths: seq<string>, files: map<string, string>)
    requires forall p :: p in paths <==> p in files.Keys
    ensures Stored(paths, files).Keys == Targets(files.Keys)
  {
    StoredKeys(paths, files);
  }

  lemma CountWhenSeparate(tree: Tree, paths: seq<string>, files: map<string, string>)
    requires forall p :: p in paths <==> p in files.Keys
    requires Reflects(tree, Stored(paths, files))
    ensures |FilesOf(tree)| == |files.Keys| <==> Separate(files.Keys)
  {
    FilesOfStored(tree, Stored(paths, files));
    StoredTargets(paths, files);
    ImageSize(files.Keys, Resolve);
  }

  lemma KeysSize<K, V>(m: map<K, V>)
    ensures |m.Keys| == |m|
  {
  }

  /** A completed setup left exactly the map's files precisely when no two of
      its paths resolve to the same file. */
  lemma ExactWhenSeparate(tree: Tree, paths: seq<string>, files: map<string, string>)
    requires forall p :: p in paths <==> p in files.Keys
    requires Reflects(tree, Stored(paths, files))
    ensures ExactlyTheFiles(tree, files) <==> Separate(files.Keys)
  {
    CountWhenSeparate(tree, paths, files);
    KeysSize(files);
    if Separate(files.Keys) {
      forall p | p in files ensures Resolve(p) in tree && tree[Resolve(p)] == Contents(files[p]) {
        SeparateContents(tree, paths, files, p);
      }
    }
  }

  // ----- the collision check against the workspace -------------------------------------------------------------

  /** No component is empty or `.`. */
  predicate Plain(path: string) {
    var parts := Components(path);
    forall i | 0 <= i < |parts| :: !Skipped(parts[i])
  }

  lemma PlainResolves(path: string)
    requires Plain(path)
    ensures Resolve(path) == Components(path) && NamesFile(path)
  {
    PlainSignificant(Components(path));
  }

  lemma CollideExactly(a: Key, b: Key)
    ensures Collide(a, b) <==> a == b || Ancestor(a, b) || Ancestor(b, a)
  {
    assert forall x: Key, y: Key :: IsComponentPrefix(x, y) ==> x == y[..|x|];
  }

  /** Any map of paths can be written out in full exactly when each names a file
      and no two collide as the file system resolves them. */
  lemma WrittenInFullExactly(paths: set<string>)
    ensures Storable(paths) && Separate(paths) <==>
      (forall p | p in paths :: NamesFile(p)) && CollisionFree(paths, Resolve)
  {
    if CollisionFree(paths, Resolve) {
      forall s, t | s in Targets(paths) && t in Targets(paths) ensures !Ancestor(s, t) {
        var a :| a in paths && Resolve(a) == s;
        var b :| b in paths && Resolve(b) == t;
        CollideExactly(s, t);
        assert a != b ==> !Collide(Resolve(a), Resolve(b));
      }
      forall a, b | a in paths && b in paths && a != b ensures Resolve(a) != Resolve(b) {
        assert !Collide(Resolve(a), Resolve(b));
      }
    }
    if Storable(paths) && Separate(paths) {
      forall a, b | a in paths && b in paths && a != b ensures !Collide(Resolve(a), Resolve(b)) {
        assert Resolve(a) in Targets(paths) && Resolve(b) in Targets(paths);
        CollideExactly(Resolve(a), Resolve(b));
      }
    }
  }

  lemma {:induction false} SignificantConcat(a: Key, b: Key)
    ensures Significant(a + b) == Significant(a) + Significant(b)
  {
    if a == [] {
      assert a + b == b;
    } else {
      assert (a + b)[1..] == a[1..] + b;
      SignificantConcat(a[1..], b);
    }
  }

  /** Component lists that collide resolve to files that collide. */
  lemma CollisionsResolve(a: Key, b: Key)
    requires Collide(a, b)
    ensures Collide(Significant(a), Significant(b))
  {
    if IsComponentPrefix(a, b) {
      PrefixResolves(a, b);
    } else if IsComponentPrefix(b, a) {
      PrefixResolves(b, a);
    }
  }

  lemma PrefixResolves(a: Key, b: Key)
    requires IsComponentPrefix(a, b)
    ensures Collide(Significant(a), Significant(b))
  {
    assert b == a + b[|a|..];
    SignificantConcat(a, b[|a|..]);
    if Significant(b[|a|..]) != [] {
      assert IsComponentPrefix(Significant(a), Significant(b));
    }
  }

  /** The check never rejects a map that can be written out in full, whatever
      its components. */
  lemma CheckNeverTooStrict(paths: set<string>)
    requires Storable(paths) && Separate(paths)
    ensures CollisionFree(paths, Components)
  {
    WrittenInFullExactly(paths);
    forall a, b | a in paths && b in paths && a != b ensures !Collide(Components(a), Components(b)) {
      assert !Collide(Resolve(a), Resolve(b));
      if Collide(Components(a), Components(b)) {
        CollisionsResolve(Components(a), Components(b));
      }
    }
  }

  /** For plain paths the check accepts exactly the maps that can be written out
      in full. */
  lemma CheckMeetsWorkspace(paths: set<string>)
    ensures Storable(paths) && Separate(paths) ==> CollisionFree(paths, Components)
    ensures (forall p | p in paths :: Plain(p)) && CollisionFree(paths, Components) ==>
      Storable(paths) && Separate(paths)
  {
    if Storable(paths) && Separate(paths) {
      CheckNeverTooStrict(paths);
    }
    if forall p | p in paths :: Plain(p) {
      PlainCheckMeetsWorkspace(paths);
    }
  }

  lemma PlainCheckMeetsWorkspace(paths: set<string>)
    requires forall p | p in paths :: Plain(p)
    ensures CollisionFree(paths, Components) <==> Storable(paths) && Separate(paths)
  {
    forall p | p in paths ensures Resolve(p) == Components(p) && NamesFile(p) {
      PlainResolves(p);
    }
    WrittenInFullExactly(paths);
    assert CollisionFree(paths, Resolve) <==> CollisionFree(paths, Components);
  }

  /** Whatever is written out in full had passed the check; and plain paths that
      pass it are always written out in full. */
  method CheckAndMaterialize(files: map<string, string>) returns (accepted: bool, complete: bool, tree: Tree)
    ensures accepted <==> CollisionFree(files.Keys, Components)
    ensures complete && ExactlyTheFiles(tree, files) ==> accepted
    ensures accepted && (forall p | p in files :: Plain(p)) ==> complete && ExactlyTheFiles(tree, files)
    ensures complete && ExactlyTheFiles(tree, files) <==>
      (forall p | p in files :: NamesFile(p)) && CollisionFree(files.Keys, Resolve)
    ensures complete ==> Reflects(tree, Stored(Sorted(files.Keys), files))
  {
    accepted := ValidatePathCollisions(files.Keys);
    CheckMeetsWorkspace(files.Keys);
    WrittenInFullExactly(files.Keys);
    var workspace := new Workspace();
    complete := workspace.MaterializeSetupFiles(files);
    tree := workspace.tree;
    if complete {
      ExactWhenSeparate(tree, Sorted(files.Keys), files);
    }
  }

  lemma PlainSpelling()
    ensures Components("a/b") == ["a", "b"] && Resolve("a/b") == ["a", "b"]
  {
    SplitSlashPlain("b");
    SplitSlashJoin("a", "b");
    assert "a" + "/" + "b" == "a/b";
    assert SplitSlash("a/b") == ["a", "b"];
    assert Lower("a") == "a" && Lower("b") == "b";
    assert Components("a/b") == ["a", "b"];
    PlainSignificant(["a", "b"]);
  }

  lemma DoubledSpelling()
    ensures Components("a//b") == ["a", "", "b"] && Resolve("a//b") == ["a", "b"]
  {
    SplitSlashPlain("b");
    SplitSlashJoin("", "b");
    SplitSlashJoin("a", "/b");
    assert "" + "/" + "b" == "/b" && "a" + "/" + "/b" == "a//b";
    assert SplitSlash("a//b") == ["a", "", "b"];
    assert Lower("a") == "a" && Lower("") == "" && Lower("b") == "b";
    assert Components("a//b") == ["a", "", "b"];
    SkipsMiddle("a", "b");
  }

  lemma SkipsMiddle(first: string, last: string)
    requires !Skipped(first) && !Skipped(last)
    ensures Significant([first, "", last]) == [first, last]
  {
    PlainSignificant([last]);
    assert ["", last][1..] == [last];
    assert [first, "", last][1..] == ["", last];
  }

  lemma TwoNames(p: string, q: string, name: string -> Key)
    requires !Collide(name(p), name(q)) && !Collide(name(q), name(p))
    ensures CollisionFree({p, q}, name)
  {
  }

  lemma OneTarget(p: string, q: string)
    requires Resolve(p) == Resolve(q)
    ensures Targets({p, q}) == {Resolve(p)}
    ensures p != q ==> !Separate({p, q})
  {
    var paths := {p, q};
    assert p in paths && q in paths;
  }

  lemma OneKeyAlone(key: Key)
    ensures Antichain({key})
  {
  }

  /** Two spellings that differ as components but name the same file. */
  lemma TwoSpellings(p: string, q: string)
    requires p != q && !Collide(Components(p), Components(q)) && !Collide(Components(q), Components(p))
    requires Resolve(p) == Resolve(q) && NamesFile(p) && NamesFile(q)
    ensures CollisionFree({p, q}, Components) && Storable({p, q}) && !Separate({p, q})
  {
    TwoNames(p, q, Components);
    OneTarget(p, q);
    OneKeyAlone(Resolve(p));
  }

  /** The same character up to ASCII case. */
  predicate SameLetter(c: char, d: char) {
    c == d || ('A' <= c <= 'Z' && d == c - 'A' + 'a') || ('A' <= d <= 'Z' && c == d - 'A' + 'a')
  }

  predicate SameLetters(a: string, b: string) {
    |a| == |b| && forall i | 0 <= i < |a| :: SameLetter(a[i], b[i])
  }

  lemma LowerExactly(a: string, b: string)
    ensures Lower(a) == Lower(b) <==> SameLetters(a, b)
  {
    if SameLetters(a, b) {
      forall i | 0 <= i < |a| ensures Lower(a)[i] == Lower(b)[i] {
        assert SameLetter(a[i], b[i]);
      }
    }
    if Lower(a) == Lower(b) {
      forall i | 0 <= i < |a| ensures SameLetter(a[i], b[i]) {
        assert Lower(a)[i] == Lower(b)[i];
      }
    }
  }

  lemma {:induction false} SplitLower(s: string)
    ensures Components(s) == SplitSlash(Lower(s))
  {
    if s == "" {
      assert Lower(s) == "";
      assert Components(s) == [""];
    } else {
      var lower := Lower(s);
      assert lower[1..] == Lower(s[1..]) && (lower[0] == '/' <==> s[0] == '/');
      SplitLower(s[1..]);
      var rest := SplitSlash(s[1..]);
      if s[0] == '/' {
        FoldCons("", rest);
        assert Lower("") == "";
      } else {
        FoldCons([s[0]] + rest[0], rest[1..]);
        FoldCons(rest[0], rest[1..]);
        assert [rest[0]] + rest[1..] == rest;
        assert Lower([s[0]] + rest[0]) == [lower[0]] + Lower(rest[0]);
      }
    }
  }

  lemma FoldCons(part: string, rest: seq<string>)
    ensures Fold([part] + rest) == [Lower(part)] + Fold(rest)
  {
  }

  /** Two paths that differ only in ASCII case are one path to the check and one
      file to the workspace. */
  lemma CaseNeverMatters(a: string, b: string)
    requires SameLetters(a, b)
    ensures Components(a) == Components(b) && Resolve(a) == Resolve(b)
    ensures a != b ==> !CollisionFree({a, b}, Components)
  {
    LowerExactly(a, b);
    SplitLower(a);
    SplitLower(b);
    if a != b {
      var paths := {a, b};
      assert a in paths && b in paths && Collide(Components(a), Components(b));
    }
  }

  /** Without plain components the check is too weak: it accepts two spellings
      of one file. */
  lemma EmptyComponentEscapes()
    ensures
      var paths := {"a/b", "a//b"};
      CollisionFree(paths, Components) && Storable(paths) && !Separate(paths)
  {
    PlainSpelling();
    DoubledSpelling();
    var x, y := Components("a/b"), Components("a//b");
    assert x[1] != y[1];
    assert "a/b"[2] != "a//b"[2];
    TwoSpellings("a/b", "a//b");
  }
}
