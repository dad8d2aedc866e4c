/** The watcher tree: directories of directories, with named watchers in each. */
module Watchers {
  import opened Collections
  import opened WatcherNames

  // A watcher object; the value stands for what it watches.
  datatype Watcher = Watcher(path: string, name: string, value: nat)

  // A path cut into its directory and its last part, as the constructor of a watcher object and the
  // adding of one both do it.
  method CutPath(path: string) returns (szpath: string, name: string)
    requires Names(path)
    ensures szpath == Directory(path) && name == LastPart(path)
  {
    if SLASH !in path { return "", path; }
    var vec := KbeSplit(path, SLASH);
    name := vec[|vec| - 1];
    assert name == LastPart(path);
    szpath := path[..|path| - |name| - 1];
  }

  function NewWatcher(path: string, value: nat): Watcher
    requires Names(path)
  {
    Watcher(Directory(path), LastPart(path), value)
  }

  // A watcher object's name is the last part of the path it is made for.
  method MakeWatcher(path: string, value: nat) returns (w: Watcher)
    requires Names(path)
    ensures w == NewWatcher(path, value)
  {
    var szpath, name := CutPath(path);
    w := Watcher(szpath, name, value);
  }

  // Made for joined parts, it has the joined directory and the last part.
  lemma WatcherOfJoined(parts: seq<string>, value: nat)
    requires AreParts(parts) && parts != []
    ensures Names(Join(parts)) && NewWatcher(Join(parts), value) == Watcher(Join(parts[..|parts| - 1]), parts[|parts| - 1], value)
  {
    hide Split, Join, IsPart;
    SlashInJoin(parts);
    SplitUndoesJoin(parts);
    if |parts| >= 2 { EraseLastPart(parts); } else { JoinOne(parts); }
  }

  lemma JoinOne(parts: seq<string>)
    requires |parts| == 1
    ensures Join(parts) == parts[0] && Join(parts[..|parts| - 1]) == ""
  {
  }

  // Where a name comes to be in the tree when its directory's path is walked.
  function AddedAt(path: string, name: string): seq<string>
    requires Walk(path).Some?
  {
    Walk(path).value + [name]
  }

  lemma AddedBelow(path: string, name: string)
    requires path != "" && Walk(path).Some?
    ensures Split(path, SLASH) != []
    ensures var first := Split(path, SLASH)[0];
            var rest := EraseFront(path, |first| + 1);
            |rest| < |path| && Walk(rest).Some? && AddedAt(path, name) == [first] + AddedAt(rest, name)
  {
    hide Split, Walk;
    WalkStep(path);
  }

  // Paths of two or more parts by their first part and the others.
  lemma OneLevelUp(first: string, below: seq<string>)
    requires below != []
    ensures forall parts: seq<string> :: |parts| > 1 ==> (parts == [first] + below <==> parts[0] == first && parts[1..] == below)
  {
    forall parts: seq<string> | |parts| > 1
      ensures parts == [first] + below <==> parts[0] == first && parts[1..] == below
    {
      assert parts == [parts[0]] + parts[1..];
      assert ([first] + below)[1..] == below;
    }
  }

  // The watchers of one directory.
  class Watchers {
    var watcherObjs: map<string, Watcher>

    constructor ()
      ensures watcherObjs == map[]
    {
      watcherObjs := map[];
    }

    function Find(name: string): Option<Watcher>
      reads this
    {
      if name in watcherObjs then Some(watcherObjs[name]) else None
    }

    method AddWatcher(pwo: Watcher) returns (ok: bool)
      modifies this
      ensures ok == old(Find(pwo.name)).None?
      ensures watcherObjs == if ok then old(watcherObjs)[pwo.name := pwo] else old(watcherObjs)
    {
      if pwo.name in watcherObjs { return false; }
      watcherObjs := watcherObjs[pwo.name := pwo];
      return true;
    }

    method DelWatcher(name: string) returns (ok: bool)
      modifies this
      ensures ok == old(Find(name)).Some?
      ensures watcherObjs == old(watcherObjs) - {name}
    {
      if name !in watcherObjs { return false; }
      watcherObjs := watcherObjs - {name};
      return true;
    }
  }

  class WatcherPaths {
    var watcherPaths: map<string, WatcherPaths>
    const watchers: Watchers
    ghost var Repr: set<object>

    // A tree: no directory shares an object with another one.
    ghost predicate Valid()
      reads this, Repr
      decreases Repr
    {
      && this in Repr && watchers in Repr
      && (forall name :: name in watcherPaths ==>
            var child := watcherPaths[name];
            child in Repr && child.Repr <= Repr && this !in child.Repr && watchers !in child.Repr && child.Valid())
      && (forall n, m :: n in watcherPaths && m in watcherPaths && n != m ==> watcherPaths[n].Repr !! watcherPaths[m].Repr)
    }

    // The tree as a map from whole paths, given by their parts, to watchers.
    ghost function Lookup(parts: seq<string>): Option<Watcher>
      requires Valid()
      reads this, Repr
      decreases |parts|
    {
      if parts == [] then None
      else if |parts| == 1 then watchers.Find(parts[0])
      else if parts[0] in watcherPaths then watcherPaths[parts[0]].Lookup(parts[1..])
      else None
    }

    constructor ()
      ensures Valid() && fresh(Repr)
      ensures forall parts :: Lookup(parts) == None
    {
      watcherPaths := map[];
      watchers := new Watchers();
      new;
      Repr := {this, watchers};
    }

    // When only one directory's tree has changed, paths through it follow it and all others stay.
    twostate lemma DirectoryChanged(first: string)
      requires old(Valid()) && first in watcherPaths && watcherPaths == old(watcherPaths)
      requires var child := watcherPaths[first];
               child.Valid() && Repr == old(Repr) + child.Repr && fresh(child.Repr - old(child.Repr))
      requires forall o :: o in old(Repr) && o != this && o !in old(watcherPaths[first].Repr) ==> unchanged(o)
      ensures Valid()
      ensures forall parts :: Lookup(parts) == if |parts| > 1 && parts[0] == first then watcherPaths[first].Lookup(parts[1..])
                                               else old(Lookup(parts))
      ensures forall parts :: |parts| > 1 && parts[0] == first ==>
                old(Lookup(parts)) == old(watcherPaths[first].Lookup(parts[1..]))
    {
      forall name | name in watcherPaths && name != first
        ensures watcherPaths[name].Valid() && watcherPaths[name].Repr == old(watcherPaths[name].Repr)
      {
      }
    }

    // An empty directory changes no lookup.
    method EnsureDirectory(first: string)
      requires Valid()
      modifies this
      ensures Valid() && fresh(Repr - old(Repr)) && unchanged(old(Repr) - {this})
      ensures first in watcherPaths
      ensures forall parts :: Lookup(parts) == old(Lookup(parts))
    {
      if first !in watcherPaths {
        var child := new WatcherPaths();
        watcherPaths := watcherPaths[first := child];
        Repr := Repr + child.Repr;
      }
    }

    // The recursive walk: one directory after the other is cut off the path.
    method AddIn(path: string, pwo: Watcher) returns (ok: bool)
      requires Valid() && Walk(path).Some?
      modifies Repr
      ensures Valid() && fresh(Repr - old(Repr))
      ensures var added := AddedAt(path, pwo.name);
              && ok == old(Lookup(added)).None?
              && forall other :: Lookup(other) == if ok && other == added then Some(pwo) else old(Lookup(other))
      decreases |path|, 1
    {
      if |path| > 0 {
        ok := AddUnder(path, pwo);
      } else {
        assert AddedAt(path, pwo.name) == [pwo.name];
        ok := AddHere(pwo);
      }
    }

    method AddUnder(path: string, pwo: Watcher) returns (ok: bool)
      requires Valid() && path != "" && Walk(path).Some?
      modifies Repr
      ensures Valid() && fresh(Repr - old(Repr))
      ensures var added := AddedAt(path, pwo.name);
              && ok == old(Lookup(added)).None?
              && forall other :: Lookup(other) == if ok && other == added then Some(pwo) else old(Lookup(other))
      decreases |path|, 0
    {
      hide *;
      AddedBelow(path, pwo.name);
      var vec := KbeSplit(path, SLASH);
      var rest := EraseFront(path, |vec[0]| + 1);
      ok := AddThrough(vec[0], rest, pwo, AddedAt(path, pwo.name));
    }

    method AddThrough(first: string, rest: string, pwo: Watcher, ghost added: seq<string>) returns (ok: bool)
      requires Valid() && Walk(rest).Some? && added == [first] + AddedAt(rest, pwo.name)
      modifies Repr
      ensures Valid() && fresh(Repr - old(Repr))
      ensures ok == old(Lookup(added)).None?
      ensures forall other :: Lookup(other) == if ok && other == added then Some(pwo) else old(Lookup(other))
      decreases |rest|, 3
    {
      assert this in Repr;
      hide *;
      EnsureDirectory(first);
      ok := AddBelow(first, rest, pwo, added);
    }

    method AddHere(pwo: Watcher) returns (ok: bool)
      requires Valid()
      modifies Repr
      ensures Valid() && Repr == old(Repr)
      ensures ok == old(Lookup([pwo.name])).None?
      ensures forall other :: Lookup(other) == if ok && other == [pwo.name] then Some(pwo) else old(Lookup(other))
    {
      ok := watchers.AddWatcher(pwo);
    }

    method AddBelow(first: string, rest: string, pwo: Watcher, ghost added: seq<string>) returns (ok: bool)
      requires Valid() && first in watcherPaths && Walk(rest).Some? && added == [first] + AddedAt(rest, pwo.name)
      modifies Repr
      ensures Valid() && fresh(Repr - old(Repr))
      ensures ok == old(Lookup(added)).None?
      ensures forall other :: Lookup(other) == if ok && other == added then Some(pwo) else old(Lookup(other))
      decreases |rest|, 2
    {
      ok := watcherPaths[first].AddIn(rest, pwo);
      Repr := Repr + watcherPaths[first].Repr;
      DirectoryChanged(first);
      OneLevelUp(first, AddedAt(rest, pwo.name));
    }

    // Adding a watcher at a path: the walk takes it through the path's directory, its own name comes last.
    method AddWatcher(path: string, pwo: Watcher) returns (ok: bool)
      requires Valid() && WhereAdded(path).Some?
      modifies Repr
      ensures Valid() && fresh(Repr - old(Repr))
      ensures var added := AddedAt(Directory(path), pwo.name);
              && ok == old(Lookup(added)).None?
              && forall other :: Lookup(other) == if ok && other == added then Some(pwo) else old(Lookup(other))
    {
      hide Valid, Lookup, Walk;
      var szpath, name := CutPath(path);
      ok := AddIn(szpath, pwo);
    }

    // The directory a list of parts leads to.
    ghost function NodeAt(dir: seq<string>): (node: WatcherPaths?)
      requires Valid()
      reads this, Repr
      ensures node != null ==> node in Repr && node.Repr <= Repr && node.Valid()
      decreases |dir|
    {
      if dir == [] then this
      else if dir[0] in watcherPaths then watcherPaths[dir[0]].NodeAt(dir[1..])
      else null
    }

    lemma {:induction false} LookupIsAtNode(dir: seq<string>, name: string)
      requires Valid()
      ensures Lookup(dir + [name]) == if NodeAt(dir) == null then None else NodeAt(dir).watchers.Find(name)
      decreases |dir|
    {
      var parts := dir + [name];
      if dir != [] {
        assert parts[0] == dir[0] && parts[1..] == dir[1..] + [name];
        if dir[0] in watcherPaths { watcherPaths[dir[0]].LookupIsAtNode(dir[1..], name); }
      }
    }

    // The iterative walk.
    method FindNode(dir: seq<string>) returns (node: WatcherPaths?)
      requires Valid()
      ensures node == NodeAt(dir)
    {
      node := this;
      var i := 0;
      assert dir[0..] == dir;
      while i < |dir|
        invariant i <= |dir| && node != null && node.Valid()
        invariant node.NodeAt(dir[i..]) == NodeAt(dir)
      {
        if dir[i] !in node.watcherPaths { return null; }
        assert dir[i..][1..] == dir[i + 1..];
        node := node.watcherPaths[dir[i]];
        i := i + 1;
      }
    }

    // Only the directory is looked for, not the watcher.
    method HasWatcher(fullpath: string) returns (r: bool)
      requires Valid() && Split(fullpath, SLASH) != []
      ensures var parts := Split(fullpath, SLASH);
              r == (|parts| >= 2 && NodeAt(parts[..|parts| - 1]) != null)
    {
      hide Valid, Lookup, NodeAt, Split;
      var vec := KbeSplit(fullpath, SLASH);
      if |vec| == 1 { return false; }
      var node := FindNode(vec[..|vec| - 1]);
      r := node != null;
    }

    method GetWatcher(fullpath: string) returns (r: Option<Watcher>)
      requires Valid() && Split(fullpath, SLASH) != []
      ensures var parts := Split(fullpath, SLASH);
              r == if |parts| >= 2 then Lookup(parts) else None
    {
      hide Valid, Lookup, NodeAt, Split;
      var known := HasWatcher(fullpath);
      var vec := KbeSplit(fullpath, SLASH);
      var dir, name := vec[..|vec| - 1], vec[|vec| - 1];
      assert vec == dir + [name];
      LookupIsAtNode(dir, name);
      if !known || |vec| == 1 { return None; }
      var node := FindNode(dir);
      if node == null { return None; }
      r := node.watchers.Find(name);
    }

    // The directories passed on the way to a node, this one first.
    ghost predicate IsWay(way: seq<WatcherPaths>, dir: seq<string>)
      requires Valid()
      reads this, Repr
    {
      && |way| == |dir| + 1 && way[0] == this
      && (forall k :: 0 <= k < |way| ==> way[k] in Repr && way[k].Repr <= Repr && way[k].Valid())
      && (forall k :: 0 <= k < |dir| ==> dir[k] in way[k].watcherPaths && way[k].watcherPaths[dir[k]] == way[k + 1])
      && (forall k :: 0 <= k < |dir| ==> way[k + 1].Repr <= way[k].Repr)
      && (forall k :: 0 <= k < |way| ==> way[|dir|].watchers in way[k].Repr)
    }

    ghost function Way(dir: seq<string>): (way: seq<WatcherPaths>)
      requires Valid() && NodeAt(dir) != null
      reads this, Repr
      ensures IsWay(way, dir) && way[|dir|] == NodeAt(dir)
      decreases |dir|
    {
      if dir == [] then [this]
      else [this] + watcherPaths[dir[0]].Way(dir[1..])
    }

    twostate lemma WatcherGoneHere(name: string)
      requires old(Valid())
      requires watchers.watcherObjs == old(watchers.watcherObjs) - {name}
      requires forall o :: o in old(Repr) && o != watchers ==> unchanged(o)
      ensures Valid() && Repr == old(Repr)
      ensures forall parts :: Lookup(parts) == if parts == [name] then None else old(Lookup(parts))
    {
      forall child | child in watcherPaths
        ensures watcherPaths[child].Valid() && watcherPaths[child].Repr == old(watcherPaths[child].Repr)
      {
      }
    }

    // When only a watcher of one directory has gone, only that path has.
    twostate lemma WatcherGone(way: seq<WatcherPaths>, new dir: seq<string>, new name: string)
      requires old(Valid()) && old(IsWay(way, dir))
      requires var changed := way[|dir|].watchers;
               && changed.watcherObjs == old(changed.watcherObjs) - {name}
               && (forall o :: o in old(Repr) && o != changed ==> unchanged(o))
      ensures Valid() && Repr == old(Repr)
      ensures forall parts :: Lookup(parts) == if parts == dir + [name] then None else old(Lookup(parts))
    {
      hide Valid, Lookup, NodeAt;
      var k, gone := |dir|, [name];
      way[k].WatcherGoneHere(name);
      while k > 0
        invariant k <= |dir| && gone == dir[k..] + [name]
        invariant way[k].Valid() && way[k].Repr == old(way[k].Repr)
        invariant forall parts :: way[k].Lookup(parts) == if parts == gone then None else old(way[k].Lookup(parts))
      {
        k := k - 1;
        way[k].DirectoryChanged(dir[k]);
        OneLevelUp(dir[k], gone);
        gone := [dir[k]] + gone;
      }
      assert dir[0..] == dir;
    }

    method DelAt(node: WatcherPaths, name: string, ghost dir: seq<string>) returns (ok: bool)
      requires Valid() && node == NodeAt(dir)
      modifies Repr
      ensures Valid() && Repr == old(Repr)
      ensures ok == old(Lookup(dir + [name])).Some?
      ensures forall other :: Lookup(other) == if other == dir + [name] then None else old(Lookup(other))
    {
      LookupIsAtNode(dir, name);
      ghost var way := Way(dir);
      ok := node.watchers.DelWatcher(name);
      WatcherGone(way, dir, name);
    }

    method DelWatcher(fullpath: string) returns (ok: bool)
      requires Valid() && Split(fullpath, SLASH) != []
      modifies Repr
      ensures Valid() && Repr == old(Repr)
      ensures var parts := Split(fullpath, SLASH);
              && ok == (|parts| >= 2 && old(Lookup(parts)).Some?)
              && forall other :: Lookup(other) == if ok && other == parts then None else old(Lookup(other))
    {
      hide Valid, Lookup, NodeAt, Split;
      var known := HasWatcher(fullpath);
      var vec := KbeSplit(fullpath, SLASH);
      var dir, name := vec[..|vec| - 1], vec[|vec| - 1];
      assert vec == dir + [name];
      LookupIsAtNode(dir, name);
      if !known || |vec| == 1 { return false; }
      var node := FindNode(dir);
      if node == null { return false; }
      ok := DelAt(node, name, dir);
    }

    // A listing cuts its path like the walk, and stops early where a directory is missing: only then may
    // the path run out of parts.
    ghost predicate Listable(path: string)
      requires Valid()
      reads this, Repr
      decreases |path|
    {
      var parts := Split(path, SLASH);
      path != "" ==>
        && parts != []
        && (parts[0] in watcherPaths ==> watcherPaths[parts[0]].Listable(EraseFront(path, |parts[0]| + 1)))
    }

    ghost function NodeOnWalk(path: string): (node: WatcherPaths?)
      requires Valid()
      reads this, Repr
      ensures node != null ==> node in Repr
    {
      if Walk(path).None? then null else NodeAt(Walk(path).value)
    }

    lemma NodeIsBelow(path: string, first: string, rest: string)
      requires Valid() && path != "" && Listable(path)
      requires first == Split(path, SLASH)[0] && rest == EraseFront(path, |first| + 1)
      ensures NodeOnWalk(path) == if first in watcherPaths then watcherPaths[first].NodeOnWalk(rest) else null
    {
      WalkStep(path);
      hide Split, Walk;
      if Walk(rest).Some? { assert ([first] + Walk(rest).value)[1..] == Walk(rest).value; }
    }

    // The recursive walk of a listing: the names in the directory, sub-directories first.
    method DirPath(path: string, vec: seq<string>) returns (longer: seq<string>)
      requires Valid() && Listable(path)
      ensures var node := NodeOnWalk(path);
              if node == null then longer == vec
              else exists dirs, names ::
                Lists(dirs, node.watcherPaths.Keys) && Lists(names, node.watchers.watcherObjs.Keys) && longer == vec + dirs + names
      decreases |path|
    {
      if |path| == 0 {
        var dirs := Enumerate(watcherPaths.Keys);
        var names := Enumerate(watchers.watcherObjs.Keys);
        longer := vec + dirs + names;
      } else {
        var tvec := KbeSplit(path, SLASH);
        var rest := EraseFront(path, |tvec[0]| + 1);
        NodeIsBelow(path, tvec[0], rest);
        if tvec[0] in watcherPaths {
          longer := watcherPaths[tvec[0]].DirPath(rest, vec);
        } else {
          longer := vec;
        }
      }
    }

    // The recursive walk that writes out the watchers of a directory.
    method ReadWatchers(path: string, s: seq<Watcher>) returns (longer: seq<Watcher>)
      requires Valid() && Listable(path)
      ensures var node := NodeOnWalk(path);
              if node == null then longer == s
              else exists names ::
                Lists(names, node.watchers.watcherObjs.Keys) && |longer| == |s| + |names| && s <= longer
                && forall k :: 0 <= k < |names| ==> node.watchers.Find(names[k]) == Some(longer[|s| + k])
      decreases |path|
    {
      if |path| == 0 {
        var names := Enumerate(watchers.watcherObjs.Keys);
        longer := s + Named(watchers.watcherObjs, names);
      } else {
        var vec := KbeSplit(path, SLASH);
        var rest := EraseFront(path, |vec[0]| + 1);
        NodeIsBelow(path, vec[0], rest);
        if vec[0] in watcherPaths {
          longer := watcherPaths[vec[0]].ReadWatchers(rest, s);
        } else {
          longer := s;
        }
      }
    }

    // Over every run of additions and removals the tree is the flat map.
    method Perform(op: Op) returns (ok: bool)
      requires Valid() && PathFits(op)
      modifies Repr
      ensures Valid() && fresh(Repr - old(Repr))
      ensures forall flat :: old(Refines(flat)) ==> Refines(Step(flat, op)) && ok == Succeeds(flat, op)
    {
      match op
      case Add(path, value) =>
        var pwo := MakeWatcher(path, value);
        ok := AddWatcher(path, pwo);
      case Remove(path) =>
        ok := DelWatcher(path);
    }

    ghost predicate Refines(flat: map<seq<string>, Watcher>)
      requires Valid()
      reads this, Repr
    {
      forall parts :: Lookup(parts) == if parts in flat then Some(flat[parts]) else None
    }

    method PerformAll(ops: seq<Op>)
      requires Valid() && Refines(map[]) && forall op <- ops :: PathFits(op)
      modifies Repr
      ensures Valid() && Refines(Run(ops))
    {
      var i := 0;
      assert ops[..0] == [];
      while i < |ops|
        invariant i <= |ops| && Valid() && Refines(Run(ops[..i])) && fresh(Repr - old(Repr))
      {
        assert ops[..i + 1][..i] == ops[..i];
        var _ := Perform(ops[i]);
        i := i + 1;
      }
      assert ops[..|ops|] == ops;
    }
  }

  // The elements of a set, each once.
  ghost predicate Lists(names: seq<string>, all: set<string>) {
    (forall name :: name in names <==> name in all) && forall i, j :: 0 <= i < j < |names| ==> names[i] != names[j]
  }

  method Enumerate(all: set<string>) returns (names: seq<string>)
    ensures Lists(names, all)
  {
    names := [];
    var left := all;
    while left != {}
      invariant left <= all && Lists(names, all - left)
      decreases |left|
    {
      ghost var _ := SomeElement(left);
      var name :| name in left;
      names := names + [name];
      left := left - {name};
    }
  }

  function Named(objs: map<string, Watcher>, names: seq<string>): seq<Watcher>
    requires forall name <- names :: name in objs
  {
    seq(|names|, i requires 0 <= i < |names| => objs[names[i]])
  }

  // Runs on a flat map from whole paths to watchers.
  datatype Op = Add(path: string, value: nat) | Remove(path: string)

  // An addition needs a path whose walk finds its parts, a removal a path with a part.
  predicate PathFits(op: Op) {
    if op.Add? then WhereAdded(op.path).Some? else Split(op.path, SLASH) != []
  }

  predicate Succeeds(flat: map<seq<string>, Watcher>, op: Op)
    requires PathFits(op)
  {
    match op
    case Add(path, _) => WhereAdded(path).value !in flat
    case Remove(path) => |Split(path, SLASH)| >= 2 && Split(path, SLASH) in flat
  }

  function Step(flat: map<seq<string>, Watcher>, op: Op): map<seq<string>, Watcher>
    requires PathFits(op)
  {
    if !Succeeds(flat, op) then flat
    else match op
      case Add(path, value) => flat[WhereAdded(path).value := NewWatcher(path, value)]
      case Remove(path) => flat - {Split(path, SLASH)}
  }

  function Run(ops: seq<Op>): map<seq<string>, Watcher>
    requires forall op <- ops :: PathFits(op)
  {
    if ops == [] then map[] else Step(Run(ops[..|ops| - 1]), ops[|ops| - 1])
  }

  // What a fetch returns.
  function Fetched(flat: map<seq<string>, Watcher>, path: string): Option<Watcher> {
    var parts := Split(path, SLASH);
    if |parts| >= 2 && parts in flat then Some(flat[parts]) else None
  }

  // A watcher added to an empty tree is fetched by its own path exactly when the path has two parts or
  // more and no more slashes than parts.
  lemma AddedIsFetchedExactly(path: string, value: nat)
    requires path != "" && WhereAdded(path).Some?
    ensures Fetched(Step(map[], Add(path, value)), path) == Some(NewWatcher(path, value))
            <==> 2 <= |Split(path, SLASH)| && CountSlashes(path) <= |Split(path, SLASH)|
  {
    hide Split, Walk;
    AddedWhereSplitExactly(path);
  }

  // Joined parts are such a path.
  lemma JoinedIsFetched(parts: seq<string>, value: nat)
    requires AreParts(parts) && |parts| >= 2
    ensures var path := Join(parts);
            && WhereAdded(path) == Some(parts)
            && Fetched(Step(map[], Add(path, value)), path) == Some(NewWatcher(path, value))
  {
    hide Split, Walk;
    SplitUndoesJoin(parts);
    JoinedHasFewSlashes(parts);
    AddedWhereSplitExactly(Join(parts));
    AddedIsFetchedExactly(Join(parts), value);
  }
}
