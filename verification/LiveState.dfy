/**
 The tree a producer keeps alive: the slot table and its path index in mutable
 fields, beside the encoding and version it publishes.
 */
module LiveState {
  import opened Wrappers
  import Sets
  import opened Codec
  import opened Manifest
  import opened SlotTable

  // ------------------------------------------------------ the abstract producer

  datatype View<T> = View(dirs: seq<DirEntry>, table: Table<T>, version: nat) {
    function Tree(): Tree { Manifest.Tree(dirs, table.Files()) }
  }

  /** Whether two directory lists differ, up to order: lengths first, then every
      new entry looked up among the old. */
  function DirsDiffer(previous: seq<DirEntry>, next: seq<DirEntry>): bool {
    |previous| != |next| ||
    exists i :: 0 <= i < |next| && Lookup(previous, next[i].relPath) != Some(next[i])
  }

  function Rescanned<T>(v: View<T>, dirs: seq<DirEntry>, scan: Scan<T>): View<T>
    requires |v.table.paths| == |v.table.slots|
  {
    var table := Folded(v.table, scan);
    if !DirsDiffer(v.dirs, dirs) && table.Files() == v.table.Files() then v
    else View(dirs, table, v.version + 1)
  }

  function DirSet(dirs: seq<DirEntry>): set<DirEntry> { set d | d in dirs }

  lemma {:induction false} DistinctDirsCount(dirs: seq<DirEntry>)
    requires DistinctDirs(dirs)
    ensures |DirSet(dirs)| == |dirs|
    decreases |dirs|
  {
    if dirs == [] {
      assert DirSet(dirs) == {};
    } else {
      var front, last := dirs[..|dirs| - 1], dirs[|dirs| - 1];
      DistinctDirsCount(front);
      assert DirSet(dirs) == DirSet(front) + {last};
      assert last !in DirSet(front);
    }
  }

  /** `DirsDiffer` is exact: equal lengths and one-way containment leave no room
      for an entry only the old list had. */
  lemma DirsDifferIsExact(previous: seq<DirEntry>, next: seq<DirEntry>)
    requires DistinctDirs(previous) && DistinctDirs(next)
    ensures DirsDiffer(previous, next) <==> DirSet(previous) != DirSet(next)
  {
    DistinctDirsCount(previous);
    DistinctDirsCount(next);
    forall d: DirEntry ensures Lookup(previous, d.relPath) == Some(d) <==> d in previous {
      LookupIsEntry(previous, d);
    }
    if !DirsDiffer(previous, next) {
      forall d | d in DirSet(next) ensures d in DirSet(previous) {
        var i :| 0 <= i < |next| && next[i] == d;
        assert Lookup(previous, next[i].relPath) == Some(next[i]);
      }
      Sets.SubsetOfSameSize(DirSet(next), DirSet(previous));
    } else if |previous| == |next| {
      var i :| 0 <= i < |next| && Lookup(previous, next[i].relPath) != Some(next[i]);
      assert next[i] in DirSet(next) && next[i] !in DirSet(previous);
    }
  }

  lemma {:induction false} LookupIsEntry(dirs: seq<DirEntry>, d: DirEntry)
    requires DistinctDirs(dirs)
    ensures Lookup(dirs, d.relPath) == Some(d) <==> d in dirs
    decreases |dirs|
  {
    if dirs != [] {
      LookupIsEntry(dirs[..|dirs| - 1], d);
      assert dirs == dirs[..|dirs| - 1] + [dirs[|dirs| - 1]];
    }
  }

  ghost predicate WellFormed<T>(v: View<T>) {
    v.table.Valid() && DistinctDirs(v.dirs) && InBounds(v.Tree())
  }

  /** What a rescan is given: real paths, one entry per directory, and a tree
      that fits the wire afterwards. */
  ghost predicate Scannable<T>(v: View<T>, dirs: seq<DirEntry>, scan: Scan<T>) {
    && |v.table.paths| == |v.table.slots|
    && PathsGiven(scan) && DistinctDirs(dirs)
    && InBounds(Rescanned(v, dirs, scan).Tree())
  }

  /** **The version counts publications.** A rescan either changes nothing at
      all, or raises the version by one and publishes different bytes. */
  lemma VersionRisesWithTheBytes<T>(v: View<T>, dirs: seq<DirEntry>, scan: Scan<T>)
    requires WellFormed(v) && Scannable(v, dirs, scan)
    ensures var w := Rescanned(v, dirs, scan);
            && WellFormed(w)
            && (EncodeTree(w.Tree()) == EncodeTree(v.Tree()) ==> w == v)
            && (EncodeTree(w.Tree()) != EncodeTree(v.Tree()) ==> w.version == v.version + 1)
  {
    hide InBounds, EncodeTree;
    var w := Rescanned(v, dirs, scan);
    FoldedIsTheScan(v.table, scan, 0);
    EncodingIsInjective(v.Tree(), w.Tree());
    if w != v && w.Tree() == v.Tree() {
      DirsDifferIsExact(v.dirs, dirs);
    }
  }

  lemma FoldedEntries<T>(t: Table<T>, scan: Scan<T>, p: Path)
    requires t.Valid() && PathsGiven(scan)
    ensures var files := Folded(t, scan).Files();
            && (Found(scan, p).Some? ==> Found(scan, p).value.0 in files)
            && (forall i :: 0 <= i < |files| && files[i].relPath == p != [] ==>
                  Found(scan, p).Some? && files[i] == Found(scan, p).value.0)
  {
    var r := Folded(t, scan);
    var files := r.Files();
    FoldedIsTheScan(t, scan, 0);
    if Found(scan, p).Some? {
      assert p in r.paths;
      var i :| 0 <= i < |r.paths| && r.paths[i] == p;
      FoldedIsTheScan(t, scan, i);
      assert files[i] == Found(scan, p).value.0;
    }
    forall i | 0 <= i < |files| && files[i].relPath == p != []
      ensures Found(scan, p).Some? && files[i] == Found(scan, p).value.0
    {
      FoldedIsTheScan(t, scan, i);
      assert files[i] == EntryOf(r.slots[i]);
    }
  }

  /** **Live entries are the scan.** After a rescan a path is live exactly when
      the scan lists it, with the scan's first entry for it. */
  lemma LiveEntriesAreTheScan<T>(v: View<T>, dirs: seq<DirEntry>, scan: Scan<T>, p: Path)
    requires WellFormed(v) && Scannable(v, dirs, scan)
    ensures var files := Rescanned(v, dirs, scan).Tree().files;
            && (Found(scan, p).Some? ==> Found(scan, p).value.0 in files)
            && (forall i :: 0 <= i < |files| && files[i].relPath == p != [] ==>
                  Found(scan, p).Some? && files[i] == Found(scan, p).value.0)
  {
    hide InBounds, Folded, Found;
    FoldedEntries(v.table, scan, p);
    assert Rescanned(v, dirs, scan).Tree().files == Folded(v.table, scan).Files();
  }

  // -------------------------------------------------- what a rescan publishes

  function LiveSet(files: seq<FileEntry>): set<FileEntry> { set f | f in files && !f.IsTombstone() }

  /** Nothing before place `i` of the scan has its path. */
  predicate FirstOfItsPath<T>(scan: Scan<T>, i: nat)
    requires i < |scan|
  {
    forall j :: 0 <= j < i ==> scan[j].0.relPath != scan[i].0.relPath
  }

  /** The entries a scan lists, a repeated path by its first entry only. */
  function Listed<T>(scan: Scan<T>): set<FileEntry> {
    set i | 0 <= i < |scan| && FirstOfItsPath(scan, i) :: scan[i].0
  }

  lemma {:induction false} FoundIsFirst<T>(scan: Scan<T>, i: nat)
    requires i < |scan| && FirstOfItsPath(scan, i)
    ensures Found(scan, scan[i].0.relPath) == Some(scan[i])
    decreases |scan|
  {
    var front := scan[..|scan| - 1];
    if i < |front| {
      assert front[i] == scan[i] && FirstOfItsPath(front, i);
      FoundIsFirst(front, i);
    } else {
      assert forall j :: 0 <= j < |front| ==> front[j] == scan[j];
    }
  }

  lemma {:induction false} FoundIsListed<T>(scan: Scan<T>, p: Path)
    ensures Found(scan, p).Some? ==> Found(scan, p).value.0 in Listed(scan)
    decreases |scan|
  {
    if Found(scan, p).Some? {
      var front := scan[..|scan| - 1];
      if Found(front, p).Some? {
        FoundIsListed(front, p);
        var i :| 0 <= i < |front| && FirstOfItsPath(front, i) && front[i].0 == Found(front, p).value.0;
        assert scan[i] == front[i] && FirstOfItsPath(scan, i);
      } else {
        var last := |scan| - 1;
        assert forall j :: 0 <= j < last ==> scan[j] == front[j];
        assert FirstOfItsPath(scan, last);
      }
    }
  }

  lemma ListedIsFound<T>(scan: Scan<T>, e: FileEntry)
    ensures e in Listed(scan) <==> Found(scan, e.relPath).Some? && Found(scan, e.relPath).value.0 == e
  {
    FoundIsListed(scan, e.relPath);
    if e in Listed(scan) {
      var i :| 0 <= i < |scan| && FirstOfItsPath(scan, i) && scan[i].0 == e;
      FoundIsFirst(scan, i);
    }
  }

  lemma LiveIsListed<T>(t: Table<T>, scan: Scan<T>)
    requires t.Valid() && PathsGiven(scan)
    ensures LiveSet(Folded(t, scan).Files()) == Listed(scan)
  {
    hide Folded, Found, Listed;
    forall e: FileEntry ensures e in LiveSet(Folded(t, scan).Files()) <==> e in Listed(scan) {
      ListedIsFound(scan, e);
      FoldedEntries(t, scan, e.relPath);
    }
  }

  /** A table that already lists what the scan does is left as it is. */
  lemma ListedAlready<T>(t: Table<T>, scan: Scan<T>)
    requires t.Valid() && PathsGiven(scan) && LiveSet(t.Files()) == Listed(scan)
    ensures Folded(t, scan) == t
  {
    hide Folded, Found, Listed;
    var r := Folded(t, scan);
    FoldedIsTheScan(t, scan, 0);
    SlotsAreAppended(t, scan);
    if NewPaths(t.paths, scan) != [] {
      var p := NewPaths(t.paths, scan)[0];
      NewPathsAre(t.paths, scan, p);
      KnownIfLive(t, scan, p);
    }
    assert r.paths == t.paths;
    forall i | 0 <= i < |r.slots| ensures r.slots[i] == t.slots[i] {
      FoldedIsTheScan(t, scan, i);
      SettledAlready(t, scan, i);
    }
  }

  lemma KnownIfLive<T>(t: Table<T>, scan: Scan<T>, p: Path)
    requires t.Valid() && PathsGiven(scan) && LiveSet(t.Files()) == Listed(scan)
    requires exists k :: 0 <= k < |scan| && scan[k].0.relPath == p
    ensures p in t.paths
  {
    hide Found, Listed;
    var e := Found(scan, p).value.0;
    ListedIsFound(scan, e);
    assert e in t.Files();
    var i :| 0 <= i < |t.slots| && t.Files()[i] == e;
    assert EntryOf(t.slots[i]) == e;
  }

  lemma SettledAlready<T>(t: Table<T>, scan: Scan<T>, i: nat)
    requires t.Valid() && LiveSet(t.Files()) == Listed(scan) && i < |t.slots|
    ensures t.slots[i] == match Found(scan, t.paths[i])
                          case None => None
                          case Some(file) => Settled(t.slots[i], file)
  {
    hide Found, Listed;
    var found := Found(scan, t.paths[i]);
    if t.slots[i].Some? {
      assert t.Files()[i] in LiveSet(t.Files());
      ListedIsFound(scan, t.slots[i].value.0);
    } else if found.Some? {
      ListedIsFound(scan, found.value.0);
      assert found.value.0 in LiveSet(t.Files());
      var j :| 0 <= j < |t.slots| && t.Files()[j] == found.value.0;
    }
  }

  /** **A rescan publishes what it was given.** The directories and the live
      files of the view are those of the scan; a view that changed carries the
      directory list as scanned; and it stays as it was exactly when it already
      showed both. */
  lemma RescanPublishesTheListing<T>(v: View<T>, dirs: seq<DirEntry>, scan: Scan<T>)
    requires WellFormed(v) && Scannable(v, dirs, scan)
    ensures var w := Rescanned(v, dirs, scan);
            && DirSet(w.dirs) == DirSet(dirs) && LiveSet(w.Tree().files) == Listed(scan)
            && (w != v ==> w.dirs == dirs && w.version == v.version + 1)
            && (w == v <==> DirSet(v.dirs) == DirSet(dirs) && LiveSet(v.Tree().files) == Listed(scan))
  {
    hide InBounds, Folded, Listed, DirsDiffer, DirSet;
    DirsDifferIsExact(v.dirs, dirs);
    LiveIsListed(v.table, scan);
    UnchangedListing(v.table, scan);
    if LiveSet(v.Tree().files) == Listed(scan) {
      ListedAlready(v.table, scan);
    }
  }

  // ---------------------------------------------------- the mutable producer

  /** How the fields carry a slot table: `indexOf` is a bijection from the paths
      ever seen onto the slots, and `files` and `slots` are live together. */
  ghost predicate Represents<T(!new)>(t: Table<T>, indexOf: map<Path, nat>, files: seq<FileEntry>,
                                      slots: seq<Option<T>>) {
    && t.Valid() && |files| == |slots| == |t.slots|
    && (forall i :: 0 <= i < |t.paths| ==> t.paths[i] in indexOf && indexOf[t.paths[i]] == i)
    && (forall p :: p in indexOf ==> indexOf[p] < |t.paths| && t.paths[indexOf[p]] == p)
    && (forall i :: 0 <= i < |files| ==> files[i] == EntryOf(t.slots[i]))
    && (forall i :: 0 <= i < |files| ==> slots[i] == PayloadOf(t.slots[i]))
  }

  function PayloadOf<T>(slot: Option<(FileEntry, T)>): Option<T> {
    match slot
    case None => None
    case Some((_, payload)) => Some(payload)
  }

  /** The code's own test for "nothing to do", made against the stored entry. */
  predicate Unchanged(previous: FileEntry, entry: FileEntry) {
    && previous.size == entry.size
    && previous.mode == entry.mode
    && previous.mtime == entry.mtime
    && !previous.IsTombstone()
  }

  /** Whether a scanned entry changes the table it is folded into. */
  predicate Changes<T>(t: Table<T>, entry: FileEntry)
    requires |t.paths| == |t.slots|
  {
    match IndexIn(t.paths, entry.relPath)
    case None => true
    case Some(i) => t.slots[i].None? || t.slots[i].value.0 != entry
  }

  lemma PutInPlace<T(!new)>(t: Table<T>, indexOf: map<Path, nat>, files: seq<FileEntry>,
                            slots: seq<Option<T>>, file: (FileEntry, T))
    requires Represents(t, indexOf, files, slots) && file.0.relPath in indexOf
    ensures var i := indexOf[file.0.relPath];
            && (Changes(t, file.0) <==> !Unchanged(files[i], file.0))
            && (Unchanged(files[i], file.0) ==> Put(t, file) == t)
            && (!Unchanged(files[i], file.0) ==>
                Represents(Put(t, file), indexOf, files[i := file.0], slots[i := Some(file.1)]))
  {
    var i := indexOf[file.0.relPath];
    assert IndexIn(t.paths, file.0.relPath) == Some(i);
    assert files[i] == EntryOf(t.slots[i]);
  }

  lemma PutAtEnd<T(!new)>(t: Table<T>, indexOf: map<Path, nat>, files: seq<FileEntry>,
                          slots: seq<Option<T>>, file: (FileEntry, T))
    requires Represents(t, indexOf, files, slots) && file.0.relPath !in indexOf && file.0.relPath != []
    ensures Changes(t, file.0)
    ensures Represents(Put(t, file), indexOf[file.0.relPath := |files|], files + [file.0],
                       slots + [Some(file.1)])
  {
    hide IndexIn;
    assert file.0.relPath !in t.paths;
    NotThere(t.paths, file.0.relPath);
    var p, n := file.0.relPath, |files|;
    var r := Put(t, file);
    assert r == Table(t.paths + [p], t.slots + [Some(file)]);
    PutIsValid(t, file);
  }

  lemma NotThere(paths: seq<Path>, p: Path)
    requires p !in paths
    ensures IndexIn(paths, p) == None
  {
  }

  lemma IndexIs<T>(t: Table<T>, i: nat)
    requires t.Valid() && i < |t.paths|
    ensures IndexIn(t.paths, t.paths[i]) == Some(i)
  {
  }

  /** A scan lists each path once, so whether an entry changes anything is
      decided by the table the scan started from. */
  lemma ChangesAreIndependent<T>(t: Table<T>, scan: Scan<T>, k: nat)
    requires t.Valid() && PathsGiven(scan) && DistinctPaths(scan) && k < |scan|
    ensures var now := PutAll(t, scan[..k]);
            |now.paths| == |now.slots| && (Changes(now, scan[k].0) <==> Changes(t, scan[k].0))
  {
    hide PutAll, Found, IndexIn;
    var front, p := scan[..k], scan[k].0.relPath;
    assert forall j :: 0 <= j < |front| ==> front[j] == scan[j];
    PutAllIsValid(t, front);
    var now := PutAll(t, front);
    if p in t.paths {
      var i :| 0 <= i < |t.paths| && t.paths[i] == p;
      assert now.paths[i] == p;
      IndexIs(t, i);
      IndexIs(now, i);
      PutAllSlots(t, front, i);
    } else if p in now.paths {
      var i :| 0 <= i < |now.paths| && now.paths[i] == p;
      PutAllSlots(t, front, i);
    }
  }

  lemma ChangeShows<T>(t: Table<T>, scan: Scan<T>, k: nat)
    requires t.Valid() && PathsGiven(scan)
    requires k < |FirstWins(scan)| && Changes(t, FirstWins(scan)[k].0)
    ensures Folded(t, scan) != t
  {
    hide Folded, Found, IndexIn, FirstWins;
    var first := FirstWins(scan);
    var p := first[k].0.relPath;
    FirstWinsIsDistinct(scan);
    FirstWinsFinds(scan, p);
    FoundInDistinct(first, k);
    FoldedIsTheScan(t, scan, 0);
    if Folded(t, scan) == t {
      assert first[k] in scan && p in t.paths;
      var i :| 0 <= i < |t.paths| && t.paths[i] == p;
      IndexIs(t, i);
      FoldedIsTheScan(t, scan, i);
    }
  }

  lemma VanishingShows<T>(t: Table<T>, scan: Scan<T>, i: nat)
    requires t.Valid() && PathsGiven(scan)
    requires var put := PutAll(t, FirstWins(scan));
             i < |put.slots| && put.slots[i].Some? && Found(scan, put.paths[i]).None?
    ensures Folded(t, scan) != t
  {
    hide Found, FirstWins, Put, PutAll;
    var first := FirstWins(scan);
    FirstWinsIsDistinct(scan);
    assert PathsGiven(first);
    PutAllIsValid(t, first);
    FirstWinsFinds(scan, PutAll(t, first).paths[i]);
    PutAllSlots(t, first, i);
  }

  /** The flag the fold raises is exactly "the listing changed". */
  lemma FlagIsExact<T>(t: Table<T>, scan: Scan<T>)
    requires t.Valid() && PathsGiven(scan)
    ensures var put := PutAll(t, FirstWins(scan));
            Folded(t, scan).Files() != t.Files() <==>
            || (exists k :: 0 <= k < |FirstWins(scan)| && Changes(t, FirstWins(scan)[k].0))
            || (exists i :: 0 <= i < |put.slots| && put.slots[i].Some? && Found(scan, put.paths[i]).None?)
  {
    hide Found, FirstWins, Put, PutAll, Changes;
    var first, put := FirstWins(scan), PutAll(t, FirstWins(scan));
    UnchangedListing(t, scan);
    if k :| 0 <= k < |first| && Changes(t, first[k].0) {
      ChangeShows(t, scan, k);
    } else if i :| 0 <= i < |put.slots| && put.slots[i].Some? && Found(scan, put.paths[i]).None? {
      VanishingShows(t, scan, i);
    } else {
      NothingPut(t, first);
      assert Folded(t, scan).slots == t.slots;
    }
  }

  lemma {:induction false} FoundInDistinct<T>(scan: Scan<T>, k: nat)
    requires DistinctPaths(scan) && k < |scan|
    ensures Found(scan, scan[k].0.relPath) == Some(scan[k])
    decreases |scan|
  {
    if k < |scan| - 1 {
      FoundInDistinct(scan[..|scan| - 1], k);
    } else {
      assert forall j :: 0 <= j < |scan| - 1 ==> scan[..|scan| - 1][j] == scan[j];
    }
  }

  lemma {:induction false} NothingPut<T>(t: Table<T>, scan: Scan<T>)
    requires |t.paths| == |t.slots|
    requires forall k :: 0 <= k < |scan| ==> !Changes(t, scan[k].0)
    ensures PutAll(t, scan) == t
    decreases |scan|
  {
    if scan != [] {
      NothingPut(t, scan[..|scan| - 1]);
    }
  }

  method DedupeFirstWins<T>(scan: Scan<T>) returns (out: Scan<T>)
    ensures out == FirstWins(scan)
  {
    var seen: set<Path> := {};
    out := [];
    for i := 0 to |scan|
      invariant out == FirstWins(scan[..i])
      invariant forall p :: p in seen <==> Found(scan[..i], p).Some?
    {
      assert scan[..i + 1][..i] == scan[..i];
      if scan[i].0.relPath in seen {
        assert out + [] == out;
      } else {
        seen := seen + {scan[i].0.relPath};
        out := out + [scan[i]];
      }
    }
    assert scan[..|scan|] == scan;
  }

  method CompareDirs(previous: seq<DirEntry>, next: seq<DirEntry>) returns (differ: bool)
    ensures differ == DirsDiffer(previous, next)
  {
    if |previous| != |next| {
      return true;
    }
    var at := IndexDirs(previous);
    for i := 0 to |next|
      invariant forall j :: 0 <= j < i ==> Lookup(previous, next[j].relPath) == Some(next[j])
    {
      LookupIsPosition(previous, next[i].relPath);
      if next[i].relPath !in at || previous[at[next[i].relPath]] != next[i] {
        return true;
      }
    }
    return false;
  }

  /** A copy of every field, to go back to when a rescan proves too large. */
  datatype Snapshot<T> = Snapshot(
    dirs: seq<DirEntry>, files: seq<FileEntry>, slots: seq<Option<T>>,
    indexOf: map<Path, nat>, encoded: Bytes, version: nat)

  class LiveState<T(!new)> {
    var dirs: seq<DirEntry>
    var files: seq<FileEntry>
    var slots: seq<Option<T>>
    var indexOf: map<Path, nat>
    var encoded: Bytes
    var version: nat
    ghost var table: Table<T>

    ghost predicate Valid()
      reads this
    {
      && Represents(table, indexOf, files, slots)
      && WellFormed(TheView())
      && encoded == EncodeTree(TheView().Tree())
    }

    ghost function TheView(): View<T>
      reads this
    {
      View(dirs, table, version)
    }

    function Fields(): Snapshot<T>
      reads this
    {
      Snapshot(dirs, files, slots, indexOf, encoded, version)
    }

    /** A share as first scanned: one slot a file, in order, at version 1. */
    constructor (dirs: seq<DirEntry>, scan: Scan<T>)
      requires PathsGiven(scan) && DistinctPaths(scan) && DistinctDirs(dirs)
      requires InBounds(Manifest.Tree(dirs, EntriesOf(scan)))
      ensures Valid()
      ensures TheView() == View(dirs, FirstTable(scan), 1)
      ensures |files| == |slots| == |scan|
      ensures forall i :: 0 <= i < |scan| ==> files[i] == scan[i].0 && slots[i] == Some(scan[i].1)
    {
      hide InBounds, EncodeTree;
      var index, entries, payloads := LayOut(scan);
      this.dirs, this.files, this.slots, this.indexOf := dirs, entries, payloads, index;
      this.encoded := EncodeTree(Manifest.Tree(dirs, entries));
      this.version := 1;
      this.table := FirstTable(scan);
      RepresentsFiles(FirstTable(scan), index, entries, payloads);
    }

    /** Fold a rescan in; the answer says whether anything changed. */
    method Apply(newDirs: seq<DirEntry>, scan: Scan<T>) returns (changed: bool)
      requires Valid() && Scannable(TheView(), newDirs, scan)
      modifies this
      ensures Valid()
      ensures TheView() == Rescanned(old(TheView()), newDirs, scan)
      ensures changed <==> encoded != old(encoded)
      ensures !changed ==> Fields() == old(Fields())
      ensures changed ==> dirs == newDirs && version == old(version) + 1
      ensures DirSet(dirs) == DirSet(newDirs) && LiveSet(files) == Listed(scan)
      ensures changed <==> DirSet(old(dirs)) != DirSet(newDirs) || LiveSet(old(files)) != Listed(scan)
    {
      hide InBounds, EncodeTree, Found, FirstWins, Put, PutAll, Changes, DirsDiffer, Vanished, Represents;
      hide DirSet, LiveSet, Listed;
      ghost var before := TheView();
      RescanPublishesTheListing(before, newDirs, scan);
      RepresentsFiles(table, indexOf, files, slots);
      VersionRisesWithTheBytes(before, newDirs, scan);
      FlagIsExact(table, scan);
      UnchangedListing(table, scan);
      var dirsChanged := CompareDirs(dirs, newDirs);
      var first := DedupeFirstWins(scan);
      var live, foldChanged := FoldEntries(scan, first);
      var vanished := ClearVanished(scan, live);
      RepresentsFiles(table, indexOf, files, slots);
      if !dirsChanged && !foldChanged && !vanished {
        return false;
      }
      dirs := newDirs;
      encoded := EncodeTree(Manifest.Tree(dirs, files));
      version := version + 1;
      return true;
    }

    /** Give one scanned file its slot. */
    method PutOne(file: (FileEntry, T)) returns (slot: nat, changed: bool)
      requires Represents(table, indexOf, files, slots) && file.0.relPath != []
      modifies `files, `slots, `indexOf, `table
      ensures Represents(table, indexOf, files, slots)
      ensures table == Put(old(table), file)
      ensures slot < |table.paths| && table.paths[slot] == file.0.relPath
      ensures changed <==> Changes(old(table), file.0)
      ensures !changed ==> files == old(files) && slots == old(slots) && indexOf == old(indexOf)
    {
      hide Put, Changes, Unchanged;
      var (entry, payload) := file;
      ghost var was := table;
      table := Put(table, file);
      if entry.relPath in indexOf {
        slot := indexOf[entry.relPath];
        PutInPlace(was, indexOf, files, slots, file);
        changed := !Unchanged(files[slot], entry);
        if changed {
          slots := slots[slot := Some(payload)];
          files := files[slot := entry];
        }
      } else {
        slot, changed := |files|, true;
        PutAtEnd(was, indexOf, files, slots, file);
        indexOf := indexOf[entry.relPath := slot];
        slots := slots + [Some(payload)];
        files := files + [entry];
      }
    }

    /** The first loop: every scanned file in turn. */
    method FoldEntries(ghost scan: Scan<T>, first: Scan<T>) returns (live: set<nat>, changed: bool)
      requires Represents(table, indexOf, files, slots)
      requires PathsGiven(scan) && first == FirstWins(scan)
      modifies `files, `slots, `indexOf, `table
      ensures Represents(table, indexOf, files, slots)
      ensures table == PutAll(old(table), first)
      ensures forall i: nat :: i in live <==> i < |table.paths| && Found(scan, table.paths[i]).Some?
      ensures changed <==> exists k :: 0 <= k < |first| && Changes(old(table), first[k].0)
      ensures !changed ==> files == old(files) && slots == old(slots) && indexOf == old(indexOf)
    {
      hide Found, FirstWins, Put, PutAll, Changes, Represents;
      FirstWinsIsDistinct(scan);
      RepresentsFiles(table, indexOf, files, slots);
      live, changed := {}, false;
      ghost var start := table;
      PutAllNothing(start);
      for k := 0 to |first|
        invariant Represents(table, indexOf, files, slots)
        invariant table == PutAll(start, first[..k])
        invariant LiveIn(live, table, first[..k])
        invariant changed <==> exists j :: 0 <= j < k && Changes(start, first[j].0)
        invariant !changed ==> files == old(files) && slots == old(slots) && indexOf == old(indexOf)
      {
        assert first[..k + 1] == first[..k] + [first[k]];
        PutAllSnoc(start, first[..k], first[k]);
        ChangesAreIndependent(start, first, k);
        RepresentsFiles(table, indexOf, files, slots);
        ghost var was := table;
        var slot, one := PutOne(first[k]);
        LiveSnoc(live, was, first[..k], first[k], slot);
        live, changed := live + {slot}, changed || one;
      }
      assert first[..|first|] == first;
      forall i | 0 <= i < |table.paths| ensures Found(first, table.paths[i]) == Found(scan, table.paths[i]) {
        FirstWinsFinds(scan, table.paths[i]);
      }
    }

    /** The second loop: tombstone what the scan no longer lists. */
    method ClearVanished(ghost scan: Scan<T>, live: set<nat>) returns (any: bool)
      requires Represents(table, indexOf, files, slots)
      requires forall i: nat :: i in live <==> i < |table.paths| && Found(scan, table.paths[i]).Some?
      modifies `files, `slots, `table
      ensures Represents(table, indexOf, files, slots)
      ensures table == Vanished(old(table), scan)
      ensures any <==> exists i :: 0 <= i < |old(table).slots| && old(table).slots[i].Some?
                                   && Found(scan, old(table).paths[i]).None?
      ensures !any ==> files == old(files) && slots == old(slots)
    {
      hide Found, Vanished, Represents;
      RepresentsFiles(table, indexOf, files, slots);
      ghost var start, was := files, slots;
      var cleared, kept, some := ClearSlots(files, slots, live);
      files, slots, any := cleared, kept, some;
      ClearedRepresents(table, indexOf, start, was, scan, live, files, slots);
      table := Vanished(table, scan);
    }

    method TakeSnapshot() returns (s: Snapshot<T>)
      ensures s == Fields()
    {
      s := Snapshot(dirs, files, slots, indexOf, encoded, version);
    }

    /** Put every field back, together with the table they stood for. */
    method Restore(previous: Snapshot<T>, ghost was: Table<T>)
      modifies this
      ensures Fields() == previous && table == was
    {
      dirs, files, slots := previous.dirs, previous.files, previous.slots;
      indexOf, encoded, version := previous.indexOf, previous.encoded, previous.version;
      table := was;
    }

    /** A rescan that would publish more than `cap` bytes is undone exactly. */
    method Update(newDirs: seq<DirEntry>, scan: Scan<T>, cap: nat) returns (published: bool)
      requires Valid() && Scannable(TheView(), newDirs, scan)
      modifies this
      ensures Valid()
      ensures var next := Rescanned(old(TheView()), newDirs, scan);
              && published == (next != old(TheView()) && |EncodeTree(next.Tree())| <= cap)
              && TheView() == (if published then next else old(TheView()))
      ensures !published ==> Fields() == old(Fields())
    {
      hide InBounds, EncodeTree, Rescanned;
      VersionRisesWithTheBytes(TheView(), newDirs, scan);
      ghost var was := table;
      var previous := TakeSnapshot();
      var changed := Apply(newDirs, scan);
      if !changed {
        return false;
      }
      if |encoded| > cap {
        Restore(previous, was);
        return false;
      }
      return true;
    }

    /** The payload a READ of this slot is served from. */
    method Slot(index: nat) returns (payload: Option<T>)
      requires Valid()
      ensures payload == if index < |table.slots| then PayloadOf(table.slots[index]) else None
    {
      payload := if index < |slots| then slots[index] else None;
    }
  }

  lemma RepresentsFiles<T(!new)>(t: Table<T>, indexOf: map<Path, nat>, files: seq<FileEntry>,
                                 slots: seq<Option<T>>)
    requires Represents(t, indexOf, files, slots)
    ensures t.Valid() && files == t.Files() && |files| == |slots|
  {
  }

  method LayOut<T(!new)>(scan: Scan<T>)
    returns (index: map<Path, nat>, entries: seq<FileEntry>, payloads: seq<Option<T>>)
    requires PathsGiven(scan) && DistinctPaths(scan)
    ensures Represents(FirstTable(scan), index, entries, payloads)
    ensures entries == EntriesOf(scan)
    ensures forall i :: 0 <= i < |scan| ==> payloads[i] == Some(scan[i].1)
  {
    hide Represents;
    index, entries, payloads := map[], [], [];
    for position := 0 to |scan|
      invariant LaidOut(scan, position, index, entries, payloads)
    {
      index := index[scan[position].0.relPath := position];
      entries := entries + [scan[position].0];
      payloads := payloads + [Some(scan[position].1)];
    }
    LaidOutRepresents(scan, index, entries, payloads);
  }

  /** The first `n` files of a scan have their slots. */
  ghost predicate LaidOut<T>(scan: Scan<T>, n: nat, index: map<Path, nat>, entries: seq<FileEntry>,
                             payloads: seq<Option<T>>) {
    && |entries| == |payloads| == n <= |scan|
    && (forall i :: 0 <= i < n ==> scan[i].0.relPath in index && index[scan[i].0.relPath] == i)
    && (forall p :: p in index ==> index[p] < n && scan[index[p]].0.relPath == p)
    && (forall i :: 0 <= i < n ==> entries[i] == scan[i].0 && payloads[i] == Some(scan[i].1))
  }

  lemma LaidOutRepresents<T(!new)>(scan: Scan<T>, index: map<Path, nat>, entries: seq<FileEntry>,
                                   payloads: seq<Option<T>>)
    requires PathsGiven(scan) && DistinctPaths(scan) && LaidOut(scan, |scan|, index, entries, payloads)
    ensures Represents(FirstTable(scan), index, entries, payloads)
  {
  }

  function EntriesOf<T>(scan: Scan<T>): seq<FileEntry> {
    seq(|scan|, i requires 0 <= i < |scan| => scan[i].0)
  }

  /** One slot a file, in the order given. */
  ghost function FirstTable<T>(scan: Scan<T>): Table<T> {
    Table(seq(|scan|, i requires 0 <= i < |scan| => scan[i].0.relPath),
          seq(|scan|, i requires 0 <= i < |scan| => Some(scan[i])))
  }

  /** A first listing is a rescan of nothing. */
  lemma FirstListingIsARescan<T>(scan: Scan<T>)
    requires PathsGiven(scan) && DistinctPaths(scan)
    ensures FirstTable(scan) == Folded(Table([], []), scan)
  {
    hide Found, Vanished, FirstWins, PutAll;
    DistinctIsFirst(scan);
    PutIntoNothing(scan);
    var t := FirstTable(scan);
    VanishedSlots(t, scan);
    forall i | 0 <= i < |scan| ensures Vanished(t, scan).slots[i] == t.slots[i] {
      assert t.paths[i] == scan[i].0.relPath;
      FoundInDistinct(scan, i);
    }
    assert Vanished(t, scan) == t;
  }

  lemma {:induction false} DistinctIsFirst<T>(scan: Scan<T>)
    requires DistinctPaths(scan)
    ensures FirstWins(scan) == scan
    decreases |scan|
  {
    if scan != [] {
      var front := scan[..|scan| - 1];
      DistinctIsFirst(front);
      assert forall j :: 0 <= j < |front| ==> front[j] == scan[j];
      assert scan == front + [scan[|scan| - 1]];
    }
  }

  lemma {:induction false} PutIntoNothing<T>(scan: Scan<T>)
    requires PathsGiven(scan) && DistinctPaths(scan)
    ensures PutAll(Table([], []), scan) == FirstTable(scan)
    decreases |scan|
  {
    hide IndexIn;
    if scan != [] {
      var front, last := scan[..|scan| - 1], scan[|scan| - 1];
      PutIntoNothing(front);
      assert forall j :: 0 <= j < |front| ==> front[j] == scan[j];
      var t := FirstTable(front);
      assert last.0.relPath !in t.paths;
      NotThere(t.paths, last.0.relPath);
      assert Put(t, last) == FirstTable(scan);
    }
  }

  lemma VanishedSlots<T>(t: Table<T>, scan: Scan<T>)
    requires |t.paths| == |t.slots|
    ensures var r := Vanished(t, scan);
            && r.paths == t.paths && |r.slots| == |t.slots|
            && (forall j :: 0 <= j < |t.slots| ==>
                  r.slots[j] == if Found(scan, t.paths[j]).None? then None else t.slots[j])
  {
    hide Found;
  }

  /** Tombstone every live slot not in `live`. */
  method ClearSlots<T(!new)>(files: seq<FileEntry>, slots: seq<Option<T>>, live: set<nat>)
    returns (f: seq<FileEntry>, s: seq<Option<T>>, any: bool)
    requires |files| == |slots|
    ensures |f| == |s| == |files|
    ensures forall j :: 0 <= j < |files| ==>
              && f[j] == (if !files[j].IsTombstone() && j !in live then TOMBSTONE else files[j])
              && s[j] == (if !files[j].IsTombstone() && j !in live then None else slots[j])
    ensures any <==> exists j :: 0 <= j < |files| && !files[j].IsTombstone() && j !in live
    ensures !any ==> f == files && s == slots
  {
    f, s, any := files, slots, false;
    for i := 0 to |files|
      invariant |f| == |s| == |files|
      invariant forall j :: i <= j < |files| ==> f[j] == files[j] && s[j] == slots[j]
      invariant forall j :: 0 <= j < i ==>
                  && f[j] == (if !files[j].IsTombstone() && j !in live then TOMBSTONE else files[j])
                  && s[j] == (if !files[j].IsTombstone() && j !in live then None else slots[j])
      invariant any <==> exists j :: 0 <= j < i && !files[j].IsTombstone() && j !in live
      invariant !any ==> f == files && s == slots
    {
      if !f[i].IsTombstone() && i !in live {
        f, s := f[i := TOMBSTONE], s[i := None];
        any := true;
      }
    }
  }

  /** Clearing what the scan no longer lists is what the table calls vanished. */
  lemma ClearedRepresents<T(!new)>(t: Table<T>, indexOf: map<Path, nat>, files: seq<FileEntry>,
                                   slots: seq<Option<T>>, scan: Scan<T>, live: set<nat>,
                                   f: seq<FileEntry>, s: seq<Option<T>>)
    requires Represents(t, indexOf, files, slots) && |f| == |s| == |files|
    requires forall i: nat :: i in live <==> i < |t.paths| && Found(scan, t.paths[i]).Some?
    requires forall j :: 0 <= j < |files| ==>
               && f[j] == (if !files[j].IsTombstone() && j !in live then TOMBSTONE else files[j])
               && s[j] == (if !files[j].IsTombstone() && j !in live then None else slots[j])
    ensures Represents(Vanished(t, scan), indexOf, f, s)
    ensures (exists j :: 0 <= j < |files| && !files[j].IsTombstone() && j !in live) <==>
            exists i :: 0 <= i < |t.slots| && t.slots[i].Some? && Found(scan, t.paths[i]).None?
  {
    hide Found, Vanished;
    VanishedSlots(t, scan);
    var r := Vanished(t, scan);
    forall j | 0 <= j < |files|
      ensures files[j].IsTombstone() <==> t.slots[j].None?
      ensures f[j] == EntryOf(r.slots[j]) && s[j] == PayloadOf(r.slots[j])
    {
      assert files[j] == EntryOf(t.slots[j]) && slots[j] == PayloadOf(t.slots[j]);
    }
  }

  lemma PutAllNothing<T>(t: Table<T>)
    requires |t.paths| == |t.slots|
    ensures PutAll(t, []) == t
  {
  }

  /** The slots whose path the scan lists. */
  ghost predicate LiveIn<T>(live: set<nat>, t: Table<T>, scan: Scan<T>) {
    forall i: nat :: i in live <==> i < |t.paths| && Found(scan, t.paths[i]).Some?
  }

  /** Folding one more entry makes exactly its own slot live as well. */
  lemma LiveSnoc<T>(live: set<nat>, was: Table<T>, front: Scan<T>, last: (FileEntry, T), slot: nat)
    requires was.Valid() && last.0.relPath != [] && LiveIn(live, was, front)
    requires var now := Put(was, last); slot < |now.paths| && now.paths[slot] == last.0.relPath
    ensures LiveIn(live + {slot}, Put(was, last), front + [last])
  {
    hide Found, Put;
    var now := Put(was, last);
    PutIsValid(was, last);
    assert |now.paths| > |was.paths| ==> last.0.relPath !in was.paths;
    forall i: nat ensures i in live + {slot} <==> i < |now.paths| && Found(front + [last], now.paths[i]).Some? {
      if i < |now.paths| {
        FoundSnoc(front, last, now.paths[i]);
        PutPathsAt(was, last, i);
        if |was.paths| <= i && now.paths[i] != last.0.relPath {
          assert false;
        }
      }
    }
  }

  lemma PutPathsAt<T>(t: Table<T>, file: (FileEntry, T), i: nat)
    requires |t.paths| == |t.slots| && i < |Put(t, file).paths|
    ensures i >= |t.paths| ==> Put(t, file).paths[i] == file.0.relPath
    ensures i < |t.paths| ==> Put(t, file).paths[i] == t.paths[i]
  {
  }
}
