/**
 The delta a native producer sends with a rescan, and when its followers can use
 it.

 A follower folds the delta into the tree it holds and wants the signature to
 cover what comes out, so the delta helps only if that is, byte for byte, the
 tree that was signed.
 */
module LiveTree {
  import opened Wrappers
  import opened Codec
  import opened Manifest
  import opened Authorship
  import opened Framing
  import opened Watch
  import opened SlotTable
  import opened LiveState

  // -------------------------------------------------------------------- the delta

  /** The listed directories that are new or differ from what is known of their
      path, as listed. */
  function Upserted(known: seq<DirEntry>, dirs: seq<DirEntry>): seq<DirEntry> {
    if dirs == [] then []
    else
      var d := dirs[|dirs| - 1];
      Upserted(known, dirs[..|dirs| - 1]) + if Lookup(known, d.relPath) != Some(d) then [d] else []
  }

  function PathsOf(dirs: seq<DirEntry>): set<Path> { set d | d in dirs :: d.relPath }

  /** The known directories no longer listed. */
  function Gone(known: seq<DirEntry>, dirs: seq<DirEntry>): seq<Path> {
    if known == [] then []
    else
      var d := known[|known| - 1];
      Gone(known[..|known| - 1], dirs) + if d.relPath in PathsOf(dirs) then [] else [d.relPath]
  }

  function SlotOf<T>(t: Table<T>, p: Path): nat {
    if IndexIn(t.paths, p).Some? then IndexIn(t.paths, p).value else |t.paths|
  }

  /** Every entry that changed its slot as it was folded, with that slot. */
  function Edits<T>(t: Table<T>, scan: Scan<T>): seq<(nat, FileEntry)>
    requires |t.paths| == |t.slots|
    decreases |scan|
  {
    if scan == [] then []
    else
      var front, entry := scan[..|scan| - 1], scan[|scan| - 1].0;
      var now := PutAll(t, front);
      Edits(t, front) + if Changes(now, entry) then [(SlotOf(now, entry.relPath), entry)] else []
  }

  /** The live slots among the first `n` whose path the scan no longer lists. */
  function Emptied<T>(t: Table<T>, scan: Scan<T>, n: nat): seq<nat>
    requires |t.paths| == |t.slots| && n <= |t.slots|
  {
    if n == 0 then []
    else
      Emptied(t, scan, n - 1)
      + if t.slots[n - 1].Some? && Found(scan, t.paths[n - 1]).None? then [n - 1] else []
  }

  function DeltaOf<T>(v: View<T>, dirs: seq<DirEntry>, scan: Scan<T>): Delta
    requires |v.table.paths| == |v.table.slots|
  {
    var put := PutAll(v.table, scan);
    Delta(Upserted(v.dirs, dirs), Gone(v.dirs, dirs), Edits(v.table, scan), Emptied(put, scan, |put.slots|))
  }

  /** The tree published with the rescan: the fresh directory list as it is, and
      the files in their slots. */
  function Relisted<T>(v: View<T>, dirs: seq<DirEntry>, scan: Scan<T>): Tree
    requires |v.table.paths| == |v.table.slots|
  {
    Manifest.Tree(dirs, Vanished(PutAll(v.table, scan), scan).Files())
  }

  // ------------------------------------------------------------------------- files

  lemma PlacedSnoc(files: seq<FileEntry>, edits: seq<(nat, FileEntry)>, slot: nat, file: FileEntry)
    ensures Placed(files, edits + [(slot, file)]) == Place(Placed(files, edits), slot, file)
  {
    assert (edits + [(slot, file)])[..|edits|] == edits;
  }

  lemma PutPlaces<T>(t: Table<T>, file: (FileEntry, T))
    requires |t.paths| == |t.slots|
    ensures |Put(t, file).paths| == |Put(t, file).slots|
    ensures Put(t, file).Files() ==
            if Changes(t, file.0) then Place(t.Files(), SlotOf(t, file.0.relPath), file.0) else t.Files()
  {
    var r := Put(t, file);
    if Changes(t, file.0) {
      var placed := Place(t.Files(), SlotOf(t, file.0.relPath), file.0);
      assert |placed| == |r.slots|;
      forall i | 0 <= i < |r.slots| ensures r.Files()[i] == placed[i] {
      }
    }
  }

  /** Placing the edits is folding the scan. */
  lemma {:induction false} EditsPlace<T>(t: Table<T>, scan: Scan<T>)
    requires |t.paths| == |t.slots|
    ensures Placed(t.Files(), Edits(t, scan)) == PutAll(t, scan).Files()
    decreases |scan|
  {
    hide Changes, Put, SlotOf;
    if scan != [] {
      var front, last := scan[..|scan| - 1], scan[|scan| - 1];
      EditsPlace(t, front);
      PutPlaces(PutAll(t, front), last);
      if Changes(PutAll(t, front), last.0) {
        PlacedSnoc(t.Files(), Edits(t, front), SlotOf(PutAll(t, front), last.0.relPath), last.0);
      } else {
        assert Edits(t, front) + [] == Edits(t, front);
      }
    }
  }

  lemma {:induction false} EmptiedAre<T>(t: Table<T>, scan: Scan<T>, n: nat, i: nat)
    requires |t.paths| == |t.slots| && n <= |t.slots| && i < |t.slots|
    ensures i in Emptied(t, scan, n) <==> i < n && t.slots[i].Some? && Found(scan, t.paths[i]).None?
  {
    hide Found;
    if n > 0 {
      EmptiedAre(t, scan, n - 1, i);
    }
  }

  lemma ClearingVanishes<T>(t: Table<T>, scan: Scan<T>)
    requires |t.paths| == |t.slots|
    ensures Cleared(t.Files(), Emptied(t, scan, |t.slots|)) == Vanished(t, scan).Files()
  {
    hide Found, Vanished, Emptied, Cleared;
    VanishedSlots(t, scan);
    var files, removed := t.Files(), Emptied(t, scan, |t.slots|);
    forall i | 0 <= i < |files| ensures Cleared(files, removed)[i] == Vanished(t, scan).Files()[i] {
      ClearedSlot(files, removed, i);
      EmptiedAre(t, scan, |t.slots|, i);
      assert files[i] == EntryOf(t.slots[i]);
    }
  }

  /** The delta always rebuilds the published files. */
  lemma FilesAreRebuilt<T>(v: View<T>, dirs: seq<DirEntry>, scan: Scan<T>)
    requires |v.table.paths| == |v.table.slots|
    ensures Applied(v.Tree(), DeltaOf(v, dirs, scan)).files == Relisted(v, dirs, scan).files
  {
    hide Placed, Cleared, Edits, Emptied, Vanished, PutAll;
    EditsPlace(v.table, scan);
    ClearingVanishes(PutAll(v.table, scan), scan);
  }

  // ------------------------------------------------------------------- directories

  /** The known directories that are still listed, in the order known. */
  function Staying(known: seq<DirEntry>, dirs: seq<DirEntry>): seq<DirEntry> {
    Retained(known, set p | p in Gone(known, dirs))
  }

  /** The list names the directories that stay first, in the order known. */
  predicate OldOrderFirst(known: seq<DirEntry>, dirs: seq<DirEntry>) {
    var kept := Staying(known, dirs);
    |kept| <= |dirs| && forall i :: 0 <= i < |kept| ==> dirs[i].relPath == kept[i].relPath
  }

  lemma {:induction false} GoneAre(known: seq<DirEntry>, dirs: seq<DirEntry>, p: Path)
    ensures p in Gone(known, dirs) <==> p in PathsOf(known) && p !in PathsOf(dirs)
    decreases |known|
  {
    if known != [] {
      var front, d := known[..|known| - 1], known[|known| - 1];
      GoneAre(front, dirs, p);
      assert PathsOf(known) == PathsOf(front) + {d.relPath} by {
        assert known == front + [d];
      }
    }
  }

  lemma {:induction false} RetainedAre(known: seq<DirEntry>, removed: set<Path>, d: DirEntry)
    ensures d in Retained(known, removed) <==> d in known && d.relPath !in removed
    decreases |known|
  {
    if known != [] {
      var front, last := known[..|known| - 1], known[|known| - 1];
      RetainedAre(front, removed, d);
      assert known == front + [last];
    }
  }

  /** What stays is what both lists name, each path once. */
  lemma StayingAre(known: seq<DirEntry>, dirs: seq<DirEntry>, p: Path)
    requires DistinctDirs(known)
    ensures DistinctDirs(Staying(known, dirs))
    ensures p in PathsOf(Staying(known, dirs)) <==> p in PathsOf(known) && p in PathsOf(dirs)
  {
    hide Gone, Retained;
    var removed := set q | q in Gone(known, dirs);
    RetainedDistinct(known, removed);
    GoneAre(known, dirs, p);
    forall d ensures d in Staying(known, dirs) <==> d in known && d.relPath !in removed {
      RetainedAre(known, removed, d);
    }
    if p in PathsOf(known) && p in PathsOf(dirs) {
      var d :| d in known && d.relPath == p;
      assert d in Staying(known, dirs);
    }
  }

  lemma {:induction false} PositionsAre(dirs: seq<DirEntry>, p: Path)
    ensures p in Positions(dirs) <==> p in PathsOf(dirs)
    decreases |dirs|
  {
    if dirs != [] {
      PositionsAre(dirs[..|dirs| - 1], p);
      assert dirs == dirs[..|dirs| - 1] + [dirs[|dirs| - 1]];
    }
  }

  /** New directories are upserted, every one. */
  lemma {:induction false} FreshUpserted(known: seq<DirEntry>, dirs: seq<DirEntry>, at: map<Path, nat>)
    requires forall i :: 0 <= i < |dirs| && dirs[i].relPath !in at ==> Lookup(known, dirs[i].relPath).None?
    ensures Fresh(at, Upserted(known, dirs)) == Fresh(at, dirs)
    decreases |dirs|
  {
    if dirs != [] {
      var front, d := dirs[..|dirs| - 1], dirs[|dirs| - 1];
      FreshUpserted(known, front, at);
      var ups := Upserted(known, front);
      if Lookup(known, d.relPath) != Some(d) {
        assert (ups + [d])[..|ups|] == ups;
      } else {
        assert ups + [] == ups;
      }
    }
  }

  lemma {:induction false} LookupUpserted(known: seq<DirEntry>, dirs: seq<DirEntry>, p: Path)
    requires DistinctDirs(dirs)
    ensures Lookup(Upserted(known, dirs), p) ==
            if Lookup(dirs, p).Some? && Lookup(dirs, p) != Lookup(known, p) then Lookup(dirs, p) else None
    decreases |dirs|
  {
    if dirs != [] {
      var front, d := dirs[..|dirs| - 1], dirs[|dirs| - 1];
      LookupUpserted(known, front, p);
      var ups := Upserted(known, front);
      assert (ups + [d])[..|ups|] == ups && ups + [] == ups;
      if d.relPath == p {
        NotAhead(dirs);
      }
    }
  }

  /** The last of distinct entries is the only one of its path. */
  lemma NotAhead(dirs: seq<DirEntry>)
    requires DistinctDirs(dirs) && dirs != []
    ensures Lookup(dirs[..|dirs| - 1], dirs[|dirs| - 1].relPath) == None
  {
    LookupFinds(dirs[..|dirs| - 1], dirs[|dirs| - 1].relPath);
  }

  lemma {:induction false} LookupFinds(dirs: seq<DirEntry>, p: Path)
    ensures Lookup(dirs, p).Some? ==> Lookup(dirs, p).value in dirs && Lookup(dirs, p).value.relPath == p
    ensures Lookup(dirs, p).None? <==> p !in PathsOf(dirs)
    decreases |dirs|
  {
    if dirs != [] {
      LookupFinds(dirs[..|dirs| - 1], p);
      assert dirs == dirs[..|dirs| - 1] + [dirs[|dirs| - 1]];
    }
  }

  /** The entry rewritten at a place is the listed one of its path. */
  lemma StayingRewritten(known: seq<DirEntry>, dirs: seq<DirEntry>, i: nat)
    requires DistinctDirs(known) && DistinctDirs(dirs) && i < |Staying(known, dirs)|
    ensures var kept := Staying(known, dirs);
            Some(Rewritten(kept, Positions(kept), Upserted(known, dirs))[i]) == Lookup(dirs, kept[i].relPath)
  {
    hide Upserted, Gone, Retained;
    var kept, ups := Staying(known, dirs), Upserted(known, dirs);
    var p := kept[i].relPath;
    StayingAre(known, dirs, p);
    assert kept[i] in kept;
    LookupFinds(dirs, p);
    LookupUpserted(known, dirs, p);
    KeptIsOld(known, dirs, i);
    StandsAt(kept, i);
    RewrittenLookup(kept, ups, p);
  }

  lemma KeptIsOld(known: seq<DirEntry>, dirs: seq<DirEntry>, i: nat)
    requires DistinctDirs(known) && i < |Staying(known, dirs)|
    ensures Lookup(known, Staying(known, dirs)[i].relPath) == Some(Staying(known, dirs)[i])
  {
    hide Gone, Retained;
    var d := Staying(known, dirs)[i];
    RetainedAre(known, (set q | q in Gone(known, dirs)), d);
    LookupIsEntry(known, d);
  }

  /** Among distinct entries each stands at its own place. */
  lemma {:induction false} StandsAt(dirs: seq<DirEntry>, i: nat)
    requires DistinctDirs(dirs) && i < |dirs|
    ensures dirs[i].relPath in Positions(dirs) && Positions(dirs)[dirs[i].relPath] == i
    decreases |dirs|
  {
    if i < |dirs| - 1 {
      StandsAt(dirs[..|dirs| - 1], i);
    }
  }

  lemma FreshStep(at: map<Path, nat>, dirs: seq<DirEntry>)
    requires dirs != []
    ensures var n := |dirs| - 1;
            Fresh(at, dirs) ==
            if dirs[n].relPath in at then Fresh(at, dirs[..n]) else Fresh(at, dirs[..n]) + [dirs[n]]
  {
    assert Fresh(at, dirs[..|dirs| - 1]) + [] == Fresh(at, dirs[..|dirs| - 1]);
  }

  lemma {:induction false} FreshSplit(at: map<Path, nat>, dirs: seq<DirEntry>, k: nat)
    requires k <= |dirs|
    requires forall i :: 0 <= i < |dirs| ==> (dirs[i].relPath in at <==> i < k)
    ensures Fresh(at, dirs) == dirs[k..]
    decreases |dirs|
  {
    hide Fresh;
    if dirs == [] {
      NothingFresh(at);
    } else {
      var n := |dirs| - 1;
      FreshStep(at, dirs);
      if k == |dirs| {
        FreshSplit(at, dirs[..n], n);
      } else {
        FreshSplit(at, dirs[..n], k);
        assert dirs[..n][k..] + [dirs[n]] == dirs[k..];
      }
    }
  }

  lemma NothingFresh(at: map<Path, nat>)
    ensures Fresh(at, []) == []
  {
  }

  /** The directories a follower rebuilds: those that stay, in the order it knew
      them, then the new ones as listed. */
  lemma DirsRebuilt(known: seq<DirEntry>, dirs: seq<DirEntry>)
    requires DistinctDirs(known) && DistinctDirs(dirs)
    ensures var kept := Staying(known, dirs);
            var delta := Delta(Upserted(known, dirs), Gone(known, dirs), [], []);
            var rebuilt := AppliedDirs(known, delta);
            && rebuilt[..|kept|] + Fresh(Positions(kept), dirs) == rebuilt && |kept| <= |rebuilt|
            && (forall i :: 0 <= i < |kept| ==> Some(rebuilt[i]) == Lookup(dirs, kept[i].relPath))
  {
    hide Upserted, Gone, Retained, Rewritten, Fresh;
    var kept := Staying(known, dirs);
    forall i | 0 <= i < |kept|
      ensures Some(Rewritten(kept, Positions(kept), Upserted(known, dirs))[i]) == Lookup(dirs, kept[i].relPath)
    {
      StayingRewritten(known, dirs, i);
    }
    forall i | 0 <= i < |dirs| && dirs[i].relPath !in Positions(kept)
      ensures Lookup(known, dirs[i].relPath).None?
    {
      assert dirs[i] in dirs;
      PositionsAre(kept, dirs[i].relPath);
      StayingAre(known, dirs, dirs[i].relPath);
      LookupFinds(known, dirs[i].relPath);
    }
    FreshUpserted(known, dirs, Positions(kept));
  }

  /** **Directories survive exactly in the old order**: the rebuilt list is the
      listed one if and only if that names what stays first, as it was known. */
  lemma DirsAreRebuiltIff(known: seq<DirEntry>, dirs: seq<DirEntry>)
    requires DistinctDirs(known) && DistinctDirs(dirs)
    ensures AppliedDirs(known, Delta(Upserted(known, dirs), Gone(known, dirs), [], [])) == dirs <==>
            OldOrderFirst(known, dirs)
  {
    hide Upserted, Gone, Staying, AppliedDirs, Fresh;
    var kept := Staying(known, dirs);
    var rebuilt := AppliedDirs(known, Delta(Upserted(known, dirs), Gone(known, dirs), [], []));
    DirsRebuilt(known, dirs);
    if OldOrderFirst(known, dirs) {
      OldOrderSplits(known, dirs);
      forall i | 0 <= i < |kept| ensures rebuilt[i] == dirs[i] {
        LookupIsEntry(dirs, dirs[i]);
      }
      assert rebuilt[..|kept|] == dirs[..|kept|];
    } else if rebuilt == dirs {
      forall i | 0 <= i < |kept| ensures dirs[i].relPath == kept[i].relPath {
        LookupFinds(dirs, kept[i].relPath);
      }
    }
  }

  lemma OldOrderSplits(known: seq<DirEntry>, dirs: seq<DirEntry>)
    requires DistinctDirs(known) && DistinctDirs(dirs) && OldOrderFirst(known, dirs)
    ensures Fresh(Positions(Staying(known, dirs)), dirs) == dirs[|Staying(known, dirs)|..]
  {
    hide Staying, Fresh;
    var kept := Staying(known, dirs);
    forall i | 0 <= i < |dirs| ensures dirs[i].relPath in Positions(kept) <==> i < |kept| {
      PositionsAre(kept, dirs[i].relPath);
      if i < |kept| {
        assert kept[i] in kept;
      }
    }
    FreshSplit(Positions(kept), dirs, |kept|);
  }

  // -------------------------------------------------------------------- main results

  /** A delta rebuilds the published tree exactly when the rescan lists the
      directories that stay first and in their old order. */
  lemma DeltaRebuildsIff<T>(v: View<T>, dirs: seq<DirEntry>, scan: Scan<T>)
    requires |v.table.paths| == |v.table.slots| && DistinctDirs(v.dirs) && DistinctDirs(dirs)
    ensures Applied(v.Tree(), DeltaOf(v, dirs, scan)) == Relisted(v, dirs, scan) <==> OldOrderFirst(v.dirs, dirs)
  {
    hide OldOrderFirst, Upserted, Gone, Edits, Emptied, Placed, Cleared, Relisted;
    FilesAreRebuilt(v, dirs, scan);
    DirsAreRebuiltIff(v.dirs, dirs);
    SameDirs(v, dirs, scan);
    assert Relisted(v, dirs, scan).dirs == dirs by { RelistedDirs(v, dirs, scan); }
  }

  lemma RelistedDirs<T>(v: View<T>, dirs: seq<DirEntry>, scan: Scan<T>)
    requires |v.table.paths| == |v.table.slots|
    ensures Relisted(v, dirs, scan).dirs == dirs
  {
  }

  lemma SameDirs<T>(v: View<T>, dirs: seq<DirEntry>, scan: Scan<T>)
    requires |v.table.paths| == |v.table.slots|
    ensures Applied(v.Tree(), DeltaOf(v, dirs, scan)).dirs ==
            AppliedDirs(v.dirs, Delta(Upserted(v.dirs, dirs), Gone(v.dirs, dirs), [], []))
  {
    hide Upserted, Gone, Edits, Emptied, Placed, Cleared;
  }

  // --------------------------------------------------------- nothing more is sent

  lemma {:induction false} UpsertedAre(known: seq<DirEntry>, dirs: seq<DirEntry>, d: DirEntry)
    requires DistinctDirs(known)
    ensures d in Upserted(known, dirs) <==> d in dirs && d !in known
    decreases |dirs|
  {
    if dirs != [] {
      var front, last := dirs[..|dirs| - 1], dirs[|dirs| - 1];
      UpsertedAre(known, front, d);
      LookupIsEntry(known, last);
      assert dirs == front + [last];
    }
  }

  /** An entry is an edit of its slot when the scan lists it and the slot did not
      say so before. */
  ghost predicate IsEdit<T>(t: Table<T>, scan: Scan<T>, r: Table<T>, slot: nat, file: FileEntry)
    requires |t.paths| == |t.slots| && |r.paths| == |r.slots|
  {
    && slot < |r.slots| && Found(scan, r.paths[slot]).Some? && Found(scan, r.paths[slot]).value.0 == file
    && (slot < |t.slots| ==> EntryOf(t.slots[slot]) != file)
  }

  lemma {:induction false} EditsAre<T>(t: Table<T>, scan: Scan<T>, slot: nat, file: FileEntry)
    requires t.Valid() && PathsGiven(scan) && DistinctPaths(scan)
    ensures (slot, file) in Edits(t, scan) <==> IsEdit(t, scan, PutAll(t, scan), slot, file)
    decreases |scan|
  {
    hide Found, Edits, Put, IndexIn;
    if scan == [] {
      NoEdits(t, PutAll(t, scan), slot, file);
    } else {
      var front, last := scan[..|scan| - 1], scan[|scan| - 1];
      assert forall k :: 0 <= k < |front| ==> front[k] == scan[k];
      EditsAre(t, front, slot, file);
      PutAllIsValid(t, front);
      LastEdit(t, front, last, slot, file);
      assert front + [last] == scan;
      EditsSnoc(t, scan);
    }
  }

  lemma NoEdits<T>(t: Table<T>, r: Table<T>, slot: nat, file: FileEntry)
    requires |t.paths| == |t.slots| && |r.paths| == |r.slots|
    ensures Edits(t, []) == [] && !IsEdit(t, [], r, slot, file)
  {
  }

  lemma EditsSnoc<T>(t: Table<T>, scan: Scan<T>)
    requires |t.paths| == |t.slots| && scan != []
    ensures var front, entry := scan[..|scan| - 1], scan[|scan| - 1].0;
            var now := PutAll(t, front);
            Edits(t, scan) ==
            Edits(t, front) + (if Changes(now, entry) then [(SlotOf(now, entry.relPath), entry)] else [])
  {
    hide Changes, SlotOf;
  }

  /** One more scanned entry is one more edit exactly when it changes its slot. */
  lemma LastEdit<T>(t: Table<T>, front: Scan<T>, last: (FileEntry, T), slot: nat, file: FileEntry)
    requires t.Valid() && PathsGiven(front + [last]) && DistinctPaths(front + [last]) && DistinctPaths(front)
    requires PathsGiven(front) && PutAll(t, front).Valid() && t.paths <= PutAll(t, front).paths
    ensures var now := PutAll(t, front);
            && |Put(now, last).paths| == |Put(now, last).slots|
            && (IsEdit(t, front + [last], Put(now, last), slot, file) <==>
                || IsEdit(t, front, now, slot, file)
                || (Changes(now, last.0) && slot == SlotOf(now, last.0.relPath) && file == last.0))
  {
    hide Found, IndexIn, PutAll;
    var now, p := PutAll(t, front), last.0.relPath;
    var all := front + [last];
    assert all[|front|] == last && forall k :: 0 <= k < |front| ==> all[k] == front[k];
    PutIsValid(now, last);
    if slot < |Put(now, last).slots| {
      FoundSnoc(front, last, Put(now, last).paths[slot]);
      PutPathsAt(now, last, slot);
      if slot < |now.slots| {
        PutAllSlots(t, front, slot);
        if now.paths[slot] == p {
          IndexIs(now, slot);
        }
      }
    }
  }

  /** **The delta is exactly the difference** between the tree before and the one
      published with the rescan: what is listed and was not, and what was and is
      not. */
  lemma DeltaIsTheDifference<T>(v: View<T>, dirs: seq<DirEntry>, scan: Scan<T>)
    requires v.table.Valid() && DistinctDirs(v.dirs) && PathsGiven(scan) && DistinctPaths(scan)
    ensures var delta, before, after := DeltaOf(v, dirs, scan), v.Tree().files, Relisted(v, dirs, scan).files;
            && (forall d :: d in delta.dirsUpserted <==> d in dirs && d !in v.dirs)
            && (forall p :: p in delta.dirsRemoved <==> p in PathsOf(v.dirs) && p !in PathsOf(dirs))
            && (forall slot: nat, file :: (slot, file) in delta.filesUpserted <==>
                  && slot < |after| && after[slot] == file && !file.IsTombstone()
                  && (slot < |before| ==> before[slot] != file))
            && (forall slot: nat :: slot in delta.filesRemoved <==>
                  && slot < |before| && !before[slot].IsTombstone()
                  && slot < |after| && after[slot].IsTombstone())
  {
    hide Upserted, Gone, Edits, Emptied, PutAll, Vanished, Found;
    forall d ensures d in Upserted(v.dirs, dirs) <==> d in dirs && d !in v.dirs {
      UpsertedAre(v.dirs, dirs, d);
    }
    forall p ensures p in Gone(v.dirs, dirs) <==> p in PathsOf(v.dirs) && p !in PathsOf(dirs) {
      GoneAre(v.dirs, dirs, p);
    }
    var put := PutAll(v.table, scan);
    PutAllIsValid(v.table, scan);
    VanishedSlots(put, scan);
    forall slot: nat, file ensures
      (slot, file) in Edits(v.table, scan) <==>
        var before, after := v.Tree().files, Relisted(v, dirs, scan).files;
        && slot < |after| && after[slot] == file && !file.IsTombstone() && (slot < |before| ==> before[slot] != file)
    {
      EditsAre(v.table, scan, slot, file);
      SlotAfter(v, dirs, scan, slot);
    }
    forall slot: nat ensures
      slot in Emptied(put, scan, |put.slots|) <==>
        var before, after := v.Tree().files, Relisted(v, dirs, scan).files;
        && slot < |before| && !before[slot].IsTombstone() && slot < |after| && after[slot].IsTombstone()
    {
      if slot < |put.slots| {
        EmptiedAre(put, scan, |put.slots|, slot);
        SlotAfter(v, dirs, scan, slot);
      } else {
        EmptiedBelow(put, scan, |put.slots|, slot);
      }
    }
  }

  lemma {:induction false} EmptiedBelow<T>(t: Table<T>, scan: Scan<T>, n: nat, slot: nat)
    requires |t.paths| == |t.slots| && n <= |t.slots| && slot >= n
    ensures slot !in Emptied(t, scan, n)
  {
    hide Found;
    if n > 0 {
      EmptiedBelow(t, scan, n - 1, slot);
    }
  }

  /** What a slot lists before and after a rescan. */
  lemma SlotAfter<T>(v: View<T>, dirs: seq<DirEntry>, scan: Scan<T>, slot: nat)
    requires v.table.Valid() && PathsGiven(scan) && DistinctPaths(scan)
    ensures var put, after := PutAll(v.table, scan), Relisted(v, dirs, scan).files;
            && |put.paths| == |put.slots| == |after| >= |v.Tree().files| == |v.table.slots|
            && (slot < |after| ==>
                  after[slot] == match Found(scan, put.paths[slot])
                                 case None => TOMBSTONE
                                 case Some(file) => file.0)
            && (slot < |after| && Found(scan, put.paths[slot]).Some? ==>
                  put.slots[slot].Some? && !after[slot].IsTombstone())
            && (slot < |after| && Found(scan, put.paths[slot]).None? ==>
                  slot < |v.table.slots| && put.slots[slot] == v.table.slots[slot])
            && (slot < |v.table.slots| ==>
                  && v.Tree().files[slot] == EntryOf(v.table.slots[slot])
                  && (v.Tree().files[slot].IsTombstone() <==> v.table.slots[slot].None?))
  {
    hide Found, PutAll, Vanished;
    var put := PutAll(v.table, scan);
    PutAllIsValid(v.table, scan);
    VanishedSlots(put, scan);
    if slot < |put.slots| {
      PutAllSlots(v.table, scan, slot);
      FoundIsGiven(scan, put.paths[slot]);
    }
  }

  lemma FoundIsGiven<T>(scan: Scan<T>, p: Path)
    requires PathsGiven(scan)
    ensures Found(scan, p).Some? ==> Found(scan, p).value.0.relPath != []
  {
    hide Found;
    if Found(scan, p).Some? {
      var k :| 0 <= k < |scan| && scan[k] == Found(scan, p).value;
    }
  }

  lemma PairUpserted(a: DirEntry, b: DirEntry)
    requires a.relPath != b.relPath
    ensures Upserted([b], [a, b]) == [a]
  {
    assert [a, b][..1] == [a] && [a][..0] == [] && [b][..0] == [];
    assert Lookup([b], a.relPath) == None && Lookup([b], b.relPath) == Some(b);
    assert Upserted([b], []) == [];
    assert Upserted([b], [a]) == [] + [a];
    assert Upserted([b], [a, b]) == [a] + [];
  }

  lemma PairStays(a: DirEntry, b: DirEntry)
    ensures Gone([b], [a, b]) == [] && Staying([b], [a, b]) == [b]
  {
    assert [b][..0] == [];
    assert b in [a, b] && b.relPath in PathsOf([a, b]);
    assert Gone([b], [a, b]) == [] + [];
    assert Retained([b], set p | p in Gone([b], [a, b])) == [] + [b];
  }

  lemma OneRetained(b: DirEntry)
    ensures Retained([b], {}) == [b]
  {
    assert [b][..0] == [];
  }

  lemma OneNew(dirs: seq<DirEntry>, at: map<Path, nat>, a: DirEntry)
    requires (forall p :: p in at ==> at[p] < |dirs|) && a.relPath !in at
    ensures Rewritten(dirs, at, [a]) == dirs && Fresh(at, [a]) == [a]
  {
    assert [a][..0] == [];
  }

  lemma PairApplied(a: DirEntry, b: DirEntry)
    requires a.relPath != b.relPath
    ensures AppliedDirs([b], Delta([a], [], [], [])) == [b, a]
  {
    hide Retained, Positions, Rewritten, Fresh;
    OneRetained(b);
    assert (set p | p in Delta([a], [], [], []).dirsRemoved) == {};
    OneNew([b], Positions([b]), a);
  }

  /** A directory that sorts ahead of a known one is appended behind it. */
  lemma NewAheadOfOld(a: DirEntry, b: DirEntry)
    requires a.relPath != b.relPath
    ensures !OldOrderFirst([b], [a, b])
    ensures AppliedDirs([b], Delta(Upserted([b], [a, b]), Gone([b], [a, b]), [], [])) == [b, a]
  {
    hide Upserted, Gone, Staying, AppliedDirs;
    PairUpserted(a, b);
    PairStays(a, b);
    PairApplied(a, b);
    assert Staying([b], [a, b])[0].relPath != [a, b][0].relPath;
  }

  /** **An honest delta is believed exactly when its directories keep their
      order.** A follower that holds the tree before a rescan, and is sent the
      rescan's delta with the creator's signature over the tree after it, comes
      to hold that tree; otherwise it refuses and stays where it was. */
  lemma HonestDeltaIsBelievedIff<T>(v: View<T>, dirs: seq<DirEntry>, scan: Scan<T>, held: SignedManifest,
                                    version: nat, signature: Bytes, author: PublicKey, published: Published)
    requires |v.table.paths| == |v.table.slots| && DistinctDirs(v.dirs) && DistinctDirs(dirs)
    requires InBounds(v.Tree()) && InBounds(Relisted(v, dirs, scan)) && DeltaCodec().valid(DeltaOf(v, dirs, scan))
    requires held.manifest == EncodeTree(v.Tree()) && held.version <= version && U64().valid(version)
    requires Unforgeable(author, published) && OnePerVersion(published)
    requires (version, EncodeTree(Relisted(v, dirs, scan))) in published
    requires author.verifies(SignedPayload(version, EncodeTree(Relisted(v, dirs, scan))), signature)
    ensures var answer := ManifestSince(version, signature, [EncodeDelta(DeltaOf(v, dirs, scan))]);
            var r := CaughtUp(held, answer, Some(author));
            && (r.Ok? <==> OldOrderFirst(v.dirs, dirs))
            && (r.Ok? ==> r.value == SignedManifest(version, signature, EncodeTree(Relisted(v, dirs, scan))))
  {
    hide OldOrderFirst, DeltaOf, Relisted, Applied, InBounds;
    hide DecodeTree, EncodeTree, DecodeDelta, EncodeDelta, DeltaCodec;
    var delta, after := DeltaOf(v, dirs, scan), Relisted(v, dirs, scan);
    var answer := ManifestSince(version, signature, [EncodeDelta(delta)]);
    ManifestIsCanonical(v.Tree(), [], []);
    DeltaIsCanonical(delta, [], []);
    DeltaRebuildsIff(v, dirs, scan);
    assert answer.deltas[1..] == [];
    assert Rebuilt(v.Tree(), answer.deltas) == Some(Applied(v.Tree(), delta));
    var r := CaughtUp(held, answer, Some(author));
    if r.Ok? {
      AcceptedIsPublished(author, published, r.value, held.version);
      EncodingIsInjective(Applied(v.Tree(), delta), after);
    }
  }
}
