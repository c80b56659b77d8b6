/**
 What a producer's rescan means, apart from how it is carried out.

 A slot table gives every path ever seen a slot for life; a slot holds the file
 and its payload, or nothing while the file is gone.
 */
module SlotTable {
  import opened Wrappers
  import opened Manifest

  type Scan<T> = seq<(FileEntry, T)>

  datatype Table<T> = Table(paths: seq<Path>, slots: seq<Option<(FileEntry, T)>>) {
    /** Each slot has its own non-empty path, and holds a file of that path. */
    ghost predicate Valid() {
      && |paths| == |slots|
      && (forall i, j :: 0 <= i < j < |paths| ==> paths[i] != paths[j])
      && (forall i :: 0 <= i < |slots| ==> paths[i] != [])
      && (forall i :: 0 <= i < |slots| && slots[i].Some? ==> slots[i].value.0.relPath == paths[i])
    }

    /** The wire listing: tombstones where nothing is held. */
    function Files(): seq<FileEntry> {
      seq(|slots|, i requires 0 <= i < |slots| => EntryOf(slots[i]))
    }
  }

  function EntryOf<T>(slot: Option<(FileEntry, T)>): FileEntry {
    match slot
    case None => TOMBSTONE
    case Some((entry, _)) => entry
  }

  predicate PathsGiven<T>(scan: Scan<T>) {
    forall i :: 0 <= i < |scan| ==> scan[i].0.relPath != []
  }

  function IndexIn(paths: seq<Path>, p: Path): (r: Option<nat>)
    ensures r.Some? ==> r.value < |paths| && paths[r.value] == p
    ensures r.None? ==> p !in paths
  {
    if paths == [] then None
    else if paths[|paths| - 1] == p then Some(|paths| - 1)
    else IndexIn(paths[..|paths| - 1], p)
  }

  /** The entry a scan gives for a path; the first one wins. */
  function Found<T>(scan: Scan<T>, p: Path): (r: Option<(FileEntry, T)>)
    ensures r.Some? ==> r.value in scan && r.value.0.relPath == p
    ensures r.None? ==> forall i :: 0 <= i < |scan| ==> scan[i].0.relPath != p
    decreases |scan|
  {
    if scan == [] then None else
    var front := Found(scan[..|scan| - 1], p);
    if front.Some? then front
    else if scan[|scan| - 1].0.relPath == p then Some(scan[|scan| - 1])
    else None
  }

  function FirstWins<T>(scan: Scan<T>): Scan<T>
    decreases |scan|
  {
    if scan == [] then [] else
    var front, last := scan[..|scan| - 1], scan[|scan| - 1];
    FirstWins(front) + if Found(front, last.0.relPath).Some? then [] else [last]
  }

  // ------------------------------------------------------- folding the entries

  /** Give one scanned file its slot: its own if its path has one, else a new one
      at the end. An entry that has not changed keeps the payload it had. */
  function Put<T>(t: Table<T>, file: (FileEntry, T)): Table<T>
    requires |t.paths| == |t.slots|
  {
    match IndexIn(t.paths, file.0.relPath)
    case None => Table(t.paths + [file.0.relPath], t.slots + [Some(file)])
    case Some(i) =>
      if t.slots[i].Some? && t.slots[i].value.0 == file.0 then t
      else t.(slots := t.slots[i := Some(file)])
  }

  function PutAll<T>(t: Table<T>, scan: Scan<T>): (r: Table<T>)
    requires |t.paths| == |t.slots|
    ensures |r.paths| == |r.slots| && |r.slots| >= |t.slots|
    decreases |scan|
  {
    if scan == [] then t else Put(PutAll(t, scan[..|scan| - 1]), scan[|scan| - 1])
  }

  /** Empty every slot whose path the scan no longer lists. */
  function Vanished<T>(t: Table<T>, scan: Scan<T>): Table<T>
    requires |t.paths| == |t.slots|
  {
    t.(slots := seq(|t.slots|, i requires 0 <= i < |t.slots| =>
      if Found(scan, t.paths[i]).None? then None else t.slots[i]))
  }

  function Folded<T>(t: Table<T>, scan: Scan<T>): Table<T>
    requires |t.paths| == |t.slots|
  {
    Vanished(PutAll(t, FirstWins(scan)), scan)
  }

  // --------------------------------------------------- what the fold amounts to

  lemma FoundSnoc<T>(scan: Scan<T>, last: (FileEntry, T), p: Path)
    ensures Found(scan + [last], p) ==
            if Found(scan, p).Some? then Found(scan, p)
            else if last.0.relPath == p then Some(last) else None
  {
    assert (scan + [last])[..|scan|] == scan;
  }

  lemma {:induction false} FirstWinsFinds<T>(scan: Scan<T>, p: Path)
    ensures Found(FirstWins(scan), p) == Found(scan, p)
    decreases |scan|
  {
    if scan != [] {
      var front, last := scan[..|scan| - 1], scan[|scan| - 1];
      FirstWinsFinds(front, p);
      FirstWinsFinds(front, last.0.relPath);
      if Found(front, last.0.relPath).None? {
        FoundSnoc(FirstWins(front), last, p);
      } else {
        assert FirstWins(front) + [] == FirstWins(front);
      }
    }
  }

  predicate DistinctPaths<T>(scan: Scan<T>) {
    forall i, j :: 0 <= i < j < |scan| ==> scan[i].0.relPath != scan[j].0.relPath
  }

  lemma {:induction false} FirstWinsIsDistinct<T>(scan: Scan<T>)
    ensures DistinctPaths(FirstWins(scan))
    ensures forall i :: 0 <= i < |FirstWins(scan)| ==> FirstWins(scan)[i] in scan
    decreases |scan|
  {
    if scan != [] {
      var front, last := scan[..|scan| - 1], scan[|scan| - 1];
      FirstWinsIsDistinct(front);
      FirstWinsFinds(front, last.0.relPath);
    }
  }

  /** The value a slot holds once `found` is what the scan says of its path. */
  function Settled<T>(before: Option<(FileEntry, T)>, found: (FileEntry, T)): Option<(FileEntry, T)> {
    if before.Some? && before.value.0 == found.0 then before else Some(found)
  }

  lemma PutIsValid<T>(t: Table<T>, file: (FileEntry, T))
    requires t.Valid() && file.0.relPath != []
    ensures var r := Put(t, file);
            && r.Valid() && t.paths <= r.paths && file.0.relPath in r.paths
            && (|r.slots| > |t.slots| <==> file.0.relPath !in t.paths)
  {
    if IndexIn(t.paths, file.0.relPath).None? {
      assert Put(t, file).paths[|t.paths|] == file.0.relPath;
    }
  }

  lemma PutSlot<T>(t: Table<T>, file: (FileEntry, T), i: nat)
    requires t.Valid() && i < |Put(t, file).slots|
    ensures var r := Put(t, file);
            if i < |t.slots| then
              r.slots[i] == if t.paths[i] == file.0.relPath then Settled(t.slots[i], file) else t.slots[i]
            else
              i == |t.slots| && r.paths[i] == file.0.relPath && r.slots[i] == Some(file)
  {
  }

  lemma {:induction false} PutAllIsValid<T>(t: Table<T>, scan: Scan<T>)
    requires t.Valid() && PathsGiven(scan)
    ensures var r := PutAll(t, scan);
            && r.Valid() && t.paths <= r.paths
            && (forall k :: 0 <= k < |scan| ==> scan[k].0.relPath in r.paths)
    decreases |scan|
  {
    hide Put;
    if scan != [] {
      var front := scan[..|scan| - 1];
      PutAllIsValid(t, front);
      PutIsValid(PutAll(t, front), scan[|scan| - 1]);
      forall k | 0 <= k < |front| ensures scan[k].0.relPath in PutAll(t, front).paths {
        assert front[k] == scan[k];
      }
    }
  }

  /** Folding distinct entries settles each listed path once and leaves the
      others alone. */
  lemma {:induction false} PutAllSlots<T>(t: Table<T>, scan: Scan<T>, i: nat)
    requires t.Valid() && PathsGiven(scan) && DistinctPaths(scan) && i < |PutAll(t, scan).slots|
    requires PutAll(t, scan).Valid() && t.paths <= PutAll(t, scan).paths
    ensures var r := PutAll(t, scan);
            if i < |t.slots| then
              r.slots[i] == match Found(scan, t.paths[i])
                            case None => t.slots[i]
                            case Some(file) => Settled(t.slots[i], file)
            else Found(scan, r.paths[i]).Some? && r.slots[i] == Found(scan, r.paths[i])
    decreases |scan|
  {
    if scan != [] {
      var front, last := scan[..|scan| - 1], scan[|scan| - 1];
      assert forall k :: 0 <= k < |front| ==> front[k] == scan[k];
      assert Found(front, last.0.relPath).None?;
      PutAllIsValid(t, front);
      var before := PutAll(t, front);
      PutIsValid(before, last);
      PutSlot(before, last, i);
      if i < |before.slots| {
        PutAllSlots(t, front, i);
      }
    }
  }

  /** **The rescan as a plain path-keyed map.** Whatever was there before, slot
      by slot the table now holds what the scan's first entry for its path says,
      and nothing where the scan is silent; every scanned path has a slot; every
      path keeps the slot it had. A file whose entry did not change keeps its
      payload. */
  lemma FoldedIsTheScan<T>(t: Table<T>, scan: Scan<T>, i: nat)
    requires t.Valid() && PathsGiven(scan)
    ensures var r := Folded(t, scan);
            && r.Valid() && t.paths <= r.paths
            && (forall k :: 0 <= k < |scan| ==> scan[k].0.relPath in r.paths)
            && (i < |r.slots| ==>
                r.slots[i] == match Found(scan, r.paths[i])
                              case None => None
                              case Some(file) =>
                                if i < |t.slots| then Settled(t.slots[i], file) else Some(file))
  {
    var first := FirstWins(scan);
    FirstWinsIsDistinct(scan);
    assert PathsGiven(first);
    PutAllIsValid(t, first);
    var put := PutAll(t, first);
    forall k | 0 <= k < |scan| ensures scan[k].0.relPath in put.paths {
      FirstWinsFinds(scan, scan[k].0.relPath);
      assert Found(first, scan[k].0.relPath).value in first;
    }
    if i < |put.slots| {
      PutAllSlots(t, first, i);
      FirstWinsFinds(scan, put.paths[i]);
    }
  }

  /** The paths a scan names that are not known yet, in the order it first names
      them. */
  function NewPaths<T>(known: seq<Path>, scan: Scan<T>): seq<Path>
    decreases |scan|
  {
    if scan == [] then [] else
    var front, p := NewPaths(known, scan[..|scan| - 1]), scan[|scan| - 1].0.relPath;
    front + if p in known || p in front then [] else [p]
  }

  /** New slots are appended in that order, whatever the scan repeats. */
  lemma SlotsAreAppended<T>(t: Table<T>, scan: Scan<T>)
    requires t.Valid() && PathsGiven(scan)
    ensures Folded(t, scan).paths == t.paths + NewPaths(t.paths, scan)
  {
    FirstAreAppended(t, scan);
  }

  lemma {:induction false} FirstAreAppended<T>(t: Table<T>, scan: Scan<T>)
    requires t.Valid() && PathsGiven(scan)
    ensures PutAll(t, FirstWins(scan)).paths == t.paths + NewPaths(t.paths, scan)
    decreases |scan|
  {
    hide Put, PutAll, FirstWins, NewPaths, Found, Table.Valid, DistinctPaths;
    if scan == [] {
      NothingNew(t);
    } else {
      var front, last := scan[..|scan| - 1], scan[|scan| - 1];
      FirstAreAppended(t, front);
      FirstWinsSnoc(scan);
      NewPathsSnoc(t.paths, scan);
      NewPathsAre(t.paths, front, last.0.relPath);
      if Found(front, last.0.relPath).Some? {
        var k :| 0 <= k < |front| && front[k] == Found(front, last.0.relPath).value;
        assert FirstWins(scan) == FirstWins(front);
      } else {
        FirstWinsIsDistinct(front);
        ValidAfter(t, front);
        PutAllSnoc(t, FirstWins(front), last);
        PutPaths(t.paths, PutAll(t, FirstWins(front)), NewPaths(t.paths, front), last);
      }
    }
  }

  lemma NothingNew<T>(t: Table<T>)
    requires t.Valid()
    ensures |t.paths| == |t.slots| && PutAll(t, FirstWins([])).paths == t.paths + NewPaths<T>(t.paths, [])
  {
    assert t.paths + [] == t.paths;
  }

  lemma ValidAfter<T>(t: Table<T>, scan: Scan<T>)
    requires t.Valid() && PathsGiven(scan)
    ensures |t.paths| == |t.slots| && PutAll(t, FirstWins(scan)).Valid()
  {
    FirstWinsIsDistinct(scan);
    PutAllIsValid(t, FirstWins(scan));
  }

  lemma FirstWinsSnoc<T>(scan: Scan<T>)
    requires scan != []
    ensures var front, last := scan[..|scan| - 1], scan[|scan| - 1];
            FirstWins(scan) ==
            if Found(front, last.0.relPath).Some? then FirstWins(front) else FirstWins(front) + [last]
  {
    hide Found;
    assert FirstWins(scan[..|scan| - 1]) + [] == FirstWins(scan[..|scan| - 1]);
  }

  lemma NewPathsSnoc<T>(known: seq<Path>, scan: Scan<T>)
    requires scan != []
    ensures var front, p := NewPaths(known, scan[..|scan| - 1]), scan[|scan| - 1].0.relPath;
            NewPaths(known, scan) == if p in known || p in front then front else front + [p]
  {
    assert NewPaths(known, scan[..|scan| - 1]) + [] == NewPaths(known, scan[..|scan| - 1]);
  }

  lemma PutAllSnoc<T>(t: Table<T>, front: Scan<T>, last: (FileEntry, T))
    requires |t.paths| == |t.slots|
    ensures PutAll(t, front + [last]) == Put(PutAll(t, front), last)
  {
    assert (front + [last])[..|front|] == front;
  }

  lemma PutPaths<T>(known: seq<Path>, t: Table<T>, more: seq<Path>, file: (FileEntry, T))
    requires t.Valid() && t.paths == known + more && file.0.relPath !in more
    ensures Put(t, file).paths == known + (more + if file.0.relPath in known then [] else [file.0.relPath])
  {
    var p := file.0.relPath;
    if p in known {
      assert p in t.paths && more + [] == more;
    } else {
      assert p !in t.paths;
    }
  }

  lemma {:induction false} NewPathsAre<T>(known: seq<Path>, scan: Scan<T>, p: Path)
    ensures p in NewPaths(known, scan) <==>
            p !in known && exists k :: 0 <= k < |scan| && scan[k].0.relPath == p
    decreases |scan|
  {
    if scan != [] {
      var front := scan[..|scan| - 1];
      NewPathsAre(known, front, p);
      assert scan == front + [scan[|scan| - 1]];
      assert (exists k :: 0 <= k < |scan| && scan[k].0.relPath == p) <==>
             (exists k :: 0 <= k < |front| && front[k].0.relPath == p) || scan[|scan| - 1].0.relPath == p;
    }
  }

  /** The table is unchanged exactly when the listing it publishes is. */
  lemma UnchangedListing<T>(t: Table<T>, scan: Scan<T>)
    requires t.Valid() && PathsGiven(scan)
    ensures Folded(t, scan) == t <==> Folded(t, scan).Files() == t.Files()
  {
    var r := Folded(t, scan);
    FoldedIsTheScan(t, scan, 0);
    if r.Files() == t.Files() {
      assert |r.Files()| == |r.slots| && |t.Files()| == |t.slots|;
      forall i | 0 <= i < |r.slots| ensures r.slots[i] == t.slots[i] {
        FoldedIsTheScan(t, scan, i);
        assert r.Files()[i] == t.Files()[i];
      }
      assert r.paths == t.paths && r.slots == t.slots;
    }
  }
}
