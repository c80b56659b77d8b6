/**
 The mount manifest, the delta that changes it, and both wire forms.

 A path is its UTF-8 bytes. READ requests name a file by its position, so
 positions are never reused: removal writes a tombstone in place.
 */
module Manifest {
  import opened Wrappers
  import opened Codec

  type Path = Bytes

  datatype DirEntry = DirEntry(relPath: Path, mode: nat, mtime: int)

  datatype FileEntry = FileEntry(relPath: Path, size: nat, mode: nat, mtime: int) {
    predicate IsTombstone() { relPath == [] }
  }

  const TOMBSTONE := FileEntry([], 0, 0, 0)

  datatype Tree = Tree(dirs: seq<DirEntry>, files: seq<FileEntry>)

  datatype Delta = Delta(
    dirsUpserted: seq<DirEntry>,
    dirsRemoved: seq<Path>,
    filesUpserted: seq<(nat, FileEntry)>,
    filesRemoved: seq<nat>)

  // -------------------------------------------------------------- wire forms

  function PathCodec(): Codec<Bytes> { Sized(U16(), U16_MAX, Utf8) }

  /** An i64 in two's complement. */
  function TimeCodec(): Codec<int> { Viewed(U64(), ToTime, FromTime, IsTime) }

  function DirCodec(): Codec<DirEntry> {
    Viewed(Both(PathCodec(), Both(U32(), TimeCodec())),
           (v: (Bytes, (nat, int))) => DirEntry(v.0, v.1.0, v.1.1),
           (d: DirEntry) => (d.relPath, (d.mode, d.mtime)),
           (d: DirEntry) => true)
  }

  function FileCodec(): Codec<FileEntry> {
    Viewed(Both(PathCodec(), Both(U64(), Both(U32(), TimeCodec()))),
           (v: (Bytes, (nat, (nat, int)))) => FileEntry(v.0, v.1.0, v.1.1.0, v.1.1.1),
           (f: FileEntry) => (f.relPath, (f.size, (f.mode, f.mtime))),
           (f: FileEntry) => true)
  }

  function TreeCodec(): Codec<Tree> {
    Viewed(Both(Counted(U32(), DirCodec()), Counted(U32(), FileCodec())),
           (v: (seq<DirEntry>, seq<FileEntry>)) => Tree(v.0, v.1),
           (t: Tree) => (t.dirs, t.files),
           (t: Tree) => true)
  }

  function DirsDelta(): Codec<(seq<DirEntry>, seq<Path>)> {
    Both(Counted(U32(), DirCodec()), Counted(U32(), PathCodec()))
  }

  function FilesDelta(): Codec<(seq<(nat, FileEntry)>, seq<nat>)> {
    Both(Counted(U32(), Both(U32(), FileCodec())), Counted(U32(), U32()))
  }

  function DeltaCodec(): Codec<Delta> {
    Viewed(Both(DirsDelta(), FilesDelta()),
           (v: ((seq<DirEntry>, seq<Path>), (seq<(nat, FileEntry)>, seq<nat>))) =>
             Delta(v.0.0, v.0.1, v.1.0, v.1.1),
           (d: Delta) => ((d.dirsUpserted, d.dirsRemoved), (d.filesUpserted, d.filesRemoved)),
           (d: Delta) => true)
  }

  /** The bounds `encode` assumes: counts fit u32, paths are at most 65535 bytes
      of UTF-8, and every number fits its field. Outside them it panics. */
  predicate InBounds(t: Tree) { TreeCodec().valid(t) }

  function EncodeTree(t: Tree): Bytes { TreeCodec().encode(t) }

  function DecodeTree(b: Bytes): Option<Tree> { Whole(TreeCodec(), b) }

  function EncodeDelta(d: Delta): Bytes { DeltaCodec().encode(d) }

  function DecodeDelta(b: Bytes): Option<Delta> { Whole(DeltaCodec(), b) }

  function ToTime(v: nat): int { if v <= I64_MAX then v else v - U64_MAX - 1 }

  function FromTime(t: int): nat { t % (U64_MAX + 1) }

  predicate IsTime(t: int) { I64_MIN <= t <= I64_MAX }

  lemma TimeCodecIsCanonical()
    ensures Canonical(TimeCodec())
  {
    IntegerCodecsAreCanonical();
    forall t | IsTime(t) ensures ToTime(FromTime(t)) == t {
      assert t % (U64_MAX + 1) == if t >= 0 then t else t + U64_MAX + 1;
    }
    Powers();
    ViewedIsCanonical(U64(), ToTime, FromTime, IsTime);
  }

  lemma FieldCodecsAreCanonical()
    ensures Canonical(PathCodec()) && Canonical(TimeCodec())
    ensures Canonical(U32()) && Canonical(U64())
  {
    IntegerCodecsAreCanonical();
    SizedIsCanonical(U16(), U16_MAX, Utf8);
    TimeCodecIsCanonical();
  }

  lemma DirCodecIsCanonical()
    ensures Canonical(DirCodec())
  {
    FieldCodecsAreCanonical();
    BothIsCanonical(U32(), TimeCodec());
    BothIsCanonical(PathCodec(), Both(U32(), TimeCodec()));
    ViewedIsCanonical(Both(PathCodec(), Both(U32(), TimeCodec())),
                      (v: (Bytes, (nat, int))) => DirEntry(v.0, v.1.0, v.1.1),
                      (d: DirEntry) => (d.relPath, (d.mode, d.mtime)), (d: DirEntry) => true);
  }

  lemma FileCodecIsCanonical()
    ensures Canonical(FileCodec())
  {
    FieldCodecsAreCanonical();
    BothIsCanonical(U32(), TimeCodec());
    BothIsCanonical(U64(), Both(U32(), TimeCodec()));
    BothIsCanonical(PathCodec(), Both(U64(), Both(U32(), TimeCodec())));
    ViewedIsCanonical(Both(PathCodec(), Both(U64(), Both(U32(), TimeCodec()))),
                      (v: (Bytes, (nat, (nat, int)))) => FileEntry(v.0, v.1.0, v.1.1.0, v.1.1.1),
                      (f: FileEntry) => (f.relPath, (f.size, (f.mode, f.mtime))), (f: FileEntry) => true);
  }

  lemma TreeCodecIsCanonical()
    ensures Canonical(TreeCodec())
  {
    IntegerCodecsAreCanonical();
    DirCodecIsCanonical();
    FileCodecIsCanonical();
    CountedIsCanonical(U32(), DirCodec());
    CountedIsCanonical(U32(), FileCodec());
    BothIsCanonical(Counted(U32(), DirCodec()), Counted(U32(), FileCodec()));
    ViewedIsCanonical(Both(Counted(U32(), DirCodec()), Counted(U32(), FileCodec())),
                      (v: (seq<DirEntry>, seq<FileEntry>)) => Tree(v.0, v.1),
                      (t: Tree) => (t.dirs, t.files), (t: Tree) => true);
  }

  lemma DeltaCodecIsCanonical()
    ensures Canonical(DirsDelta()) && Canonical(FilesDelta()) && Canonical(DeltaCodec())
  {
    FieldCodecsAreCanonical();
    DirCodecIsCanonical();
    FileCodecIsCanonical();
    var placed := Both(U32(), FileCodec());
    BothIsCanonical(U32(), FileCodec());
    CountedIsCanonical(U32(), DirCodec());
    CountedIsCanonical(U32(), PathCodec());
    CountedIsCanonical(U32(), placed);
    CountedIsCanonical(U32(), U32());
    BothIsCanonical(Counted(U32(), DirCodec()), Counted(U32(), PathCodec()));
    BothIsCanonical(Counted(U32(), placed), Counted(U32(), U32()));
    BothIsCanonical(DirsDelta(), FilesDelta());
    ViewedIsCanonical(Both(DirsDelta(), FilesDelta()),
                      (v: ((seq<DirEntry>, seq<Path>), (seq<(nat, FileEntry)>, seq<nat>))) =>
                        Delta(v.0.0, v.0.1, v.1.0, v.1.1),
                      (d: Delta) => ((d.dirsUpserted, d.dirsRemoved), (d.filesUpserted, d.filesRemoved)),
                      (d: Delta) => true);
  }

  /** Encoding a manifest loses nothing, every accepted byte string is the
      encoding of the tree it decodes to, and no accepted string extends
      another. */
  lemma ManifestIsCanonical(t: Tree, b: Bytes, more: Bytes)
    ensures InBounds(t) ==> DecodeTree(EncodeTree(t)) == Some(t)
    ensures DecodeTree(b) == Some(t) ==> InBounds(t) && EncodeTree(t) == b
    ensures DecodeTree(b).Some? && more != [] ==> DecodeTree(b + more).None?
  {
    TreeCodecIsCanonical();
    WholeIsCanonical(TreeCodec(), t, b, more);
  }

  lemma DeltaIsCanonical(d: Delta, b: Bytes, more: Bytes)
    ensures DeltaCodec().valid(d) ==> DecodeDelta(EncodeDelta(d)) == Some(d)
    ensures DecodeDelta(b) == Some(d) ==> DeltaCodec().valid(d) && EncodeDelta(d) == b
    ensures DecodeDelta(b).Some? && more != [] ==> DecodeDelta(b + more).None?
  {
    DeltaCodecIsCanonical();
    WholeIsCanonical(DeltaCodec(), d, b, more);
  }

  lemma EncodingIsInjective(t: Tree, u: Tree)
    requires InBounds(t) && InBounds(u)
    ensures EncodeTree(t) == EncodeTree(u) ==> t == u
  {
    ManifestIsCanonical(t, [], []);
    ManifestIsCanonical(u, [], []);
  }

  // ---------------------------------------------------------- folding a delta

  /** Put a file at the slot the producer assigned, growing with tombstones. */
  function Place(files: seq<FileEntry>, slot: nat, file: FileEntry): seq<FileEntry> {
    if slot < |files| then files[slot := file]
    else files + seq(slot - |files|, _ => TOMBSTONE) + [file]
  }

  function Placed(files: seq<FileEntry>, upserts: seq<(nat, FileEntry)>): seq<FileEntry> {
    if upserts == [] then files else
    var (slot, file) := upserts[|upserts| - 1];
    Place(Placed(files, upserts[..|upserts| - 1]), slot, file)
  }

  function Cleared(files: seq<FileEntry>, removed: seq<nat>): (r: seq<FileEntry>)
    ensures |r| == |files|
  {
    if removed == [] then files else
    var before := Cleared(files, removed[..|removed| - 1]);
    var slot := removed[|removed| - 1];
    if slot < |before| then before[slot := TOMBSTONE] else before
  }

  /** Where each directory path stands; the last entry wins. */
  function Positions(dirs: seq<DirEntry>): (at: map<Path, nat>)
    ensures forall p :: p in at ==> at[p] < |dirs| && dirs[at[p]].relPath == p
  {
    if dirs == [] then map[] else
    var last := |dirs| - 1;
    Positions(dirs[..last])[dirs[last].relPath := last]
  }

  function Retained(dirs: seq<DirEntry>, removed: set<Path>): seq<DirEntry> {
    if dirs == [] then [] else
    var d := dirs[|dirs| - 1];
    Retained(dirs[..|dirs| - 1], removed) + if d.relPath in removed then [] else [d]
  }

  /** The upserts that rewrite an entry in place. */
  function Rewritten(dirs: seq<DirEntry>, at: map<Path, nat>, upserts: seq<DirEntry>): (r: seq<DirEntry>)
    requires forall p :: p in at ==> at[p] < |dirs|
    ensures |r| == |dirs|
  {
    if upserts == [] then dirs else
    var d := upserts[|upserts| - 1];
    var before := Rewritten(dirs, at, upserts[..|upserts| - 1]);
    if d.relPath in at then before[at[d.relPath] := d] else before
  }

  /** The upserts that name a directory not yet in the list. */
  function Fresh(at: map<Path, nat>, upserts: seq<DirEntry>): seq<DirEntry> {
    if upserts == [] then [] else
    var d := upserts[|upserts| - 1];
    Fresh(at, upserts[..|upserts| - 1]) + if d.relPath in at then [] else [d]
  }

  function AppliedDirs(dirs: seq<DirEntry>, delta: Delta): seq<DirEntry> {
    var kept := Retained(dirs, set p | p in delta.dirsRemoved);
    var at := Positions(kept);
    Rewritten(kept, at, delta.dirsUpserted) + Fresh(at, delta.dirsUpserted)
  }

  function Applied(t: Tree, delta: Delta): Tree {
    Tree(AppliedDirs(t.dirs, delta),
         Cleared(Placed(t.files, delta.filesUpserted), delta.filesRemoved))
  }

  // What applying a delta means, slot by slot and path by path.

  function LastUpsert(upserts: seq<(nat, FileEntry)>, slot: nat): Option<FileEntry> {
    if upserts == [] then None
    else if upserts[|upserts| - 1].0 == slot then Some(upserts[|upserts| - 1].1)
    else LastUpsert(upserts[..|upserts| - 1], slot)
  }

  lemma {:induction false} PlacedLength(files: seq<FileEntry>, upserts: seq<(nat, FileEntry)>)
    ensures |Placed(files, upserts)| >= |files|
    ensures forall k :: 0 <= k < |upserts| ==> upserts[k].0 < |Placed(files, upserts)|
    ensures |Placed(files, upserts)| > |files| ==>
              LastUpsert(upserts, |Placed(files, upserts)| - 1).Some?
    decreases |upserts|
  {
    if upserts != [] {
      var (slot, file) := upserts[|upserts| - 1];
      PlacedLength(files, upserts[..|upserts| - 1]);
      assert Placed(files, upserts) == Place(Placed(files, upserts[..|upserts| - 1]), slot, file);
    }
  }

  lemma {:induction false} PlacedSlot(files: seq<FileEntry>, upserts: seq<(nat, FileEntry)>, slot: nat)
    requires slot < |Placed(files, upserts)|
    ensures Placed(files, upserts)[slot] ==
            match LastUpsert(upserts, slot)
            case Some(file) => file
            case None => if slot < |files| then files[slot] else TOMBSTONE
    decreases |upserts|
  {
    if upserts != [] {
      var before := Placed(files, upserts[..|upserts| - 1]);
      var (at, file) := upserts[|upserts| - 1];
      assert Placed(files, upserts) == Place(before, at, file);
      PlacedLength(files, upserts[..|upserts| - 1]);
      if slot < |before| {
        PlacedSlot(files, upserts[..|upserts| - 1], slot);
      } else if at != slot {
        NoUpsertPastEnd(upserts[..|upserts| - 1], slot, |before|);
      }
    }
  }

  lemma {:induction false} NoUpsertPastEnd(upserts: seq<(nat, FileEntry)>, slot: nat, end: nat)
    requires end <= slot && forall k :: 0 <= k < |upserts| ==> upserts[k].0 < end
    ensures LastUpsert(upserts, slot).None?
    decreases |upserts|
  {
    if upserts != [] {
      NoUpsertPastEnd(upserts[..|upserts| - 1], slot, end);
    }
  }

  lemma {:induction false} ClearedSlot(files: seq<FileEntry>, removed: seq<nat>, slot: nat)
    requires slot < |files|
    ensures Cleared(files, removed)[slot] == if slot in removed then TOMBSTONE else files[slot]
    decreases |removed|
  {
    if removed != [] {
      ClearedSlot(files, removed[..|removed| - 1], slot);
    }
  }

  /** Removal beats upsert, the last upsert of a slot beats the others, gaps are
      tombstones, untouched slots are kept, and the list grows exactly to the
      highest slot upserted: removing a slot past the end reserves nothing. */
  lemma FilesAfterDelta(t: Tree, delta: Delta)
    ensures var files := Applied(t, delta).files;
            && |files| >= |t.files|
            && (forall k :: 0 <= k < |delta.filesUpserted| ==> delta.filesUpserted[k].0 < |files|)
            && (|files| > |t.files| ==> LastUpsert(delta.filesUpserted, |files| - 1).Some?)
            && forall slot :: 0 <= slot < |files| ==>
                 files[slot] ==
                 if slot in delta.filesRemoved then TOMBSTONE
                 else match LastUpsert(delta.filesUpserted, slot)
                      case Some(file) => file
                      case None => if slot < |t.files| then t.files[slot] else TOMBSTONE
  {
    var placed := Placed(t.files, delta.filesUpserted);
    PlacedLength(t.files, delta.filesUpserted);
    forall slot | 0 <= slot < |placed|
      ensures Cleared(placed, delta.filesRemoved)[slot] ==
              if slot in delta.filesRemoved then TOMBSTONE else placed[slot]
      ensures placed[slot] == match LastUpsert(delta.filesUpserted, slot)
                              case Some(file) => file
                              case None => if slot < |t.files| then t.files[slot] else TOMBSTONE
    {
      PlacedSlot(t.files, delta.filesUpserted, slot);
      ClearedSlot(placed, delta.filesRemoved, slot);
    }
  }

  /** Directories read as a map from path to entry; the last entry wins. */
  function Lookup(dirs: seq<DirEntry>, p: Path): Option<DirEntry> {
    if dirs == [] then None
    else if dirs[|dirs| - 1].relPath == p then Some(dirs[|dirs| - 1])
    else Lookup(dirs[..|dirs| - 1], p)
  }

  predicate DistinctDirs(dirs: seq<DirEntry>) {
    forall i, j :: 0 <= i < j < |dirs| ==> dirs[i].relPath != dirs[j].relPath
  }

  lemma {:induction false} LookupIsPosition(dirs: seq<DirEntry>, p: Path)
    ensures Lookup(dirs, p) == if p in Positions(dirs) then Some(dirs[Positions(dirs)[p]]) else None
    ensures Lookup(dirs, p).Some? ==> Lookup(dirs, p).value.relPath == p
    decreases |dirs|
  {
    if dirs != [] {
      LookupIsPosition(dirs[..|dirs| - 1], p);
    }
  }

  lemma {:induction false} LookupAppend(a: seq<DirEntry>, b: seq<DirEntry>, p: Path)
    ensures Lookup(a + b, p) == if Lookup(b, p).Some? then Lookup(b, p) else Lookup(a, p)
    decreases |b|
  {
    if b == [] {
      assert a + b == a;
    } else {
      assert (a + b)[..|a + b| - 1] == a + b[..|b| - 1];
      LookupAppend(a, b[..|b| - 1], p);
    }
  }

  lemma {:induction false} RetainedLookup(dirs: seq<DirEntry>, removed: set<Path>, p: Path)
    ensures Lookup(Retained(dirs, removed), p) == if p in removed then None else Lookup(dirs, p)
    decreases |dirs|
  {
    if dirs != [] {
      var front, d := dirs[..|dirs| - 1], dirs[|dirs| - 1];
      RetainedLookup(front, removed, p);
      LookupAppend(Retained(front, removed), if d.relPath in removed then [] else [d], p);
    }
  }

  lemma {:induction false} RewrittenLookup(kept: seq<DirEntry>, upserts: seq<DirEntry>, p: Path)
    requires p in Positions(kept)
    ensures Rewritten(kept, Positions(kept), upserts)[Positions(kept)[p]] ==
            if Lookup(upserts, p).Some? then Lookup(upserts, p).value else kept[Positions(kept)[p]]
    decreases |upserts|
  {
    if upserts != [] {
      RewrittenLookup(kept, upserts[..|upserts| - 1], p);
    }
  }

  lemma {:induction false} FreshLookup(at: map<Path, nat>, upserts: seq<DirEntry>, p: Path)
    ensures Lookup(Fresh(at, upserts), p) == if p in at then None else Lookup(upserts, p)
    decreases |upserts|
  {
    if upserts != [] {
      var front, d := upserts[..|upserts| - 1], upserts[|upserts| - 1];
      FreshLookup(at, front, p);
      LookupAppend(Fresh(at, front), if d.relPath in at then [] else [d], p);
    }
  }

  lemma {:induction false} RewrittenKeepsPath(kept: seq<DirEntry>, upserts: seq<DirEntry>, i: nat)
    requires i < |kept|
    ensures Rewritten(kept, Positions(kept), upserts)[i].relPath == kept[i].relPath
    decreases |upserts|
  {
    if upserts != [] {
      RewrittenKeepsPath(kept, upserts[..|upserts| - 1], i);
    }
  }

  lemma {:induction false} SamePathsSamePositions(a: seq<DirEntry>, b: seq<DirEntry>)
    requires |a| == |b| && forall i :: 0 <= i < |a| ==> a[i].relPath == b[i].relPath
    ensures Positions(a) == Positions(b)
    decreases |a|
  {
    if a != [] {
      SamePathsSamePositions(a[..|a| - 1], b[..|b| - 1]);
    }
  }

  /** Directories fold as a map override, whatever order the lists are in. */
  lemma DirsAfterDelta(t: Tree, delta: Delta, p: Path)
    ensures Lookup(Applied(t, delta).dirs, p) ==
            if Lookup(delta.dirsUpserted, p).Some? then Lookup(delta.dirsUpserted, p)
            else if p in delta.dirsRemoved then None
            else Lookup(t.dirs, p)
  {
    var removed := set p | p in delta.dirsRemoved;
    var kept := Retained(t.dirs, removed);
    var at := Positions(kept);
    var rewritten := Rewritten(kept, at, delta.dirsUpserted);
    RetainedLookup(t.dirs, removed, p);
    LookupIsPosition(kept, p);
    FreshLookup(at, delta.dirsUpserted, p);
    LookupAppend(rewritten, Fresh(at, delta.dirsUpserted), p);
    forall i | 0 <= i < |kept| ensures rewritten[i].relPath == kept[i].relPath {
      RewrittenKeepsPath(kept, delta.dirsUpserted, i);
    }
    SamePathsSamePositions(kept, rewritten);
    LookupIsPosition(rewritten, p);
    if p in at {
      RewrittenLookup(kept, delta.dirsUpserted, p);
    }
  }

  lemma {:induction false} RetainedDistinct(dirs: seq<DirEntry>, removed: set<Path>)
    requires DistinctDirs(dirs)
    ensures DistinctDirs(Retained(dirs, removed))
    ensures forall k :: 0 <= k < |Retained(dirs, removed)| ==> Retained(dirs, removed)[k] in dirs
    decreases |dirs|
  {
    if dirs != [] {
      RetainedDistinct(dirs[..|dirs| - 1], removed);
    }
  }

  lemma {:induction false} PositionsCover(dirs: seq<DirEntry>, i: nat)
    requires i < |dirs|
    ensures dirs[i].relPath in Positions(dirs)
    decreases |dirs|
  {
    if i < |dirs| - 1 {
      PositionsCover(dirs[..|dirs| - 1], i);
    }
  }

  lemma {:induction false} FreshIsNew(at: map<Path, nat>, upserts: seq<DirEntry>)
    ensures forall k :: 0 <= k < |Fresh(at, upserts)| ==> Fresh(at, upserts)[k].relPath !in at
    decreases |upserts|
  {
    if upserts != [] {
      FreshIsNew(at, upserts[..|upserts| - 1]);
    }
  }

  lemma DistinctConcat(a: seq<DirEntry>, b: seq<DirEntry>)
    requires DistinctDirs(a)
    requires forall i, j :: 0 <= i < |a| && 0 <= j < |b| ==> a[i].relPath != b[j].relPath
    ensures DistinctDirs(a + b) <==> DistinctDirs(b)
  {
    if DistinctDirs(a + b) {
      forall i, j | 0 <= i < j < |b| ensures b[i].relPath != b[j].relPath {
        assert (a + b)[|a| + i] == b[i] && (a + b)[|a| + j] == b[j];
      }
    }
  }

  /** The list keeps one entry per path exactly when the delta does not upsert
      the same new path twice. */
  lemma DirsStayDistinct(t: Tree, delta: Delta)
    requires DistinctDirs(t.dirs)
    ensures var kept := Retained(t.dirs, set p | p in delta.dirsRemoved);
            DistinctDirs(Applied(t, delta).dirs) <==>
            DistinctDirs(Fresh(Positions(kept), delta.dirsUpserted))
  {
    var kept := Retained(t.dirs, set p | p in delta.dirsRemoved);
    var at := Positions(kept);
    var rewritten := Rewritten(kept, at, delta.dirsUpserted);
    RetainedDistinct(t.dirs, set p | p in delta.dirsRemoved);
    FreshIsNew(at, delta.dirsUpserted);
    forall i | 0 <= i < |kept| ensures rewritten[i].relPath == kept[i].relPath && kept[i].relPath in at {
      RewrittenKeepsPath(kept, delta.dirsUpserted, i);
      PositionsCover(kept, i);
    }
    DistinctConcat(rewritten, Fresh(at, delta.dirsUpserted));
  }

  // ------------------------------------------------------ the mutable manifest

  class MountManifest {
    var dirs: seq<DirEntry>
    var files: seq<FileEntry>

    constructor (dirs: seq<DirEntry>, files: seq<FileEntry>)
      ensures this.dirs == dirs && this.files == files
    {
      this.dirs, this.files := dirs, files;
    }

    function Value(): Tree
      reads this
    {
      Tree(dirs, files)
    }

    method Encode() returns (out: Bytes)
      requires InBounds(Value())
      ensures out == EncodeTree(Value())
    {
      out := WriteCounted([], U32(), DirCodec(), dirs);
      out := WriteCounted(out, U32(), FileCodec(), files);
      assert [] + Counted(U32(), DirCodec()).encode(dirs) == Counted(U32(), DirCodec()).encode(dirs);
    }

    /** Directories first, then files; removals before upserts for the one,
        after them for the other. */
    method Apply(delta: Delta)
      modifies this
      ensures Value() == Applied(old(Value()), delta)
    {
      RemoveDirs(delta.dirsRemoved);
      UpsertDirs(delta.dirsUpserted);
      PlaceFiles(delta.filesUpserted);
      ClearFiles(delta.filesRemoved);
    }

    method RemoveDirs(gone: seq<Path>)
      modifies this
      ensures files == old(files)
      ensures dirs == Retained(old(dirs), set p | p in gone)
    {
      var removed := set p | p in gone;
      if gone != [] {
        var all := dirs;
        dirs := [];
        for i := 0 to |all|
          invariant dirs == Retained(all[..i], removed)
          invariant files == old(files)
        {
          assert all[..i + 1][..i] == all[..i];
          if all[i].relPath !in removed {
            dirs := dirs + [all[i]];
          } else {
            assert dirs + [] == dirs;
          }
        }
        assert all[..|all|] == all;
      } else {
        RetainedNothing(dirs);
        assert removed == {};
      }
    }

    method PlaceFiles(upserts: seq<(nat, FileEntry)>)
      modifies this
      ensures dirs == old(dirs)
      ensures files == Placed(old(files), upserts)
    {
      for i := 0 to |upserts|
        invariant dirs == old(dirs)
        invariant files == Placed(old(files), upserts[..i])
      {
        var (slot, file) := upserts[i];
        assert upserts[..i + 1][..i] == upserts[..i];
        if slot >= |files| {
          files := files + seq(slot + 1 - |files|, _ => TOMBSTONE);
        }
        files := files[slot := file];
      }
      assert upserts[..|upserts|] == upserts;
    }

    method ClearFiles(removed: seq<nat>)
      modifies this
      ensures dirs == old(dirs)
      ensures files == Cleared(old(files), removed)
    {
      for i := 0 to |removed|
        invariant dirs == old(dirs)
        invariant files == Cleared(old(files), removed[..i])
      {
        assert removed[..i + 1][..i] == removed[..i];
        if removed[i] < |files| {
          files := files[removed[i] := TOMBSTONE];
        }
      }
      assert removed[..|removed|] == removed;
    }

    /** Decide first, mutate second: positions are looked up before any entry is
        rewritten. */
    method UpsertDirs(upserts: seq<DirEntry>)
      modifies this
      ensures files == old(files)
      ensures dirs == Rewritten(old(dirs), Positions(old(dirs)), upserts)
                      + Fresh(Positions(old(dirs)), upserts)
    {
      if upserts == [] {
        assert dirs + [] == dirs;
        return;
      }
      var at := IndexDirs(dirs);
      var updates, appended := Partition(dirs, at, upserts);
      ghost var before := dirs;
      for i := 0 to |updates|
        invariant files == old(files) && |dirs| == |before|
        invariant dirs == Overwritten(before, updates[..i])
      {
        assert updates[..i + 1][..i] == updates[..i];
        dirs := dirs[updates[i].0 := updates[i].1];
      }
      assert updates[..|updates|] == updates;
      dirs := dirs + appended;
    }
  }

  method IndexDirs(dirs: seq<DirEntry>) returns (at: map<Path, nat>)
    ensures at == Positions(dirs)
  {
    at := map[];
    for i := 0 to |dirs|
      invariant at == Positions(dirs[..i])
    {
      assert dirs[..i + 1][..i] == dirs[..i];
      at := at[dirs[i].relPath := i];
    }
    assert dirs[..|dirs|] == dirs;
  }

  ghost predicate InRange(updates: seq<(nat, DirEntry)>, len: nat) {
    forall k :: 0 <= k < |updates| ==> updates[k].0 < len
  }

  ghost function Overwritten(dirs: seq<DirEntry>, updates: seq<(nat, DirEntry)>): (r: seq<DirEntry>)
    requires InRange(updates, |dirs|)
    ensures |r| == |dirs|
  {
    if updates == [] then dirs else
    Overwritten(dirs, updates[..|updates| - 1])[updates[|updates| - 1].0 := updates[|updates| - 1].1]
  }

  method Partition(dirs: seq<DirEntry>, at: map<Path, nat>, upserts: seq<DirEntry>)
    returns (updates: seq<(nat, DirEntry)>, appended: seq<DirEntry>)
    requires forall p :: p in at ==> at[p] < |dirs|
    ensures InRange(updates, |dirs|)
    ensures Overwritten(dirs, updates) == Rewritten(dirs, at, upserts)
    ensures appended == Fresh(at, upserts)
  {
    updates, appended := [], [];
    for i := 0 to |upserts|
      invariant InRange(updates, |dirs|)
      invariant Overwritten(dirs, updates) == Rewritten(dirs, at, upserts[..i])
      invariant appended == Fresh(at, upserts[..i])
    {
      assert upserts[..i + 1][..i] == upserts[..i];
      if upserts[i].relPath in at {
        var next := updates + [(at[upserts[i].relPath], upserts[i])];
        assert next[..|updates|] == updates;
        assert appended + [] == appended;
        updates := next;
      } else {
        appended := appended + [upserts[i]];
      }
    }
    assert upserts[..|upserts|] == upserts;
  }

  lemma {:induction false} RetainedNothing(dirs: seq<DirEntry>)
    ensures Retained(dirs, {}) == dirs
    decreases |dirs|
  {
    if dirs != [] {
      RetainedNothing(dirs[..|dirs| - 1]);
    }
  }

  // ------------------------------------------------------------------ decoding

  lemma TreeSteps(b: Bytes)
    ensures match DecodeTwoCounted(U32(), DirCodec(), FileCodec(), b)
            case None => DecodeTree(b).None?
            case Some((lists, used)) =>
              DecodeTree(b) == if used == |b| then Some(Tree(lists.0, lists.1)) else None
  {
    TwoCounted(U32(), DirCodec(), FileCodec(), b);
  }

  method DecodeManifest(bytes: Bytes) returns (r: Option<Tree>)
    ensures r == DecodeTree(bytes)
  {
    TreeSteps(bytes);
    var cursor := new Cursor(bytes);
    assert bytes[0..] == bytes;
    var lists := cursor.TakeTwoCounted(U32(), DirCodec(), FileCodec());
    if lists.None? || cursor.pos != |bytes| {
      return None;
    }
    return Some(Tree(lists.value.0, lists.value.1));
  }

  lemma DeltaSteps(b: Bytes)
    ensures match DecodeTwoCounted(U32(), DirCodec(), PathCodec(), b)
            case None => DecodeDelta(b).None?
            case Some((dirs, m)) =>
              m <= |b| ==>
              match DecodeTwoCounted(U32(), Both(U32(), FileCodec()), U32(), b[m..])
              case None => DecodeDelta(b).None?
              case Some((files, n)) =>
                DecodeDelta(b) == if m + n == |b| then Some(Delta(dirs.0, dirs.1, files.0, files.1))
                                  else None
  {
    TwoCounted(U32(), DirCodec(), PathCodec(), b);
    var dirs := DirsDelta().decode(b);
    if dirs.Some? && dirs.value.1 <= |b| {
      TwoCounted(U32(), Both(U32(), FileCodec()), U32(), b[dirs.value.1..]);
    }
    WholeOfBoth(DirsDelta(), FilesDelta(),
                (v: ((seq<DirEntry>, seq<Path>), (seq<(nat, FileEntry)>, seq<nat>))) =>
                  Delta(v.0.0, v.0.1, v.1.0, v.1.1),
                (d: Delta) => ((d.dirsUpserted, d.dirsRemoved), (d.filesUpserted, d.filesRemoved)),
                (d: Delta) => true, b);
  }

  method DecodeManifestDelta(bytes: Bytes) returns (r: Option<Delta>)
    ensures r == DecodeDelta(bytes)
  {
    DeltaSteps(bytes);
    var cursor := new Cursor(bytes);
    assert bytes[0..] == bytes;
    var dirs := cursor.TakeTwoCounted(U32(), DirCodec(), PathCodec());
    if dirs.None? {
      return None;
    }
    var files := cursor.TakeTwoCounted(U32(), Both(U32(), FileCodec()), U32());
    if files.None? || cursor.pos != |bytes| {
      return None;
    }
    return Some(Delta(dirs.value.0, dirs.value.1, files.value.0, files.value.1));
  }
}
