/** What folding a delta does to the bounds a tree must keep to be encoded. */
module Bounds {
  import opened Wrappers
  import opened Codec
  import opened Manifest

  /** Every entry fits its own fields; the counts are another matter. */
  predicate EntriesFit(t: Tree) { AllValid(DirCodec(), t.dirs) && AllValid(FileCodec(), t.files) }

  /** Encoding panics on a tree of fitting entries only for its two counts. */
  lemma InBoundsIff(t: Tree)
    ensures InBounds(t) <==> EntriesFit(t) && |t.dirs| <= U32_MAX && |t.files| <= U32_MAX
  {
    hide AllValid, DirCodec, FileCodec;
    Powers();
  }

  predicate EditFits(edit: (nat, FileEntry)) { edit.0 <= U32_MAX && FileCodec().valid(edit.1) }

  /** What a delta off the wire carries. */
  predicate EditsFit(d: Delta) {
    && AllValid(DirCodec(), d.dirsUpserted)
    && (forall k :: 0 <= k < |d.filesUpserted| ==> EditFits(d.filesUpserted[k]))
  }

  lemma DecodedEditsFit(b: Bytes)
    requires DecodeDelta(b).Some?
    ensures EditsFit(DecodeDelta(b).value)
  {
    hide FileCodec, DirCodec, PathCodec, DecodeDelta;
    DeltaIsCanonical(DecodeDelta(b).value, b, []);
    ValidEditsFit(DecodeDelta(b).value);
  }

  lemma ValidEditsFit(d: Delta)
    requires DeltaCodec().valid(d)
    ensures EditsFit(d)
  {
    hide FileCodec, DirCodec, PathCodec;
    Powers();
    assert AllValid(Both(U32(), FileCodec()), d.filesUpserted);
    forall k | 0 <= k < |d.filesUpserted| ensures EditFits(d.filesUpserted[k]) {
      assert Both(U32(), FileCodec()).valid(d.filesUpserted[k]);
    }
  }

  // ------------------------------------------------------------ entries still fit

  lemma TombstoneFits()
    ensures FileCodec().valid(TOMBSTONE)
  {
    Powers();
    assert Utf8([]) && PathCodec().valid([]);
    assert IsTime(0) && FromTime(0) == 0 && U64().valid(FromTime(0));
    assert TimeCodec().valid(0) by {
      assert TimeCodec() == Viewed(U64(), ToTime, FromTime, IsTime);
    }
    assert Both(U32(), TimeCodec()).valid((0, 0));
    assert Both(U64(), Both(U32(), TimeCodec())).valid((0, (0, 0)));
  }

  lemma {:induction false} LastUpsertIsOne(upserts: seq<(nat, FileEntry)>, slot: nat)
    ensures LastUpsert(upserts, slot).Some? ==> (slot, LastUpsert(upserts, slot).value) in upserts
    decreases |upserts|
  {
    if upserts != [] && upserts[|upserts| - 1].0 != slot {
      LastUpsertIsOne(upserts[..|upserts| - 1], slot);
    }
  }

  lemma {:induction false} RetainedFits(dirs: seq<DirEntry>, removed: set<Path>)
    requires AllValid(DirCodec(), dirs)
    ensures AllValid(DirCodec(), Retained(dirs, removed))
    decreases |dirs|
  {
    hide DirCodec;
    if dirs != [] {
      RetainedFits(dirs[..|dirs| - 1], removed);
    }
  }

  lemma {:induction false} RewrittenFits(dirs: seq<DirEntry>, at: map<Path, nat>, upserts: seq<DirEntry>)
    requires forall p :: p in at ==> at[p] < |dirs|
    requires AllValid(DirCodec(), dirs) && AllValid(DirCodec(), upserts)
    ensures AllValid(DirCodec(), Rewritten(dirs, at, upserts))
    decreases |upserts|
  {
    hide DirCodec;
    if upserts != [] {
      RewrittenFits(dirs, at, upserts[..|upserts| - 1]);
    }
  }

  lemma {:induction false} FreshFits(at: map<Path, nat>, upserts: seq<DirEntry>)
    requires AllValid(DirCodec(), upserts)
    ensures AllValid(DirCodec(), Fresh(at, upserts))
    decreases |upserts|
  {
    hide DirCodec;
    if upserts != [] {
      FreshFits(at, upserts[..|upserts| - 1]);
    }
  }

  lemma DirsFit(dirs: seq<DirEntry>, delta: Delta)
    requires AllValid(DirCodec(), dirs) && EditsFit(delta)
    ensures AllValid(DirCodec(), AppliedDirs(dirs, delta))
  {
    hide DirCodec, Retained, Rewritten, Fresh, EditFits;
    var kept := Retained(dirs, set p | p in delta.dirsRemoved);
    RetainedFits(dirs, set p | p in delta.dirsRemoved);
    RewrittenFits(kept, Positions(kept), delta.dirsUpserted);
    FreshFits(Positions(kept), delta.dirsUpserted);
  }

  lemma FilesFit(t: Tree, delta: Delta)
    requires EntriesFit(t) && EditsFit(delta)
    ensures AllValid(FileCodec(), Applied(t, delta).files)
  {
    hide DirCodec, FileCodec, Applied;
    FilesAfterDelta(t, delta);
    TombstoneFits();
    forall slot | 0 <= slot < |Applied(t, delta).files| ensures FileCodec().valid(Applied(t, delta).files[slot]) {
      LastUpsertIsOne(delta.filesUpserted, slot);
      if LastUpsert(delta.filesUpserted, slot).Some? {
        var k :| 0 <= k < |delta.filesUpserted|
              && delta.filesUpserted[k] == (slot, LastUpsert(delta.filesUpserted, slot).value);
        assert EditFits(delta.filesUpserted[k]);
      }
    }
  }

  lemma AppliedFits(t: Tree, delta: Delta)
    requires EntriesFit(t) && EditsFit(delta)
    ensures EntriesFit(Applied(t, delta))
  {
    hide DirCodec, FileCodec, EditsFit, AllValid;
    DirsFit(t.dirs, delta);
    FilesFit(t, delta);
  }

  // --------------------------------------------------------------------- counts

  predicate UpsertsSlot(d: Delta, slot: nat) {
    exists k :: 0 <= k < |d.filesUpserted| && d.filesUpserted[k].0 == slot
  }

  /** The file list outgrows its count only by an upsert of the last slot a u32
      can name. */
  lemma FileCount(t: Tree, delta: Delta)
    requires |t.files| <= U32_MAX + 1 && EditsFit(delta)
    ensures var n := |Applied(t, delta).files|;
            && n <= U32_MAX + 1
            && (n > U32_MAX <==> |t.files| > U32_MAX || UpsertsSlot(delta, U32_MAX))
  {
    hide Applied, FileCodec, AllValid;
    FilesAfterDelta(t, delta);
    var n := |Applied(t, delta).files|;
    if n > |t.files| {
      LastUpsertIsOne(delta.filesUpserted, n - 1);
      var k :| 0 <= k < |delta.filesUpserted|
            && delta.filesUpserted[k] == (n - 1, LastUpsert(delta.filesUpserted, n - 1).value);
      assert EditFits(delta.filesUpserted[k]);
    }
  }

  // ------------------------------------------------------- the smallest such delta

  const LAST_SLOT_DELTA := Delta([], [], [(U32_MAX, TOMBSTONE)], [])

  lemma Width(width: nat, v: nat)
    ensures |Unsigned(width).encode(v)| == width
  {
  }

  lemma TombstoneIsShort()
    ensures |FileCodec().encode(TOMBSTONE)| == 22
  {
    hide LittleEndian;
    Width(2, 0);
    Width(4, 0);
    Width(8, 0);
    assert FromTime(0) == 0;
    assert TimeCodec().encode(0) == U64().encode(FromTime(0));
    assert |Both(U32(), TimeCodec()).encode((0, 0))| == 12;
    assert |Both(U64(), Both(U32(), TimeCodec())).encode((0, (0, 0)))| == 20;
    assert |PathCodec().encode([])| == 2;
    assert FileCodec().encode(TOMBSTONE) ==
           PathCodec().encode([]) + Both(U64(), Both(U32(), TimeCodec())).encode((0, (0, 0)));
  }

  /** A count of nothing. */
  lemma NothingCounted<T>(item: Codec<T>)
    ensures Counted(U32(), item).valid([]) && |Counted(U32(), item).encode([])| == 4
  {
    Width(4, 0);
    Powers();
  }

  lemma OneCounted<T>(item: Codec<T>, t: T)
    requires item.valid(t)
    ensures Counted(U32(), item).valid([t]) && |Counted(U32(), item).encode([t])| == 4 + |item.encode(t)|
  {
    Width(4, 1);
    Powers();
    assert EncodeAll(item, [t]) == item.encode(t) + EncodeAll(item, [t][1..]);
  }

  lemma LastSlotDeltaIsWritten()
    ensures DeltaCodec().valid(LAST_SLOT_DELTA) && UpsertsSlot(LAST_SLOT_DELTA, U32_MAX)
    ensures |EncodeDelta(LAST_SLOT_DELTA)| == 42
  {
    hide FileCodec, DirCodec, PathCodec, Unsigned, Counted;
    var d, edit := LAST_SLOT_DELTA, (U32_MAX, TOMBSTONE);
    TombstoneFits();
    TombstoneIsShort();
    LastSlotFits();
    assert Both(U32(), FileCodec()).valid(edit);
    NothingCounted(DirCodec());
    NothingCounted(PathCodec());
    NothingCounted(U32());
    OneCounted(Both(U32(), FileCodec()), edit);
    assert DirsDelta().valid(([], [])) && |DirsDelta().encode(([], []))| == 8;
    assert FilesDelta().valid(([edit], [])) && |FilesDelta().encode(([edit], []))| == 34;
    assert d.filesUpserted[0].0 == U32_MAX;
  }

  lemma LastSlotFits()
    ensures U32().valid(U32_MAX) && |U32().encode(U32_MAX)| == 4
  {
    Powers();
    Width(4, U32_MAX);
  }
}
