/**
 From the producer's rescans to a consumer's READ addresses.

 A history is every view one producer has had, in order; what it publishes is
 the encoding of each under its version. A consumer sees only frames that anyone
 may have relayed or forged.
 */
module EndToEnd {
  import opened Wrappers
  import opened Codec
  import opened Manifest
  import opened Authorship
  import opened Watch
  import opened SlotTable
  import opened LiveState
  import Seeder

  /** One call of the producer's update: a rescan, or one undone for its size. */
  ghost predicate Step<T(!new)>(v: View<T>, w: View<T>) {
    w == v || exists dirs, scan :: Scannable(v, dirs, scan) && w == Rescanned(v, dirs, scan)
  }

  ghost predicate History<T(!new)>(h: seq<View<T>>) {
    && |h| > 0 && WellFormed(h[0])
    && forall i :: 0 <= i < |h| - 1 ==> Step(h[i], h[i + 1])
  }

  /** A history starts with any well-formed view and goes on with any rescan. */
  lemma HistoriesGoOn<T(!new)>(h: seq<View<T>>, v: View<T>, dirs: seq<DirEntry>, scan: Scan<T>)
    ensures WellFormed(v) ==> History([v])
    ensures History(h) && Scannable(h[|h| - 1], dirs, scan) ==> History(h + [Rescanned(h[|h| - 1], dirs, scan)])
  {
    hide WellFormed, Rescanned, InBounds;
    if History(h) && Scannable(h[|h| - 1], dirs, scan) {
      assert Step(h[|h| - 1], Rescanned(h[|h| - 1], dirs, scan));
    }
  }

  ghost function PublishedBy<T(!new)>(h: seq<View<T>>): Published {
    iset i: nat | i < |h| :: (h[i].version, EncodeTree(h[i].Tree()))
  }

  lemma StepGrows<T(!new)>(v: View<T>, w: View<T>)
    requires WellFormed(v) && Step(v, w)
    ensures WellFormed(w) && v.table.paths <= w.table.paths
    ensures w == v || w.version == v.version + 1
  {
    hide InBounds, EncodeTree, SlotTable.Folded;
    if w != v {
      var dirs, scan :| Scannable(v, dirs, scan) && w == Rescanned(v, dirs, scan);
      VersionRisesWithTheBytes(v, dirs, scan);
      FoldedIsTheScan(v.table, scan, 0);
    }
  }

  /** Over any run of rescans a slot's path never changes, the slot list never
      shrinks, and a version names one view. */
  lemma {:induction false} HistoryGrows<T(!new)>(h: seq<View<T>>, i: nat, j: nat)
    requires History(h) && i <= j < |h|
    ensures WellFormed(h[i]) && WellFormed(h[j])
    ensures h[i].table.paths <= h[j].table.paths
    ensures h[i].version <= h[j].version
    ensures h[i].version == h[j].version ==> h[i] == h[j]
    decreases j
  {
    hide InBounds, Step, Table.Valid;
    if i < j {
      HistoryGrows(h, i, j - 1);
      StepGrows(h[j - 1], h[j]);
    } else if j > 0 {
      HistoryGrows(h, j - 1, j - 1);
      StepGrows(h[j - 1], h[j]);
    }
  }

  /** **The hypothesis of convergence, discharged.** A producer never publishes
      two different manifests under one version. */
  lemma ProducersPublishOncePerVersion<T(!new)>(h: seq<View<T>>)
    requires History(h)
    ensures OnePerVersion(PublishedBy(h))
  {
    hide InBounds, EncodeTree, Step, Table.Valid;
    forall p, q | p in PublishedBy(h) && q in PublishedBy(h) && p.0 == q.0 ensures p.1 == q.1 {
      var i: nat :| i < |h| && p == (h[i].version, EncodeTree(h[i].Tree()));
      var j: nat :| j < |h| && q == (h[j].version, EncodeTree(h[j].Tree()));
      if i <= j {
        HistoryGrows(h, i, j);
      } else {
        HistoryGrows(h, j, i);
      }
    }
  }

  /** Consumers of one producer that were sent the same whole-manifest frames, in
      any order and however many times, agree. */
  lemma FollowersAgree<T(!new)>(h: seq<View<T>>, start: SignedManifest, framesA: seq<Frame>,
                                framesB: seq<Frame>, author: PublicKey)
    requires History(h) && Unforgeable(author, PublishedBy(h))
    requires WholeFrames(framesA) && WholeFrames(framesB)
    requires forall f :: f in framesA <==> f in framesB
    ensures var a, b := Held(start, framesA, Some(author)), Held(start, framesB, Some(author));
            a.version == b.version && a.manifest == b.manifest
  {
    ProducersPublishOncePerVersion(h);
    ConsumersAgree(start, start, framesA, framesB, author, PublishedBy(h));
  }

  /** A follower that started no further than the producer, and was still running
      when the producer's newest whole frame came, holds exactly the newest view
      whatever else its feed carries, before or after. */
  lemma NewestIsHeld<T(!new)>(h: seq<View<T>>, start: SignedManifest, frames: seq<Frame>,
                              author: PublicKey, i: nat)
    requires History(h) && Unforgeable(author, PublishedBy(h))
    requires start.version <= h[|h| - 1].version
    requires i < |frames| && Genuine(frames[i], author) && OfferOf(frames[i]).version == h[|h| - 1].version
    requires Running(start, frames[..i], Some(author))
    ensures var held, newest := Held(start, frames, Some(author)), h[|h| - 1];
            held.version == newest.version && held.manifest == EncodeTree(newest.Tree())
  {
    hide InBounds, EncodeTree, DecodeTree, Step, Table.Valid, Held, Running, Unforgeable, Authorship.Decode;
    var held, newest := Held(start, frames, Some(author)), h[|h| - 1];
    ProducersPublishOncePerVersion(h);
    GenuineIsReached(start, frames, author, PublishedBy(h));
    RunsAreSafe(start, frames, Some(author), PublishedBy(h), 0);
    GenuineIsPublished(frames[i], author, PublishedBy(h));
    NoneIsNewer(h, (OfferOf(frames[i]).version, OfferOf(frames[i]).manifest));
    if held != start {
      NoneIsNewer(h, (held.version, held.manifest));
    }
    assert NotPast(frames[i], held);
  }

  /** **What was scanned last is what is seen**: such a follower decodes a tree with
      the directories and the live files of the producer's last rescan. */
  lemma LastScanIsSeen<T(!new)>(h: seq<View<T>>, dirs: seq<DirEntry>, scan: Scan<T>, start: SignedManifest,
                                frames: seq<Frame>, author: PublicKey, i: nat)
    requires History(h) && Unforgeable(author, PublishedBy(h)) && |h| >= 2
    requires Scannable(h[|h| - 2], dirs, scan) && h[|h| - 1] == Rescanned(h[|h| - 2], dirs, scan)
    requires start.version <= h[|h| - 1].version
    requires i < |frames| && Genuine(frames[i], author) && OfferOf(frames[i]).version == h[|h| - 1].version
    requires Running(start, frames[..i], Some(author))
    ensures var seen := DecodeTree(Held(start, frames, Some(author)).manifest);
            seen.Some? && DirSet(seen.value.dirs) == DirSet(dirs) && LiveSet(seen.value.files) == Listed(scan)
  {
    hide InBounds, EncodeTree, DecodeTree, Step, Table.Valid, Held, Running, Unforgeable, Authorship.Decode;
    hide DirSet, LiveSet, Listed, Rescanned;
    NewestIsHeld(h, start, frames, author, i);
    HistoryGrows(h, |h| - 2, |h| - 1);
    RescanPublishesTheListing(h[|h| - 2], dirs, scan);
    ManifestIsCanonical(h[|h| - 1].Tree(), [], []);
  }

  /** The last view is the newest published, and alone under its version. */
  lemma NoneIsNewer<T(!new)>(h: seq<View<T>>, p: (nat, Bytes))
    requires History(h) && p in PublishedBy(h)
    ensures p.0 <= h[|h| - 1].version
    ensures p.0 == h[|h| - 1].version ==> p.1 == EncodeTree(h[|h| - 1].Tree())
  {
    hide InBounds, EncodeTree, Step, Table.Valid;
    var k: nat :| k < |h| && p == (h[k].version, EncodeTree(h[k].Tree()));
    HistoryGrows(h, k, |h| - 1);
  }

  /** So two followers of different mixed feeds, with the newest whole frame in
      each, agree. */
  lemma MixedFollowersAgree<T(!new)>(h: seq<View<T>>, a: SignedManifest, b: SignedManifest, framesA: seq<Frame>,
                                     framesB: seq<Frame>, author: PublicKey, i: nat, j: nat)
    requires History(h) && Unforgeable(author, PublishedBy(h))
    requires a.version <= h[|h| - 1].version && b.version <= h[|h| - 1].version
    requires i < |framesA| && Genuine(framesA[i], author) && OfferOf(framesA[i]).version == h[|h| - 1].version
    requires j < |framesB| && Genuine(framesB[j], author) && OfferOf(framesB[j]).version == h[|h| - 1].version
    requires Running(a, framesA[..i], Some(author)) && Running(b, framesB[..j], Some(author))
    ensures var endA, endB := Held(a, framesA, Some(author)), Held(b, framesB, Some(author));
            endA.version == endB.version && endA.manifest == endB.manifest
  {
    NewestIsHeld(h, a, framesA, author, i);
    NewestIsHeld(h, b, framesB, author, j);
  }

  /** What a consumer holds after any frames is one of the producer's views. */
  lemma HeldIsAView<T(!new)>(h: seq<View<T>>, start: SignedManifest, frames: seq<Frame>,
                             author: PublicKey) returns (i: nat)
    requires History(h) && Unforgeable(author, PublishedBy(h))
    requires (start.version, start.manifest) in PublishedBy(h)
    ensures i < |h|
    ensures var held := Held(start, frames, Some(author));
            held.version == h[i].version && DecodeTree(held.manifest) == Some(h[i].Tree())
  {
    hide InBounds, EncodeTree, DecodeTree, Step, Table.Valid, Held;
    RunsAreSafe(start, frames, Some(author), PublishedBy(h), 0);
    var held := Held(start, frames, Some(author));
    assert (held.version, held.manifest) in PublishedBy(h);
    i :| i < |h| && (held.version, held.manifest) == (h[i].version, EncodeTree(h[i].Tree()));
    HistoryGrows(h, i, i);
    ManifestIsCanonical(h[i].Tree(), [], []);
  }

  /** Every live entry of a listing stands at the slot its path owns. */
  ghost predicate AtItsSlot(files: seq<FileEntry>, paths: seq<Path>) {
    && |files| <= |paths|
    && forall k :: 0 <= k < |files| ==> files[k].IsTombstone() || files[k].relPath == paths[k]
  }

  lemma ViewsKeepTheirSlots<T(!new)>(h: seq<View<T>>, i: nat)
    requires History(h) && i < |h|
    ensures AtItsSlot(h[i].Tree().files, h[|h| - 1].table.paths)
    ensures |h[i].Tree().files| == |h[i].table.paths|
  {
    hide InBounds, Step;
    HistoryGrows(h, i, |h| - 1);
  }

  /** **READ addresses are stable end to end.** Over every run of rescans and
      every run of frames, true or forged, whole or delta: a slot the consumer
      has seen is never taken away, and whenever it is live it names the one path
      it belongs to for ever, across removal and re-creation alike. */
  lemma ReadAddressesAreStable<T(!new)>(h: seq<View<T>>, start: SignedManifest, frames: seq<Frame>,
                                        author: PublicKey, n: nat)
    requires History(h) && Unforgeable(author, PublishedBy(h))
    requires (start.version, start.manifest) in PublishedBy(h)
    requires n <= |frames|
    ensures var early := DecodeTree(Held(start, frames[..n], Some(author)).manifest);
            var late := DecodeTree(Held(start, frames, Some(author)).manifest);
            var paths := h[|h| - 1].table.paths;
            && early.Some? && late.Some? && |early.value.files| <= |late.value.files| <= |paths|
            && (forall k :: 0 <= k < |early.value.files| ==>
                  early.value.files[k].relPath == [] || early.value.files[k].relPath == paths[k])
            && (forall k :: 0 <= k < |late.value.files| ==>
                  late.value.files[k].relPath == [] || late.value.files[k].relPath == paths[k])
  {
    hide InBounds, EncodeTree, DecodeTree, Step, Held, History, PublishedBy, Table.Valid;
    var i := HeldIsAView(h, start, frames[..n], author);
    var j := HeldIsAView(h, start, frames, author);
    RunsAreSafe(start, frames, Some(author), PublishedBy(h), n);
    if i > j {
      HistoryGrows(h, j, i);
    } else {
      HistoryGrows(h, i, j);
    }
    ViewsKeepTheirSlots(h, i);
    ViewsKeepTheirSlots(h, j);
  }

  // --------------------------------------------------------- through a seeder

  /** A frame off a feed: its kind, then its payload. */
  function Read(frame: Bytes): Frame
    requires frame != []
  {
    Frame(frame[0], frame[1..])
  }

  /** What a seeder sends for an envelope, any follower whose share it belongs to
      can read, and believes unless it is behind. */
  lemma SeederFramesAreRead(held: SignedManifest, s: SignedManifest, author: Author)
    requires U64().valid(s.version) && |s.signature| == SIGNATURE_LEN && DecodeTree(s.manifest).Some?
    requires author.Some? ==> author.value.verifies(SignedPayload(s.version, s.manifest), s.signature)
    ensures var frame := Read(Seeder.FrameOf(Authorship.Encode(s)));
            && Readable(frame) && OfferOf(frame) == s
            && (if held.version <= s.version then Watch.Folded(held, frame, author) == Ok(s)
                else Watch.Folded(held, frame, author).Err?)
  {
    hide DecodeTree, Authorship.Encode, Authorship.Decode;
    EnvelopeIsCanonical(s, []);
    assert Seeder.FrameOf(Authorship.Encode(s))[1..] == Authorship.Encode(s);
    var frame := Read(Seeder.FrameOf(Authorship.Encode(s)));
    if author.Some? {
      WholeFrameBelieved(held, frame, author.value);
    } else {
      UnsignedFrameBelieved(held, frame);
    }
  }
}
