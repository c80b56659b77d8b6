/**
 Following a share: which watch frames a consumer believes.

 Frames may be relayed, reordered, repeated, dropped or forged by anyone; the
 theorems at the end say what a consumer can nevertheless rely on.
 */
module Watch {
  import opened Wrappers
  import opened Codec
  import opened Manifest
  import opened Authorship
  import opened Framing
  import opened Bounds

  /** Why a frame was not believed. `Overflow` stands for the panic of encoding a
      tree that has outgrown the wire's bounds: it returns nothing, and the
      program that follows the share ends with it. */
  datatype Refusal = Malformed | UnknownKind | RolledBack | NotTheCreators | Overflow

  type Author = Option<PublicKey>

  // --------------------------------------------------------- the pure meaning

  /** Decode and apply a chain of encoded deltas, in order. */
  function Rebuilt(t: Tree, deltas: seq<Bytes>): Option<Tree>
    decreases |deltas|
  {
    if deltas == [] then Some(t) else
    match DecodeDelta(deltas[0])
    case None => None
    case Some(delta) => Rebuilt(Applied(t, delta), deltas[1..])
  }

  /** Re-encode a rebuilt tree and check the creator's signature over it. */
  function Resealed(t: Tree, seen: nat, answer: ManifestSince, author: Author):
    Result<SignedManifest, Refusal>
  {
    if !InBounds(t) then Err(Overflow) else
    var signed := SignedManifest(answer.target, answer.signature, EncodeTree(t));
    if author.Some? && !Accepts(author.value, signed, seen) then Err(NotTheCreators)
    else Ok(signed)
  }

  function CaughtUp(held: SignedManifest, answer: ManifestSince, author: Author):
    Result<SignedManifest, Refusal>
  {
    if answer.target < held.version then Err(RolledBack) else
    match DecodeTree(held.manifest)
    case None => Err(Malformed)
    case Some(t) =>
      match Rebuilt(t, answer.deltas)
      case None => Err(Malformed)
      case Some(next) => Resealed(next, held.version, answer, author)
  }

  function Offered(held: SignedManifest, payload: Bytes, author: Author): Result<SignedManifest, Refusal> {
    match Authorship.Decode(payload)
    case None => Err(Malformed)
    case Some(offer) =>
      if offer.version < held.version then Err(RolledBack)
      else if author.Some? && !Accepts(author.value, offer, held.version) then Err(NotTheCreators)
      else Ok(offer)
  }

  datatype Frame = Frame(kind: byte, payload: Bytes)

  /** The manifest held after believing a frame, or why it was not believed. */
  function Folded(held: SignedManifest, frame: Frame, author: Author): Result<SignedManifest, Refusal> {
    var next :=
      if frame.kind == WATCH_FRAME_MANIFEST then Offered(held, frame.payload, author)
      else if frame.kind == WATCH_FRAME_DELTA then
        match DecodeSince(frame.payload)
        case None => Err(Malformed)
        case Some(answer) => CaughtUp(held, answer, author)
      else Err(UnknownKind);
    if next.Ok? && DecodeTree(next.value.manifest).None? then Err(Malformed) else next
  }

  /** Where a run of frames leaves a consumer: what it holds, and whether it is
      still running. */
  datatype Following = Following(held: SignedManifest, running: bool)

  /** A believed frame is taken, a refused one is passed over, and an overflow
      ends the run: no later frame is looked at. */
  function Followed(start: SignedManifest, frames: seq<Frame>, author: Author): Following
    decreases |frames|
  {
    if frames == [] then Following(start, true) else
    var before := Followed(start, frames[..|frames| - 1], author);
    if !before.running then before
    else
      match Folded(before.held, frames[|frames| - 1], author)
      case Ok(next) => Following(next, true)
      case Err(why) => Following(before.held, why != Overflow)
  }

  /** What a consumer holds after a whole run of frames. */
  function Held(start: SignedManifest, frames: seq<Frame>, author: Author): SignedManifest {
    Followed(start, frames, author).held
  }

  /** Whether no frame of the run has ended it. */
  predicate Running(start: SignedManifest, frames: seq<Frame>, author: Author) {
    Followed(start, frames, author).running
  }

  lemma HeldStep(start: SignedManifest, frames: seq<Frame>, author: Author)
    ensures frames == [] ==> Held(start, frames, author) == start && Running(start, frames, author)
    ensures frames != [] ==>
              var front, last := frames[..|frames| - 1], frames[|frames| - 1];
              var before, running := Held(start, front, author), Running(start, front, author);
              var next := Folded(before, last, author);
              && Held(start, frames, author) == (if running && next.Ok? then next.value else before)
              && (Running(start, frames, author) <==> running && next != Err(Overflow))
  {
    hide Folded;
  }

  // ---------------------------------------------------- when encoding overflows

  /** An encoded delta that names the last slot a u32 can. */
  predicate UpsertsLastSlot(b: Bytes) { DecodeDelta(b).Some? && UpsertsSlot(DecodeDelta(b).value, U32_MAX) }

  predicate SomeUpsertsLastSlot(deltas: seq<Bytes>) {
    exists k :: 0 <= k < |deltas| && UpsertsLastSlot(deltas[k])
  }

  lemma SomeOfTail(deltas: seq<Bytes>)
    requires deltas != []
    ensures SomeUpsertsLastSlot(deltas) <==> UpsertsLastSlot(deltas[0]) || SomeUpsertsLastSlot(deltas[1..])
  {
    hide UpsertsLastSlot;
    if SomeUpsertsLastSlot(deltas[1..]) {
      var k :| 0 <= k < |deltas[1..]| && UpsertsLastSlot(deltas[1..][k]);
      assert UpsertsLastSlot(deltas[k + 1]);
    }
    if SomeUpsertsLastSlot(deltas) && !UpsertsLastSlot(deltas[0]) {
      var k :| 0 <= k < |deltas| && UpsertsLastSlot(deltas[k]);
      assert deltas[1..][k - 1] == deltas[k];
    }
  }

  lemma {:induction false} RebuiltBounds(t: Tree, deltas: seq<Bytes>)
    requires EntriesFit(t) && |t.files| <= U32_MAX + 1 && Rebuilt(t, deltas).Some?
    ensures var next := Rebuilt(t, deltas).value;
            && EntriesFit(next) && |next.files| <= U32_MAX + 1
            && (|next.files| > U32_MAX <==> |t.files| > U32_MAX || SomeUpsertsLastSlot(deltas))
    decreases |deltas|
  {
    hide DecodeDelta, EntriesFit, EditsFit, Applied, UpsertsSlot, SomeUpsertsLastSlot;
    if deltas != [] {
      var delta := DecodeDelta(deltas[0]).value;
      DecodedEditsFit(deltas[0]);
      AppliedFits(t, delta);
      FileCount(t, delta);
      RebuiltBounds(Applied(t, delta), deltas[1..]);
      SomeOfTail(deltas);
    } else {
      NothingUpserts();
    }
  }

  lemma NothingUpserts()
    ensures !SomeUpsertsLastSlot([])
  {
  }

  /** The answer is no rollback, everything in it decodes, and the tree it rebuilds
      has more directories than a u32 counts, or a delta on the way upserted the
      last slot. */
  predicate Overflows(held: SignedManifest, answer: ManifestSince) {
    && held.version <= answer.target && DecodeTree(held.manifest).Some?
    && var next := Rebuilt(DecodeTree(held.manifest).value, answer.deltas);
       next.Some? && (|next.value.dirs| > U32_MAX || SomeUpsertsLastSlot(answer.deltas))
  }

  /** **Exactly when catching up panics**, whoever the author is: signatures are
      checked on the bytes, and these never come to be. */
  lemma OverflowIff(held: SignedManifest, answer: ManifestSince, author: Author)
    ensures CaughtUp(held, answer, author) == Err(Overflow) <==> Overflows(held, answer)
  {
    hide DecodeTree, DecodeDelta, EncodeTree, InBounds, Accepts, EntriesFit, SomeUpsertsLastSlot;
    if held.version <= answer.target && DecodeTree(held.manifest).Some? {
      var t := DecodeTree(held.manifest).value;
      ManifestIsCanonical(t, held.manifest, []);
      InBoundsIff(t);
      if Rebuilt(t, answer.deltas).Some? {
        RebuiltBounds(t, answer.deltas);
        InBoundsIff(Rebuilt(t, answer.deltas).value);
      }
    }
  }

  /** One well-formed delta is enough, for any manifest held, any author and any
      signature. */
  lemma LastSlotOverflows(held: SignedManifest, target: nat, signature: Bytes, author: Author)
    requires DecodeTree(held.manifest).Some? && held.version <= target
    ensures CaughtUp(held, ManifestSince(target, signature, [EncodeDelta(LAST_SLOT_DELTA)]), author) == Err(Overflow)
  {
    hide DecodeTree, DecodeDelta, EncodeDelta, DeltaCodec, Applied;
    var deltas := [EncodeDelta(LAST_SLOT_DELTA)];
    LastSlotDeltaIsWritten();
    DeltaIsCanonical(LAST_SLOT_DELTA, [], []);
    var t := DecodeTree(held.manifest).value;
    assert deltas[1..] == [];
    assert Rebuilt(t, deltas) == Some(Applied(t, LAST_SLOT_DELTA));
    assert UpsertsLastSlot(deltas[0]);
    OverflowIff(held, ManifestSince(target, signature, deltas), author);
  }

  /** A frame that ends the run of any consumer holding a decodable manifest. */
  lemma AnyRunCanEnd(held: SignedManifest, author: Author) returns (frame: Frame)
    requires DecodeTree(held.manifest).Some? && U64().valid(held.version)
    ensures Folded(held, frame, author) == Err(Overflow)
  {
    hide DecodeTree, DecodeDelta, EncodeDelta, DeltaCodec, DecodeSince, EncodeSince, CaughtUp;
    var signature: Bytes := seq(SIGNATURE_LEN, _ => 0);
    var answer := ManifestSince(held.version, signature, [EncodeDelta(LAST_SLOT_DELTA)]);
    LastSlotDeltaIsWritten();
    LastSlotOverflows(held, held.version, signature, author);
    WithinCapIsValid(answer);
    SinceIsCanonical(answer, [], []);
    frame := Frame(WATCH_FRAME_DELTA, EncodeSince(answer));
  }

  // ----------------------------------------------------------- the consumer

  method ApplySince(held: SignedManifest, answer: ManifestSince, author: Author)
    returns (r: Result<SignedManifest, Refusal>)
    ensures r == CaughtUp(held, answer, author)
    ensures r == Err(Overflow) <==> Overflows(held, answer)
  {
    OverflowIff(held, answer, author);
    hide Overflows;
    hide DecodeTree, DecodeDelta, EncodeTree, InBounds, Applied, Accepts;
    if answer.target < held.version {
      return Err(RolledBack);
    }
    var decoded := DecodeManifest(held.manifest);
    if decoded.None? {
      return Err(Malformed);
    }
    var manifest := new MountManifest(decoded.value.dirs, decoded.value.files);
    for i := 0 to |answer.deltas|
      invariant Rebuilt(decoded.value, answer.deltas) == Rebuilt(manifest.Value(), answer.deltas[i..])
    {
      assert answer.deltas[i..][1..] == answer.deltas[i + 1..];
      var delta := DecodeManifestDelta(answer.deltas[i]);
      if delta.None? {
        return Err(Malformed);
      }
      manifest.Apply(delta.value);
    }
    if !InBounds(manifest.Value()) {
      return Err(Overflow);
    }
    var rebuilt := manifest.Encode();
    var signed := SignedManifest(answer.target, answer.signature, rebuilt);
    if author.Some? && !Accepts(author.value, signed, held.version) {
      return Err(NotTheCreators);
    }
    return Ok(signed);
  }

  class Consumer {
    var held: SignedManifest
    ghost var running: bool
    const author: Author

    constructor (held: SignedManifest, author: Author)
      ensures this.held == held && this.author == author && running
    {
      this.held, this.author, running := held, author, true;
    }

    /** Fold one frame into the manifest held: advanced in place on success,
        exactly unchanged on refusal. The panic of an overflow, answered here
        with `Err(Overflow)`, leaves a consumer no further call can be made on;
        it comes exactly from a delta frame that overflows. */
    method ApplyWatchFrame(kind: byte, payload: Bytes) returns (r: Result<Tree, Refusal>)
      requires running
      modifies this
      ensures match Folded(old(held), Frame(kind, payload), author)
              case Ok(next) => held == next && r.Ok? && DecodeTree(next.manifest) == Some(r.value)
              case Err(why) => held == old(held) && r == Err(why)
      ensures held == Held(old(held), [Frame(kind, payload)], author)
      ensures running <==> Running(old(held), [Frame(kind, payload)], author)
      ensures !running <==>
                kind == WATCH_FRAME_DELTA && DecodeSince(payload).Some?
                && Overflows(old(held), DecodeSince(payload).value)
      ensures author.None? && Readable(Frame(kind, payload))
              && old(held).version <= OfferOf(Frame(kind, payload)).version ==>
                r.Ok? && held == OfferOf(Frame(kind, payload))
    {
      hide DecodeTree, DecodeSince, Authorship.Decode, Accepts, CaughtUp, Overflows, Held, Running;
      assert [Frame(kind, payload)][..0] == [];
      HeldStep(held, [], author);
      HeldStep(held, [Frame(kind, payload)], author);
      var next: SignedManifest;
      if kind == WATCH_FRAME_MANIFEST {
        var offer := Authorship.Decode(payload);
        if offer.None? {
          return Err(Malformed);
        }
        if offer.value.version < held.version {
          return Err(RolledBack);
        }
        if author.Some? && !Accepts(author.value, offer.value, held.version) {
          return Err(NotTheCreators);
        }
        next := offer.value;
      } else if kind == WATCH_FRAME_DELTA {
        var answer := DecodeManifestSince(payload);
        if answer.None? {
          return Err(Malformed);
        }
        var caught := ApplySince(held, answer.value, author);
        if caught.Err? {
          running := caught.error != Overflow;
          return Err(caught.error);
        }
        next := caught.value;
      } else {
        return Err(UnknownKind);
      }
      var manifest := DecodeManifest(next.manifest);
      if manifest.None? {
        return Err(Malformed);
      }
      held := next;
      return Ok(manifest.value);
    }
  }

  // ------------------------------------------------------ safety over any run

  lemma OfferFits(held: SignedManifest, payload: Bytes, author: Author)
    requires Offered(held, payload, author).Ok?
    ensures U64().valid(Offered(held, payload, author).value.version)
  {
    hide Authorship.Decode, Authorship.Encode, Accepts, U64;
    EnvelopeIsCanonical(Authorship.Decode(payload).value, payload);
  }

  lemma AnswerFits(held: SignedManifest, payload: Bytes, author: Author)
    requires DecodeSince(payload).Some? && CaughtUp(held, DecodeSince(payload).value, author).Ok?
    ensures U64().valid(CaughtUp(held, DecodeSince(payload).value, author).value.version)
  {
    hide DecodeTree, DecodeSince, EncodeTree, EncodeSince, InBounds, Rebuilt, Accepts;
    SinceIsCanonical(DecodeSince(payload).value, payload, []);
  }

  lemma BelievedVersionsFit(held: SignedManifest, frame: Frame, author: Author)
    requires Folded(held, frame, author).Ok?
    ensures U64().valid(Folded(held, frame, author).value.version)
  {
    hide DecodeTree, DecodeSince, Offered, CaughtUp, U64;
    if frame.kind == WATCH_FRAME_MANIFEST {
      OfferFits(held, frame.payload, author);
    } else {
      AnswerFits(held, frame.payload, author);
    }
  }

  /** A believed frame never lowers the version, carries a tree that decodes, and
      on a signed share is something the creator published at that version,
      including a tree rebuilt here from deltas nobody signed. */
  lemma BelievedFramesAreSafe(held: SignedManifest, frame: Frame, author: Author, published: Published)
    requires Folded(held, frame, author).Ok?
    requires author.Some? ==> Unforgeable(author.value, published)
    ensures var next := Folded(held, frame, author).value;
            && held.version <= next.version
            && DecodeTree(next.manifest).Some?
            && (author.Some? ==> (next.version, next.manifest) in published)
  {
    hide DecodeTree, DecodeSince, EncodeTree, InBounds;
    BelievedVersionsFit(held, frame, author);
    if author.Some? {
      AcceptedIsPublished(author.value, published, Folded(held, frame, author).value, held.version);
    }
  }

  /** For every sequence of frames of any kind with any payloads: what is held is
      the start or a published version, and the version never falls along the
      way. */
  lemma {:induction false} RunsAreSafe(start: SignedManifest, frames: seq<Frame>, author: Author,
                                       published: Published, n: nat)
    requires n <= |frames|
    requires author.Some? ==> Unforgeable(author.value, published)
    ensures var end := Held(start, frames, author);
            && Held(start, frames[..n], author).version <= end.version
            && (end == start || DecodeTree(end.manifest).Some?)
            && (author.Some? ==> end == start || (end.version, end.manifest) in published)
    decreases |frames|
  {
    hide Folded, DecodeTree, Held, Running, Unforgeable;
    HeldStep(start, frames, author);
    if n == |frames| {
      assert frames[..n] == frames;
    }
    if frames != [] {
      var front, last := frames[..|frames| - 1], frames[|frames| - 1];
      var m := if n < |frames| then n else 0;
      RunsAreSafe(start, front, author, published, m);
      assert n < |frames| ==> front[..m] == frames[..n];
      var before := Held(start, front, author);
      if Folded(before, last, author).Ok? {
        BelievedFramesAreSafe(before, last, author, published);
      }
    }
  }

  // ---------------------------------------------------------------- convergence

  /** A whole-manifest frame the creator really signed, of a tree that decodes. */
  predicate Genuine(frame: Frame, author: PublicKey) {
    && frame.kind == WATCH_FRAME_MANIFEST
    && Authorship.Decode(frame.payload).Some?
    && var offer := Authorship.Decode(frame.payload).value;
       author.verifies(SignedPayload(offer.version, offer.manifest), offer.signature)
       && DecodeTree(offer.manifest).Some?
  }

  function OfferOf(frame: Frame): SignedManifest
    requires Authorship.Decode(frame.payload).Some?
  {
    Authorship.Decode(frame.payload).value
  }

  predicate WholeFrames(frames: seq<Frame>) {
    forall i :: 0 <= i < |frames| ==> frames[i].kind == WATCH_FRAME_MANIFEST
  }

  lemma GenuineIsPublished(frame: Frame, author: PublicKey, published: Published)
    requires Genuine(frame, author) && Unforgeable(author, published)
    ensures var offer := OfferOf(frame); (offer.version, offer.manifest) in published
  {
    EnvelopeIsCanonical(OfferOf(frame), frame.payload);
    AcceptedIsPublished(author, published, OfferOf(frame), 0);
  }

  /** A whole frame is believed exactly when it is genuine and not behind. */
  lemma WholeFrameBelieved(held: SignedManifest, frame: Frame, author: PublicKey)
    requires frame.kind == WATCH_FRAME_MANIFEST
    ensures Folded(held, frame, Some(author)).Ok? <==>
            Genuine(frame, author) && held.version <= OfferOf(frame).version
    ensures Folded(held, frame, Some(author)).Ok? ==> Folded(held, frame, Some(author)).value == OfferOf(frame)
  {
  }

  /** A whole frame that holds an envelope and a tree, signed or not. */
  predicate Readable(frame: Frame) {
    && frame.kind == WATCH_FRAME_MANIFEST
    && Authorship.Decode(frame.payload).Some?
    && DecodeTree(OfferOf(frame).manifest).Some?
  }

  /** On an unsigned share a whole frame is believed exactly when it can be read
      and is not behind, and is then what is held. */
  lemma UnsignedFrameBelieved(held: SignedManifest, frame: Frame)
    requires frame.kind == WATCH_FRAME_MANIFEST
    ensures Folded(held, frame, None).Ok? <==> Readable(frame) && held.version <= OfferOf(frame).version
    ensures Folded(held, frame, None).Ok? ==> Folded(held, frame, None).value == OfferOf(frame)
  {
  }

  predicate AllDecode(deltas: seq<Bytes>) { forall k :: 0 <= k < |deltas| ==> DecodeDelta(deltas[k]).Some? }

  lemma {:induction false} RebuiltIff(t: Tree, deltas: seq<Bytes>)
    ensures Rebuilt(t, deltas).Some? <==> AllDecode(deltas)
    decreases |deltas|
  {
    hide DecodeDelta, Applied;
    if deltas != [] && DecodeDelta(deltas[0]).Some? {
      RebuiltIff(Applied(t, DecodeDelta(deltas[0]).value), deltas[1..]);
      assert AllDecode(deltas[1..]) ==> forall k :: 0 < k < |deltas| ==> deltas[1..][k - 1] == deltas[k];
    }
  }

  /** **A delta frame is believed exactly when** it is an answer all of whose
      deltas decode, no rollback, no overflow, and, on a signed share, signed
      over the tree they lead to. What is held is then that tree, encoded. */
  lemma DeltaFrameBelieved(held: SignedManifest, frame: Frame, author: Author)
    requires frame.kind == WATCH_FRAME_DELTA
    ensures match Folded(held, frame, author)
            case Ok(next) =>
              && DecodeSince(frame.payload).Some? && DecodeTree(held.manifest).Some?
              && var answer := DecodeSince(frame.payload).value;
                 && Rebuilt(DecodeTree(held.manifest).value, answer.deltas).Some?
                 && next.version == answer.target && next.signature == answer.signature
                 && DecodeTree(next.manifest) == Rebuilt(DecodeTree(held.manifest).value, answer.deltas)
            case Err(_) => true
    ensures Folded(held, frame, author).Ok? <==>
              && DecodeSince(frame.payload).Some? && DecodeTree(held.manifest).Some?
              && var answer := DecodeSince(frame.payload).value;
                 && held.version <= answer.target && AllDecode(answer.deltas) && !Overflows(held, answer)
                 && (author.Some? ==> SignsRebuilt(author.value, held, answer))
  {
    hide DecodeTree, DecodeDelta, DecodeSince, EncodeTree, InBounds, Applied, AllDecode, Overflows;
    if DecodeSince(frame.payload).Some? && DecodeTree(held.manifest).Some? {
      var answer := DecodeSince(frame.payload).value;
      RebuiltIff(DecodeTree(held.manifest).value, answer.deltas);
      OverflowIff(held, answer, author);
      if AllDecode(answer.deltas) {
        ManifestIsCanonical(Rebuilt(DecodeTree(held.manifest).value, answer.deltas).value, [], []);
      }
    }
  }

  /** The creator's signature covers the tree the answer leads to. */
  predicate SignsRebuilt(author: PublicKey, held: SignedManifest, answer: ManifestSince)
    requires DecodeTree(held.manifest).Some?
  {
    var next := Rebuilt(DecodeTree(held.manifest).value, answer.deltas);
    next.Some? && author.verifies(SignedPayload(answer.target, EncodeTree(next.value)), answer.signature)
  }

  lemma OtherKindsAreRefused(held: SignedManifest, frame: Frame, author: Author)
    requires frame.kind != 0 && frame.kind != 1
    ensures Folded(held, frame, author) == Err(UnknownKind)
  {
  }

  ghost predicate Delivered(end: SignedManifest, frames: seq<Frame>, author: PublicKey) {
    exists i :: 0 <= i < |frames| && Genuine(frames[i], author) && OfferOf(frames[i]) == end
  }

  ghost predicate NotPast(frame: Frame, end: SignedManifest) {
    Authorship.Decode(frame.payload).Some? ==>
      || OfferOf(frame).version < end.version
      || (OfferOf(frame).version == end.version && OfferOf(frame).manifest == end.manifest)
  }

  /** **Nothing genuine is passed over.** After any frames at all, whole, delta
      or noise, what is held is past every genuine whole frame that came while
      the consumer was running, or has its version and bytes. */
  lemma {:induction false} GenuineIsReached(start: SignedManifest, frames: seq<Frame>,
                                            author: PublicKey, published: Published)
    requires Unforgeable(author, published) && OnePerVersion(published)
    ensures forall i :: 0 <= i < |frames| && Genuine(frames[i], author) && Running(start, frames[..i], Some(author)) ==>
              NotPast(frames[i], Held(start, frames, Some(author)))
    decreases |frames|
  {
    hide Folded, Genuine, NotPast, Held, Running, OnePerVersion, Unforgeable;
    HeldStep(start, frames, Some(author));
    if frames != [] {
      var front, last := frames[..|frames| - 1], frames[|frames| - 1];
      GenuineIsReached(start, front, author, published);
      var before, end := Held(start, front, Some(author)), Held(start, frames, Some(author));
      var believed := Folded(before, last, Some(author)).Ok?;
      if believed {
        BelievedFramesAreSafe(before, last, Some(author), published);
      }
      if Genuine(last, author) {
        LastIsNotPast(before, frames, author);
      }
      forall i | 0 <= i < |front| && Genuine(frames[i], author) && Running(start, frames[..i], Some(author))
        ensures NotPast(frames[i], end)
      {
        assert front[i] == frames[i] && front[..i] == frames[..i];
        if end != before {
          StaysNotPast(frames[i], before, end, author, published);
        }
      }
    }
  }

  /** A follower of an unsigned share keeps up: after any frames it is not behind
      any readable whole frame that came while it was running, and it holds the
      last frame if that was one and not behind. */
  lemma {:induction false} UnsignedIsFollowed(start: SignedManifest, frames: seq<Frame>)
    ensures forall i :: 0 <= i < |frames| && Readable(frames[i]) && Running(start, frames[..i], None) ==>
              OfferOf(frames[i]).version <= Held(start, frames, None).version
    ensures frames != [] ==>
              var front, last := frames[..|frames| - 1], frames[|frames| - 1];
              Readable(last) && Running(start, front, None)
              && Held(start, front, None).version <= OfferOf(last).version ==>
                Held(start, frames, None) == OfferOf(last)
    decreases |frames|
  {
    hide Folded, DecodeTree, Authorship.Decode, Held, Running;
    HeldStep(start, frames, None);
    if frames != [] {
      var front, last := frames[..|frames| - 1], frames[|frames| - 1];
      UnsignedIsFollowed(start, front);
      var before := Held(start, front, None);
      UnsignedStep(before, last);
      forall i | 0 <= i < |front| && Readable(frames[i]) && Running(start, frames[..i], None)
        ensures OfferOf(frames[i]).version <= Held(start, frames, None).version
      {
        assert front[i] == frames[i] && front[..i] == frames[..i];
      }
    }
  }

  lemma UnsignedStep(held: SignedManifest, frame: Frame)
    ensures Folded(held, frame, None).Ok? ==> held.version <= Folded(held, frame, None).value.version
    ensures Readable(frame) ==>
              match Folded(held, frame, None)
              case Ok(next) => next == OfferOf(frame)
              case Err(_) => OfferOf(frame).version < held.version
  {
    hide DecodeTree, DecodeSince, Authorship.Decode, Rebuilt, EncodeTree, InBounds;
  }

  /** An overflow is final: nothing after it is believed, however genuine. */
  lemma {:induction false} OverflowIsFinal(start: SignedManifest, frames: seq<Frame>, author: Author, n: nat)
    requires n <= |frames| && !Running(start, frames[..n], author)
    ensures !Running(start, frames, author) && Held(start, frames, author) == Held(start, frames[..n], author)
    decreases |frames|
  {
    hide Folded, Held, Running;
    if n == |frames| {
      assert frames[..n] == frames;
    } else {
      HeldStep(start, frames, author);
      assert frames[..|frames| - 1][..n] == frames[..n];
      OverflowIsFinal(start, frames[..|frames| - 1], author, n);
    }
  }

  /** A feed in which even the newest genuine frame is never reached. */
  lemma GenuineCanBeMissed(start: SignedManifest, newest: Frame, author: PublicKey) returns (frames: seq<Frame>)
    requires DecodeTree(start.manifest).Some? && U64().valid(start.version)
    ensures |frames| == 2 && frames[1] == newest
    ensures Held(start, frames, Some(author)) == start && !Running(start, frames, Some(author))
  {
    hide DecodeTree, Folded, Held, Running;
    var last := AnyRunCanEnd(start, Some(author));
    frames := [last, newest];
    assert frames[..1][..0] == [] && frames[..1] == [last];
    HeldStep(start, [], Some(author));
    HeldStep(start, frames[..1], Some(author));
    OverflowIsFinal(start, frames, Some(author), 1);
  }

  /** Whatever the order, repetition and mix of genuine and forged frames, the
      consumer ends at the highest genuine version delivered, with the creator's
      bytes for it, or exactly where it started if none reaches that far. */
  lemma {:induction false} ConsumersConverge(start: SignedManifest, frames: seq<Frame>,
                                             author: PublicKey, published: Published)
    requires WholeFrames(frames)
    requires Unforgeable(author, published) && OnePerVersion(published)
    ensures var end := Held(start, frames, Some(author));
            && (end == start || Delivered(end, frames, author))
            && start.version <= end.version
            && forall i :: 0 <= i < |frames| && Genuine(frames[i], author) ==> NotPast(frames[i], end)
    decreases |frames|
  {
    hide Folded, Genuine, NotPast, OfferOf, Delivered, Held, Running;
    HeldStep(start, frames, Some(author));
    GenuineIsReached(start, frames, author, published);
    forall i | 0 <= i <= |frames| ensures Running(start, frames[..i], Some(author)) {
      WholeFramesRun(start, frames[..i], author);
    }
    if frames != [] {
      var front, last := frames[..|frames| - 1], frames[|frames| - 1];
      assert WholeFrames(front);
      ConsumersConverge(start, front, author, published);
      var before := Held(start, front, Some(author));
      BelievedIfNotBehind(before, last, author);
      if Delivered(before, front, author) {
        DeliveredBefore(before, frames, author);
      }
      if Genuine(last, author) {
        LastIsDelivered(frames, author);
      }
    }
  }

  /** Whole frames never overflow. */
  lemma {:induction false} WholeFramesRun(start: SignedManifest, frames: seq<Frame>, author: PublicKey)
    requires WholeFrames(frames)
    ensures Running(start, frames, Some(author))
    decreases |frames|
  {
    hide Held, Running, DecodeTree, Authorship.Decode, Accepts;
    HeldStep(start, frames, Some(author));
    if frames != [] {
      WholeFramesRun(start, frames[..|frames| - 1], author);
    }
  }

  /** A whole frame replaces what is held exactly when genuine and not behind. */
  lemma BelievedIfNotBehind(before: SignedManifest, frame: Frame, author: PublicKey)
    requires frame.kind == WATCH_FRAME_MANIFEST
    ensures match Folded(before, frame, Some(author))
            case Ok(next) => Genuine(frame, author) && next == OfferOf(frame) && before.version <= next.version
            case Err(_) => Genuine(frame, author) ==> OfferOf(frame).version < before.version
  {
    hide Folded, DecodeTree, Authorship.Decode;
    WholeFrameBelieved(before, frame, author);
  }

  lemma DeliveredBefore(before: SignedManifest, frames: seq<Frame>, author: PublicKey)
    requires frames != [] && Delivered(before, frames[..|frames| - 1], author)
    ensures Delivered(before, frames, author)
  {
    hide DecodeTree, Authorship.Decode;
    var front := frames[..|frames| - 1];
    var k :| 0 <= k < |front| && Genuine(front[k], author) && OfferOf(front[k]) == before;
    assert Genuine(frames[k], author) && OfferOf(frames[k]) == before;
  }

  lemma LastIsDelivered(frames: seq<Frame>, author: PublicKey)
    requires frames != [] && Genuine(frames[|frames| - 1], author)
    ensures Delivered(OfferOf(frames[|frames| - 1]), frames, author)
  {
    hide DecodeTree, Authorship.Decode;
  }

  lemma LastIsNotPast(before: SignedManifest, frames: seq<Frame>, author: PublicKey)
    requires frames != [] && Genuine(frames[|frames| - 1], author)
    ensures var last := frames[|frames| - 1];
            match Folded(before, last, Some(author))
            case Ok(next) => NotPast(last, next)
            case Err(_) => NotPast(last, before)
  {
    hide DecodeTree, Authorship.Decode, Folded;
    BelievedIfNotBehind(before, frames[|frames| - 1], author);
  }

  /** What was not past the manifest held is not past a published one that
      replaces it. */
  lemma StaysNotPast(frame: Frame, before: SignedManifest, next: SignedManifest, author: PublicKey,
                     published: Published)
    requires Unforgeable(author, published) && OnePerVersion(published)
    requires Genuine(frame, author) && (next.version, next.manifest) in published
    requires NotPast(frame, before) && before.version <= next.version
    ensures NotPast(frame, next)
  {
    hide DecodeTree, Authorship.Decode, Unforgeable;
    GenuineIsPublished(frame, author, published);
  }

  /** Two consumers given the same frames, in whatever order and number, agree on
      version and bytes, if they started together or if any genuine frame reached
      at least as far as both starts. */
  lemma ConsumersAgree(a: SignedManifest, b: SignedManifest, framesA: seq<Frame>, framesB: seq<Frame>,
                       author: PublicKey, published: Published)
    requires WholeFrames(framesA) && WholeFrames(framesB)
    requires Unforgeable(author, published) && OnePerVersion(published)
    requires forall f :: f in framesA <==> f in framesB
    requires || (a.version == b.version && a.manifest == b.manifest)
             || exists i :: 0 <= i < |framesA| && Genuine(framesA[i], author)
                            && a.version <= OfferOf(framesA[i]).version
                            && b.version <= OfferOf(framesA[i]).version
    ensures var endA, endB := Held(a, framesA, Some(author)), Held(b, framesB, Some(author));
            endA.version == endB.version && endA.manifest == endB.manifest
  {
    hide Folded, DecodeTree, Held;
    var endA, endB := Held(a, framesA, Some(author)), Held(b, framesB, Some(author));
    ConsumersConverge(a, framesA, author, published);
    ConsumersConverge(b, framesB, author, published);
    forall i | 0 <= i < |framesA| && Genuine(framesA[i], author) ensures NotPast(framesA[i], endB) {
      assert framesA[i] in framesB;
    }
    forall j | 0 <= j < |framesB| && Genuine(framesB[j], author) ensures NotPast(framesB[j], endA) {
      assert framesB[j] in framesA;
    }
  }

  // ----------------------------------------------------------------- catching up

  lemma {:induction false} RebuiltInPieces(t: Tree, first: seq<Bytes>, second: seq<Bytes>)
    ensures Rebuilt(t, first + second) ==
            match Rebuilt(t, first)
            case None => None
            case Some(mid) => Rebuilt(mid, second)
    decreases |first|
  {
    hide DecodeDelta, Applied;
    if first == [] {
      assert first + second == second;
    } else {
      assert (first + second)[1..] == first[1..] + second;
      var head := DecodeDelta(first[0]);
      if head.Some? {
        RebuiltInPieces(Applied(t, head.value), first[1..], second);
      }
    }
  }

  /** Stopping part way, re-encoding, and catching up from there arrives exactly
      where one chain would: same version, same bytes, same refusal. The only
      extra refusal is a chain whose target is behind the stop. */
  lemma CatchingUpInPieces(held: SignedManifest, stop: ManifestSince, rest: ManifestSince, author: Author)
    requires CaughtUp(held, stop, author).Ok?
    ensures var mid := CaughtUp(held, stop, author).value;
            CaughtUp(mid, rest, author) ==
            if rest.target < stop.target then Err(RolledBack)
            else CaughtUp(held, rest.(deltas := stop.deltas + rest.deltas), author)
  {
    hide DecodeTree, EncodeTree, InBounds, DecodeDelta, Applied;
    var t := DecodeTree(held.manifest).value;
    var mid := Rebuilt(t, stop.deltas).value;
    RebuiltInPieces(t, stop.deltas, rest.deltas);
    ManifestIsCanonical(mid, [], []);
    assert DecodeTree(CaughtUp(held, stop, author).value.manifest) == Some(mid);
  }

  /** A split can only be refused where one chain is not when the tree at the
      split cannot be encoded or, on a signed share, is not itself published. */
  lemma WhenTheStopIsRefused(held: SignedManifest, stop: ManifestSince, rest: ManifestSince, author: Author)
    requires held.version <= stop.target <= rest.target
    requires CaughtUp(held, rest.(deltas := stop.deltas + rest.deltas), author).Ok?
    ensures var mid := Rebuilt(DecodeTree(held.manifest).value, stop.deltas);
            && mid.Some?
            && (CaughtUp(held, stop, author).Ok? <==>
                && InBounds(mid.value)
                && (author.Some? ==>
                    author.value.verifies(SignedPayload(stop.target, EncodeTree(mid.value)), stop.signature)))
  {
    hide DecodeTree, EncodeTree, InBounds, DecodeDelta, Applied;
    RebuiltInPieces(DecodeTree(held.manifest).value, stop.deltas, rest.deltas);
  }
}
