/** Byte layouts of answers: what changed since a version, a file's chunk map, and
    what is held of it. */
module Framing {
  import opened Wrappers
  import opened Codec
  import opened Authorship

  const WATCH_FRAME_MANIFEST: byte := 0
  const WATCH_FRAME_DELTA: byte := 1
  const MAX_DELTA_BYTES: nat := 8 * 1024 * 1024

  datatype ManifestSince = ManifestSince(target: nat, signature: Bytes, deltas: seq<Bytes>)

  predicate AnyBytes(b: Bytes) { true }

  /** One delta behind its u32 length, refused past the cap. */
  function DeltaBody(): Codec<Bytes> { Sized(U32(), MAX_DELTA_BYTES, AnyBytes) }

  function SinceHeader(): Codec<(nat, Bytes)> { Both(U64(), Raw(SIGNATURE_LEN)) }

  function SinceCodec(): Codec<ManifestSince> {
    Viewed(Both(SinceHeader(), Counted(U32(), DeltaBody())),
           (v: ((nat, Bytes), seq<Bytes>)) => ManifestSince(v.0.0, v.0.1, v.1),
           (s: ManifestSince) => ((s.target, s.signature), s.deltas),
           (s: ManifestSince) => true)
  }

  function EncodeSince(s: ManifestSince): Bytes { SinceCodec().encode(s) }

  function DecodeSince(b: Bytes): Option<ManifestSince> { Whole(SinceCodec(), b) }

  lemma SinceCodecIsCanonical()
    ensures Canonical(SinceCodec())
  {
    IntegerCodecsAreCanonical();
    RawIsCanonical(SIGNATURE_LEN);
    BothIsCanonical(U64(), Raw(SIGNATURE_LEN));
    SizedIsCanonical(U32(), MAX_DELTA_BYTES, AnyBytes);
    CountedIsCanonical(U32(), DeltaBody());
    BothIsCanonical(SinceHeader(), Counted(U32(), DeltaBody()));
    ViewedIsCanonical(Both(SinceHeader(), Counted(U32(), DeltaBody())),
                      (v: ((nat, Bytes), seq<Bytes>)) => ManifestSince(v.0.0, v.0.1, v.1),
                      (s: ManifestSince) => ((s.target, s.signature), s.deltas),
                      (s: ManifestSince) => true);
  }

  /** Canonical both ways, for every answer whose deltas are within the cap. */
  lemma SinceIsCanonical(s: ManifestSince, b: Bytes, more: Bytes)
    ensures SinceCodec().valid(s) ==> DecodeSince(EncodeSince(s)) == Some(s)
    ensures DecodeSince(b) == Some(s) ==> SinceCodec().valid(s) && EncodeSince(s) == b
    ensures DecodeSince(b).Some? && more != [] ==> DecodeSince(b + more).None?
  {
    SinceCodecIsCanonical();
    WholeIsCanonical(SinceCodec(), s, b, more);
  }

  /** What encoding does not panic on: lengths and a count that fit a u32. */
  predicate SinceEncodable(s: ManifestSince) {
    && U64().valid(s.target) && |s.signature| == SIGNATURE_LEN && |s.deltas| <= U32_MAX
    && forall k :: 0 <= k < |s.deltas| ==> |s.deltas[k]| <= U32_MAX
  }

  predicate WithinCap(deltas: seq<Bytes>) {
    forall k :: 0 <= k < |deltas| ==> |deltas[k]| <= MAX_DELTA_BYTES
  }

  /** **Whatever encoding writes** reads back when every delta is within the cap,
      and is refused otherwise. */
  lemma SinceRoundTripsIff(s: ManifestSince)
    requires SinceEncodable(s)
    ensures DecodeSince(EncodeSince(s)) == if WithinCap(s.deltas) then Some(s) else None
  {
    if WithinCap(s.deltas) {
      WithinCapIsValid(s);
      SinceIsCanonical(s, [], []);
    } else {
      OversizeDeltaIsRefused(s);
    }
  }

  lemma WithinCapIsValid(s: ManifestSince)
    requires SinceEncodable(s) && WithinCap(s.deltas)
    ensures SinceCodec().valid(s)
  {
    Powers();
    assert U32().valid(|s.deltas|);
    forall k | 0 <= k < |s.deltas| ensures DeltaBody().valid(s.deltas[k]) {
      assert U32().valid(|s.deltas[k]|) && AnyBytes(s.deltas[k]);
    }
    assert Counted(U32(), DeltaBody()).valid(s.deltas);
    assert SinceHeader().valid((s.target, s.signature));
  }

  lemma DeltaReads(delta: Bytes, rest: Bytes)
    requires |delta| <= U32_MAX
    ensures HeadOf(DeltaBody(), U32().encode(|delta|) + delta + rest) ==
            if |delta| <= MAX_DELTA_BYTES then Some((delta, 4 + |delta|)) else None
  {
    hide LittleEndian, FromLittleEndian;
    Powers();
    IntegerRoundTrip(4, |delta|);
    Pieces(U32().encode(|delta|), delta, rest);
  }

  /** One oversize delta spoils its chain, wherever it stands. */
  lemma {:induction false} OversizeDeltaSpoils(deltas: seq<Bytes>, rest: Bytes)
    requires !WithinCap(deltas) && forall k :: 0 <= k < |deltas| ==> |deltas[k]| <= U32_MAX
    ensures DecodeN(DeltaBody(), |deltas|, EncodeAll(DeltaBody(), deltas) + rest) == None
  {
    hide HeadOf, U32;
    var delta, others := deltas[0], EncodeAll(DeltaBody(), deltas[1..]);
    var one := U32().encode(|delta|) + delta;
    assert EncodeAll(DeltaBody(), deltas) + rest == one + (others + rest);
    DeltaReads(delta, others + rest);
    if |delta| <= MAX_DELTA_BYTES {
      assert !WithinCap(deltas[1..]) by {
        var k :| 0 <= k < |deltas| && |deltas[k]| > MAX_DELTA_BYTES;
        assert deltas[1..][k - 1] == deltas[k];
      }
      OversizeDeltaSpoils(deltas[1..], rest);
      U32Width(|delta|);
      assert (one + (others + rest))[4 + |delta|..] == others + rest;
    }
  }

  lemma U32Width(v: nat)
    ensures |U32().encode(v)| == 4
  {
  }

  lemma OversizeDeltaIsRefused(s: ManifestSince)
    requires SinceEncodable(s) && !WithinCap(s.deltas)
    ensures DecodeSince(EncodeSince(s)) == None
  {
    hide DecodeN, EncodeAll, WithinCap, DecodeSince, LittleEndian, FromLittleEndian;
    var head, count, body := SinceHeader().encode((s.target, s.signature)), U32().encode(|s.deltas|),
                             EncodeAll(DeltaBody(), s.deltas);
    var b := EncodeSince(s);
    assert b == head + (count + body);
    UnsignedIsCanonical(4);
    Powers();
    HeaderIsCanonical();
    assert DecodesBack(SinceHeader(), (s.target, s.signature), count + body);
    assert DecodesBack(U32(), |s.deltas|, body);
    SinceSteps(b);
    assert b[|head|..] == count + body && (count + body)[|count|..] == body;
    OversizeDeltaSpoils(s.deltas, []);
    assert body + [] == body;
  }

  lemma HeaderIsCanonical()
    ensures Canonical(SinceHeader())
  {
    UnsignedIsCanonical(8);
    RawIsCanonical(SIGNATURE_LEN);
    BothIsCanonical(U64(), Raw(SIGNATURE_LEN));
  }

  lemma SinceSteps(b: Bytes)
    ensures match HeadOf(SinceHeader(), b)
            case None => DecodeSince(b).None?
            case Some(((target, signature), m)) =>
              match DecodeCounted(U32(), DeltaBody(), b[m..])
              case None => DecodeSince(b).None?
              case Some((deltas, n)) =>
                DecodeSince(b) == if m + n == |b| then Some(ManifestSince(target, signature, deltas))
                                  else None
  {
    WholeOfBoth(SinceHeader(), Counted(U32(), DeltaBody()),
                (v: ((nat, Bytes), seq<Bytes>)) => ManifestSince(v.0.0, v.0.1, v.1),
                (s: ManifestSince) => ((s.target, s.signature), s.deltas),
                (s: ManifestSince) => true, b);
  }

  /** The reader: a fixed header, then one delta at a time. */
  method DecodeManifestSince(bytes: Bytes) returns (r: Option<ManifestSince>)
    ensures r == DecodeSince(bytes)
  {
    SinceSteps(bytes);
    var head := HeadOf(SinceHeader(), bytes);
    if head.None? {
      return None;
    }
    var ((target, signature), cursor) := head.value;
    var deltas := ReadCounted(U32(), DeltaBody(), bytes[cursor..]);
    if deltas.None? || cursor + deltas.value.1 != |bytes| {
      return None;
    }
    return Some(ManifestSince(target, signature, deltas.value.0));
  }

  method EncodeManifestSince(s: ManifestSince) returns (out: Bytes)
    requires SinceEncodable(s)
    ensures out == EncodeSince(s)
  {
    out := U64().encode(s.target);
    out := out + s.signature;
    out := WriteCounted(out, U32(), DeltaBody(), s.deltas);
  }

  // -------------------------------------------------- chunk maps and holdings

  const ADDRESS_LEN: nat := 32

  /** A chunk map answer: root, size, and counted addresses. */
  function ChunkMapCodec(): Codec<(Bytes, (nat, seq<Bytes>))> {
    Both(Raw(ADDRESS_LEN), Both(U64(), Counted(U32(), Raw(ADDRESS_LEN))))
  }

  /** A chunk map reads back whatever trails it, and every answer accepted starts
      with the encoding of what it decodes to. Unlike a manifest, bytes after
      the last address are ignored. */
  lemma ChunkMapIsCanonical(root: Bytes, size: nat, addresses: seq<Bytes>, more: Bytes)
    ensures Canonical(ChunkMapCodec())
    ensures ChunkMapCodec().valid((root, (size, addresses))) ==>
              var b := ChunkMapCodec().encode((root, (size, addresses)));
              ChunkMapCodec().decode(b + more) == Some(((root, (size, addresses)), |b|))
  {
    IntegerCodecsAreCanonical();
    RawIsCanonical(ADDRESS_LEN);
    CountedIsCanonical(U32(), Raw(ADDRESS_LEN));
    BothIsCanonical(U64(), Counted(U32(), Raw(ADDRESS_LEN)));
    BothIsCanonical(Raw(ADDRESS_LEN), Both(U64(), Counted(U32(), Raw(ADDRESS_LEN))));
    assert DecodesBack(ChunkMapCodec(), (root, (size, addresses)), more);
  }

  function BitmapLen(chunks: nat): nat { (chunks + 7) / 8 }

  function EncodeHave(chunks: nat, bitmap: Bytes): Bytes { U32().encode(chunks) + bitmap }

  function DecodeHave(b: Bytes): Option<(nat, Bytes)> {
    match HeadOf(U32(), b)
    case None => None
    case Some((chunks, k)) =>
      if |b| < k + BitmapLen(chunks) then None else Some((chunks, b[k..k + BitmapLen(chunks)]))
  }

  /** A have answer decodes exactly when its bitmap is long enough for the count
      it claims, to the bits of that count and no more. */
  lemma HaveRoundTripsIff(chunks: nat, bitmap: Bytes)
    requires chunks <= U32_MAX
    ensures DecodeHave(EncodeHave(chunks, bitmap)) ==
            if |bitmap| < BitmapLen(chunks) then None else Some((chunks, bitmap[..BitmapLen(chunks)]))
  {
    Powers();
    UnsignedIsCanonical(4);
    assert DecodesBack(U32(), chunks, bitmap);
    var k, n := |U32().encode(chunks)|, BitmapLen(chunks);
    if n <= |bitmap| {
      assert EncodeHave(chunks, bitmap)[k..k + n] == bitmap[..n];
    }
  }
}
