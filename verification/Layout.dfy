/**
 The bytes of every record, field by field.

 A round trip says that reader and writer agree with each other; these lemmas say
 what they agree on, so that peers built at other times can be held to it.
 */
module Layout {
  import opened Wrappers
  import opened Codec
  import opened Manifest
  import opened Framing
  import Authorship
  import Ticket
  import Seeder

  // ---------------------------------------------------------------- integers

  lemma Digit(width: nat, v: nat)
    requires width > 0
    ensures LittleEndian(width, v) == [v % 256] + LittleEndian(width - 1, v / 256)
  {
  }

  /** Numbers are little-endian, of two, four and eight bytes. */
  lemma NumbersAreLittleEndian(v: nat)
    ensures U16().encode(v) == [v % 256, v / 256 % 256]
    ensures U32().encode(v) == [v % 256, v / 256 % 256, v / 256 / 256 % 256, v / 256 / 256 / 256 % 256]
    ensures U64().encode(v) == U32().encode(v) + U32().encode(v / 256 / 256 / 256 / 256)
  {
    hide LittleEndian;
    Four(v, 0);
    Four(v, 4);
    Digit(2, v);
    Digit(1, v / 256);
    assert LittleEndian(0, v / 256 / 256) == [];
    assert LittleEndian(0, v / 256 / 256 / 256 / 256) == [];
  }

  lemma Four(v: nat, more: nat)
    ensures LittleEndian(4 + more, v) ==
            [v % 256, v / 256 % 256, v / 256 / 256 % 256, v / 256 / 256 / 256 % 256]
            + LittleEndian(more, v / 256 / 256 / 256 / 256)
  {
    hide LittleEndian;
    Digit(4 + more, v);
    Digit(3 + more, v / 256);
    Digit(2 + more, v / 256 / 256);
    Digit(1 + more, v / 256 / 256 / 256);
  }

  /** A list is its items one after another. */
  lemma {:induction false} ListsAreConcatenated<T>(item: Codec<T>, a: seq<T>, b: seq<T>, t: T)
    ensures EncodeAll(item, []) == [] && EncodeAll(item, [t]) == item.encode(t)
    ensures EncodeAll(item, a + b) == EncodeAll(item, a) + EncodeAll(item, b)
  {
    assert [t][1..] == [];
    if a == [] {
      assert a + b == b;
    } else {
      ListsAreConcatenated(item, a[1..], b, t);
      assert (a + b)[1..] == a[1..] + b;
    }
  }

  function CountedBytes<T>(item: Codec<T>, ts: seq<T>): Bytes { U32().encode(|ts|) + EncodeAll(item, ts) }

  // ------------------------------------------------------------ trees and deltas

  /** A path behind two bytes of length. */
  function PathBytes(p: Path): Bytes { U16().encode(|p|) + p }

  /** A signed time, as the number its 64 bits spell. */
  function TimeBytes(t: int): Bytes
    requires IsTime(t)
  {
    U64().encode(if t >= 0 then t else t + 0x1_0000_0000_0000_0000)
  }

  lemma DirLayout(d: DirEntry)
    requires IsTime(d.mtime)
    ensures PathCodec().encode(d.relPath) == PathBytes(d.relPath)
    ensures DirCodec().encode(d) == PathBytes(d.relPath) + U32().encode(d.mode) + TimeBytes(d.mtime)
  {
    PathIs(d.relPath);
    TimeIs(d.mtime);
    hide PathCodec, TimeCodec, PathBytes, TimeBytes, U32;
    assert DirCodec().encode(d) ==
           PathCodec().encode(d.relPath) + (U32().encode(d.mode) + TimeCodec().encode(d.mtime));
  }

  lemma PathIs(p: Path)
    ensures PathCodec().encode(p) == PathBytes(p)
  {
    hide LittleEndian;
  }

  lemma TimeIs(t: int)
    requires IsTime(t)
    ensures TimeCodec().encode(t) == TimeBytes(t)
  {
    hide LittleEndian;
    assert FromTime(t) == if t >= 0 then t else t + 0x1_0000_0000_0000_0000;
  }

  lemma FileLayout(f: FileEntry)
    requires IsTime(f.mtime)
    ensures FileCodec().encode(f) ==
            PathBytes(f.relPath) + U64().encode(f.size) + U32().encode(f.mode) + TimeBytes(f.mtime)
  {
    PathIs(f.relPath);
    TimeIs(f.mtime);
    hide PathCodec, TimeCodec, PathBytes, TimeBytes, U32, U64;
    assert FileCodec().encode(f) == PathCodec().encode(f.relPath)
           + (U64().encode(f.size) + (U32().encode(f.mode) + TimeCodec().encode(f.mtime)));
  }

  /** A manifest: its directories, then its files, each behind a count. */
  lemma TreeLayout(t: Tree)
    ensures EncodeTree(t) == CountedBytes(DirCodec(), t.dirs) + CountedBytes(FileCodec(), t.files)
  {
    hide LittleEndian, DirCodec, FileCodec, EncodeAll;
  }

  /** A delta: directories upserted and removed, then files upserted, each behind
      its slot, and slots removed. */
  lemma DeltaLayout(d: Delta, slot: nat, f: FileEntry)
    ensures EncodeDelta(d) ==
            CountedBytes(DirCodec(), d.dirsUpserted) + CountedBytes(PathCodec(), d.dirsRemoved)
            + CountedBytes(Both(U32(), FileCodec()), d.filesUpserted) + CountedBytes(U32(), d.filesRemoved)
    ensures Both(U32(), FileCodec()).encode((slot, f)) == U32().encode(slot) + FileCodec().encode(f)
  {
    hide LittleEndian, DirCodec, FileCodec, PathCodec, EncodeAll;
  }

  // ------------------------------------------------------- envelopes and answers

  /** An envelope: eight bytes of version, 64 of signature, and the manifest. What
      is signed starts with a fixed text instead. */
  lemma EnvelopeLayout(s: Authorship.SignedManifest)
    requires |s.signature| == 64
    ensures var b := Authorship.Encode(s);
            b[..8] == U64().encode(s.version) && b[8..72] == s.signature && b[72..] == s.manifest
    ensures var p, text := Authorship.SignedPayload(s.version, s.manifest), "agent-share/manifest/v1";
            && |p| == |text| + 8 + |s.manifest| && (forall i :: 0 <= i < |text| ==> p[i] == text[i] as int)
            && p[|text|..|text| + 8] == U64().encode(s.version) && p[|text| + 8..] == s.manifest
  {
    Authorship.VersionWidth(s.version);
    hide U64;
    var v, text := U64().encode(s.version), Authorship.CONTEXT;
    Pieces(v, s.signature, s.manifest);
    Pieces(text, v, s.manifest);
    ContextIs();
  }

  lemma ContextIs()
    ensures var text := "agent-share/manifest/v1";
            |Authorship.CONTEXT| == |text| && forall i :: 0 <= i < |text| ==> Authorship.CONTEXT[i] == text[i] as int
  {
  }

  /** A frame that carries an envelope starts with a zero byte. */
  lemma FrameLayout(envelope: Bytes)
    ensures Seeder.FrameOf(envelope) == [0] + envelope
  {
  }

  /** A catch-up answer: target version, signature, and counted deltas, each behind
      four bytes of length. */
  lemma SinceLayout(s: ManifestSince, delta: Bytes)
    ensures EncodeSince(s) == U64().encode(s.target) + s.signature + CountedBytes(DeltaBody(), s.deltas)
    ensures DeltaBody().encode(delta) == U32().encode(|delta|) + delta
  {
    hide LittleEndian, EncodeAll;
  }

  /** A chunk map: root, size, and counted addresses of 32 bytes. */
  lemma ChunkMapLayout(root: Bytes, size: nat, addresses: seq<Bytes>)
    ensures ChunkMapCodec().encode((root, (size, addresses))) ==
            root + U64().encode(size) + CountedBytes(Raw(32), addresses)
    ensures forall a :: Raw(32).encode(a) == a
  {
    hide LittleEndian, EncodeAll;
  }

  /** A bitmap has as many bytes as its bits need, and no more. */
  lemma HaveLayout(chunks: nat, bitmap: Bytes)
    ensures EncodeHave(chunks, bitmap) == U32().encode(chunks) + bitmap
    ensures chunks <= 8 * BitmapLen(chunks) < chunks + 8
  {
    hide LittleEndian;
  }

  // -------------------------------------------------------------------- tickets

  predicate BitOf(flags: byte, bit: nat)
    requires bit < 8
  {
    flags / [1, 2, 4, 8, 16, 32, 64, 128][bit] % 2 == 1
  }

  /** Lookups: one byte of flags, and for a ladder its length and its URLs. */
  lemma LookupsLayout(texts: Ticket.Texts, l: Ticket.Lookups)
    requires Ticket.Fits(l.relay)
    ensures var b := Ticket.EncodeLookups(texts, l);
            && BitOf(b[0], 0) == l.mdns && BitOf(b[0], 1) == l.dht
            && BitOf(b[0], 2) == !l.relay.Disabled? && BitOf(b[0], 3) == l.relay.Custom? && b[0] < 16
            && b[1..] == if l.relay.Custom? then [|l.relay.ladder|] + EncodeAll(Ticket.Rung(texts), l.relay.ladder)
                         else []
    ensures forall url :: Ticket.Rung(texts).encode(url) == U16().encode(|url|) + url
  {
    hide LittleEndian, EncodeAll;
  }

  function OrNothing(b: Option<Bytes>): Bytes { if b.Some? then b.value else [] }

  /** A ticket: secret, kind, lookups, address; then, unless the flags are zero,
      flags, mesh id and author. */
  lemma TicketLayout(texts: Ticket.Texts, t: Ticket.Ticket)
    requires Ticket.Fits(t.lookups.relay)
    ensures Ticket.EncodePayload(texts, t) ==
            t.secret + [t.kind] + Ticket.EncodeLookups(texts, t.lookups) + U16().encode(|t.address|) + t.address
            + if t.flags == 0 then []
              else [t.flags] + U16().encode(|OrNothing(t.mesh)|) + OrNothing(t.mesh) + OrNothing(t.author)
  {
    hide LittleEndian, Ticket.EncodeLookups;
    var head := t.secret + [t.kind] + Ticket.EncodeLookups(texts, t.lookups);
    assert head + (U16().encode(|t.address|) + t.address) == head + U16().encode(|t.address|) + t.address;
  }
}
