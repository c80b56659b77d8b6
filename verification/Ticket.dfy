/** The mount ticket: self-delimiting records with an optional, flag-dependent
    tail, and the lookup allowlist inside it. */
module Ticket {
  import opened Wrappers
  import opened Codec

  const MAX_RELAY_LADDER: nat := 16
  const MAX_RELAY_URL_BYTES: nat := 512
  const SECRET_LEN: nat := 32
  const AUTHOR_LEN: nat := 32

  /** A relay URL and an address are their own canonical text; parsing answers
      the canonical text of what it was given. */
  datatype Texts = Texts(url: Bytes -> Option<Bytes>, address: Bytes -> Option<Bytes>)

  datatype Relay = Disabled | Pinned | Custom(ladder: seq<Bytes>)

  datatype Lookups = Lookups(mdns: bool, dht: bool, relay: Relay)

  datatype Ticket = Ticket(
    address: Bytes,
    secret: Bytes,
    lookups: Lookups,
    kind: byte,
    flags: byte,
    mesh: Option<Bytes>,
    author: Option<Bytes>)

  predicate Flag(b: byte, weight: nat)
    requires weight > 0
  {
    b / weight % 2 == 1
  }

  predicate Signed(flags: byte) { Flag(flags, 2) }

  // ----------------------------------------------------------------- lookups

  function DecodeUrl(texts: Texts, b: Bytes): Option<(Bytes, nat)> {
    match DecodeSized(U16(), MAX_RELAY_URL_BYTES, Utf8, b)
    case None => None
    case Some((raw, used)) =>
      match texts.url(raw)
      case None => None
      case Some(url) => Some((url, used))
  }

  /** One rung of a relay ladder. */
  function Rung(texts: Texts): Codec<Bytes> {
    Codec(
      (u: Bytes) => |u| <= MAX_RELAY_URL_BYTES && Utf8(u) && texts.url(u) == Some(u),
      (u: Bytes) => U16().encode(|u|) + u,
      (b: Bytes) => DecodeUrl(texts, b))
  }

  function LookupFlags(l: Lookups): byte {
    (if l.mdns then 1 else 0) + (if l.dht then 2 else 0)
    + match l.relay
      case Disabled => 0
      case Pinned => 4
      case Custom(_) => 12
  }

  function EncodeLookups(texts: Texts, l: Lookups): Bytes
    requires l.relay.Custom? ==> |l.relay.ladder| < 256
  {
    [LookupFlags(l)] + EncodeRelay(texts, l.relay)
  }

  function EncodeRelay(texts: Texts, relay: Relay): Bytes
    requires relay.Custom? ==> |relay.ladder| < 256
  {
    if relay.Custom? then [|relay.ladder|] + EncodeAll(Rung(texts), relay.ladder) else []
  }

  function DecodeRelay(texts: Texts, flags: byte, b: Bytes): Option<(Relay, nat)> {
    if Flag(flags, 8) && !Flag(flags, 4) then None
    else if !Flag(flags, 4) then Some((Disabled, 0))
    else if !Flag(flags, 8) then Some((Pinned, 0))
    else if b == [] || b[0] == 0 || b[0] > MAX_RELAY_LADDER then None
    else match DecodeN(Rung(texts), b[0], b[1..])
      case None => None
      case Some((ladder, used)) => Some((Custom(ladder), 1 + used))
  }

  function DecodeLookups(texts: Texts, b: Bytes): Option<(Lookups, nat)> {
    if b == [] then None
    else match DecodeRelay(texts, b[0], b[1..])
      case None => None
      case Some((relay, used)) => Some((Lookups(Flag(b[0], 1), Flag(b[0], 2), relay), 1 + used))
  }

  /** What encoding does not panic on: lengths that fit their fields. */
  predicate Fits(relay: Relay) {
    relay.Custom? ==>
      |relay.ladder| < 256 && forall i :: 0 <= i < |relay.ladder| ==> |relay.ladder[i]| <= U16_MAX
  }

  predicate Printed(texts: Texts, url: Bytes) {
    |url| <= U16_MAX && Utf8(url) && texts.url(url) == Some(url)
  }

  /** Every ladder of URLs that encoding writes. */
  predicate LookupsEncodable(texts: Texts, l: Lookups) {
    l.relay.Custom? ==>
      |l.relay.ladder| < 256 && forall i :: 0 <= i < |l.relay.ladder| ==> Printed(texts, l.relay.ladder[i])
  }

  /** What decoding will take back. */
  predicate LookupsInBounds(texts: Texts, l: Lookups) {
    l.relay.Custom? ==> 1 <= |l.relay.ladder| <= MAX_RELAY_LADDER && AllValid(Rung(texts), l.relay.ladder)
  }

  lemma RungsReadBack(texts: Texts)
    ensures ReadsBack(Rung(texts))
  {
    IntegerCodecsAreCanonical();
    Powers();
    SizedIsCanonical(U16(), MAX_RELAY_URL_BYTES, Utf8);
    var sized := Sized(U16(), MAX_RELAY_URL_BYTES, Utf8);
    forall u, rest ensures DecodesBack(Rung(texts), u, rest) {
      assert DecodesBack(sized, u, rest);
    }
  }

  lemma FlagsRead(l: Lookups)
    ensures var f := LookupFlags(l);
            && Flag(f, 1) == l.mdns && Flag(f, 2) == l.dht
            && Flag(f, 4) == !l.relay.Disabled? && Flag(f, 8) == l.relay.Custom?
  {
  }

  /** **Whatever encoding writes** reads back, taking exactly its own bytes, when
      the ladder has one to sixteen rungs of at most 512 bytes; every other
      ladder it writes is refused. */
  lemma LookupsReadBack(texts: Texts, l: Lookups, rest: Bytes)
    requires LookupsEncodable(texts, l)
    ensures DecodeLookups(texts, EncodeLookups(texts, l) + rest) ==
            if LookupsInBounds(texts, l) then Some((l, |EncodeLookups(texts, l)|)) else None
  {
    hide Rung, LookupFlags, Flag, DecodeRelay;
    FlagsRead(l);
    var body := EncodeRelay(texts, l.relay);
    assert EncodeLookups(texts, l) + rest == [LookupFlags(l)] + (body + rest);
    assert ([LookupFlags(l)] + (body + rest))[1..] == body + rest;
    if LookupsInBounds(texts, l) {
      RelayReadsBack(texts, l, rest);
    } else {
      RelayIsRefused(texts, l, rest);
    }
  }

  lemma RungReads(texts: Texts, url: Bytes, rest: Bytes)
    requires Printed(texts, url)
    ensures HeadOf(Rung(texts), U16().encode(|url|) + url + rest) ==
            if |url| <= MAX_RELAY_URL_BYTES then Some((url, 2 + |url|)) else None
  {
    hide Utf8, LittleEndian, FromLittleEndian;
    Powers();
    IntegerRoundTrip(2, |url|);
    Pieces(U16().encode(|url|), url, rest);
  }

  /** One oversize rung spoils its ladder, wherever it stands. */
  lemma {:induction false} OversizeRungIsRefused(texts: Texts, ladder: seq<Bytes>, rest: Bytes)
    requires forall i :: 0 <= i < |ladder| ==> Printed(texts, ladder[i])
    requires exists i :: 0 <= i < |ladder| && |ladder[i]| > MAX_RELAY_URL_BYTES
    ensures DecodeN(Rung(texts), |ladder|, EncodeAll(Rung(texts), ladder) + rest) == None
  {
    hide Printed, HeadOf, U16;
    var url, others := ladder[0], EncodeAll(Rung(texts), ladder[1..]);
    var one := U16().encode(|url|) + url;
    assert EncodeAll(Rung(texts), ladder) + rest == one + (others + rest);
    RungReads(texts, url, others + rest);
    if |url| <= MAX_RELAY_URL_BYTES {
      assert exists i :: 0 <= i < |ladder[1..]| && |ladder[1..][i]| > MAX_RELAY_URL_BYTES by {
        var i :| 0 <= i < |ladder| && |ladder[i]| > MAX_RELAY_URL_BYTES;
        assert ladder[1..][i - 1] == ladder[i];
      }
      OversizeRungIsRefused(texts, ladder[1..], rest);
      U16Width(|url|);
      assert (one + (others + rest))[2 + |url|..] == others + rest;
    }
  }

  lemma U16Width(v: nat)
    ensures |U16().encode(v)| == 2
  {
  }

  lemma RelayIsRefused(texts: Texts, l: Lookups, rest: Bytes)
    requires LookupsEncodable(texts, l) && !LookupsInBounds(texts, l)
    ensures DecodeRelay(texts, LookupFlags(l), EncodeRelay(texts, l.relay) + rest) == None
  {
    hide LookupFlags, Flag, DecodeN, EncodeAll, Utf8;
    FlagsRead(l);
    var ladder := l.relay.ladder;
    var rungs := EncodeAll(Rung(texts), ladder);
    assert EncodeRelay(texts, l.relay) + rest == [|ladder|] + (rungs + rest);
    assert ([|ladder|] + (rungs + rest))[1..] == rungs + rest;
    if 1 <= |ladder| <= MAX_RELAY_LADDER {
      OversizeRungIsRefused(texts, ladder, rest);
    }
  }

  lemma RelayReadsBack(texts: Texts, l: Lookups, rest: Bytes)
    requires LookupsInBounds(texts, l)
    ensures DecodeRelay(texts, LookupFlags(l), EncodeRelay(texts, l.relay) + rest) ==
            Some((l.relay, |EncodeRelay(texts, l.relay)|))
  {
    hide Rung, LookupFlags, Flag, DecodeN, EncodeAll;
    FlagsRead(l);
    if l.relay.Custom? {
      var ladder := l.relay.ladder;
      RungsReadBack(texts);
      ItemsDecodeBack(Rung(texts), ladder, rest);
      assert EncodeRelay(texts, l.relay) + rest == [|ladder|] + (EncodeAll(Rung(texts), ladder) + rest);
      assert ([|ladder|] + (EncodeAll(Rung(texts), ladder) + rest))[1..] == EncodeAll(Rung(texts), ladder) + rest;
    }
  }

  /** What each bit of the flags says to a reader, whatever the others are: a ladder
      without a relay is refused, and only a ladder takes more than the one byte. */
  lemma FlagsSay(texts: Texts, flags: byte, rest: Bytes)
    ensures var r := DecodeLookups(texts, [flags] + rest);
            && (flags / 8 % 2 == 1 && flags / 4 % 2 == 0 ==> r == None)
            && (r.Some? ==>
                  && r.value.0.mdns == (flags % 2 == 1) && r.value.0.dht == (flags / 2 % 2 == 1)
                  && (r.value.0.relay.Custom? <==> flags / 8 % 2 == 1))
            && (flags / 8 % 2 == 0 ==>
                  r == Some((Lookups(flags % 2 == 1, flags / 2 % 2 == 1,
                                     if flags / 4 % 2 == 1 then Pinned else Disabled), 1)))
  {
    hide DecodeN, Rung;
    assert ([flags] + rest)[1..] == rest;
  }

  /** A reader that depends on nothing past the bytes it takes. */
  ghost predicate Steady<T>(c: Codec<T>, b: Bytes, rest: Bytes) {
    c.decode(b).Some? ==>
      var used := c.decode(b).value.1;
      used <= |b| && c.decode(b[..used] + rest) == c.decode(b)
  }

  lemma RungIsSteady(texts: Texts, b: Bytes, rest: Bytes)
    ensures Steady(Rung(texts), b, rest)
  {
    IntegerCodecsAreCanonical();
    SizedIsCanonical(U16(), MAX_RELAY_URL_BYTES, Utf8);
    var sized := Sized(U16(), MAX_RELAY_URL_BYTES, Utf8);
    assert Reencodes(sized, b);
    if DecodeUrl(texts, b).Some? {
      assert DecodesBack(sized, sized.decode(b).value.0, rest);
    }
  }

  /** A list already read in front of the rest of a read. */
  function After<T>(urls: seq<T>, used: nat, rest: Option<(seq<T>, nat)>): Option<(seq<T>, nat)> {
    match rest
    case None => None
    case Some((more, n)) => Some((urls + more, used + n))
  }

  lemma AfterNone<T>(rest: Option<(seq<T>, nat)>)
    ensures After([], 0, rest) == rest
  {
    if rest.Some? {
      assert [] + rest.value.0 == rest.value.0;
    }
  }

  lemma AfterOne(urls: seq<Bytes>, used: nat, url: Bytes, taken: nat, rest: Option<(seq<Bytes>, nat)>)
    ensures After(urls, used, After([url], taken, rest)) == After(urls + [url], used + taken, rest)
  {
    if rest.Some? {
      assert urls + ([url] + rest.value.0) == urls + [url] + rest.value.0;
    }
  }

  lemma Step<T>(c: Codec<T>, n: nat, b: Bytes)
    ensures DecodeN(c, n, b) ==
            if n == 0 then Some(([], 0))
            else match HeadOf(c, b)
              case None => None
              case Some((t, used)) => After([t], used, DecodeN(c, n - 1, b[used..]))
  {
  }

  lemma HeadIsSteady<T>(c: Codec<T>, b: Bytes, rest: Bytes)
    requires Steady(c, b, rest) && HeadOf(c, b).Some?
    ensures HeadOf(c, b[..HeadOf(c, b).value.1] + rest) == HeadOf(c, b)
  {
  }

  lemma {:induction false} ListIsSteady<T>(c: Codec<T>, n: nat, b: Bytes, rest: Bytes)
    requires forall x, y :: Steady(c, x, y)
    requires DecodeN(c, n, b).Some?
    ensures var used := DecodeN(c, n, b).value.1;
            DecodeN(c, n, b[..used] + rest) == DecodeN(c, n, b)
  {
    hide DecodeN, HeadOf, Steady;
    Step(c, n, b);
    if n == 0 {
      Step(c, 0, b[..0] + rest);
    } else {
      var one := HeadOf(c, b).value.1;
      var more := DecodeN(c, n - 1, b[one..]).value.1;
      var tail := b[one..][..more] + rest;
      HeadIsSteady(c, b, tail);
      ListIsSteady(c, n - 1, b[one..], rest);
      assert b[..one + more] + rest == b[..one] + tail;
      assert (b[..one] + tail)[one..] == tail;
      Step(c, n, b[..one] + tail);
    }
  }

  /** Any accepted lookups take exactly their own bytes whatever follows. */
  lemma LookupsAreSelfDelimiting(texts: Texts, b: Bytes, rest: Bytes)
    requires DecodeLookups(texts, b).Some?
    ensures var used := DecodeLookups(texts, b).value.1;
            used <= |b| && DecodeLookups(texts, b[..used] + rest) == DecodeLookups(texts, b)
  {
    hide Rung, DecodeN;
    var used := DecodeLookups(texts, b).value.1;
    var relay := DecodeRelay(texts, b[0], b[1..]).value;
    var c := b[..used] + rest;
    if relay.0.Custom? {
      forall x, y ensures Steady(Rung(texts), x, y) {
        RungIsSteady(texts, x, y);
      }
      ListIsSteady(Rung(texts), b[1], b[2..], rest);
      assert b[1..][1..] == b[2..] && c[1..][1..] == b[2..][..used - 2] + rest;
    }
  }

  /** So cutting them short is always noticed. */
  lemma CutLookupsAreRefused(texts: Texts, b: Bytes, n: nat)
    requires DecodeLookups(texts, b).Some? && n < DecodeLookups(texts, b).value.1
    ensures n <= |b| && DecodeLookups(texts, b[..n]) == None
  {
    hide DecodeLookups;
    LookupsAreSelfDelimiting(texts, b, []);
    if DecodeLookups(texts, b[..n]).Some? {
      var k := DecodeLookups(texts, b[..n]).value.1;
      LookupsAreSelfDelimiting(texts, b[..n], []);
      assert b[..n][..k] + b[k..] == b;
      LookupsAreSelfDelimiting(texts, b[..n], b[k..]);
    }
  }

  // ---------------------------------------------------------------- payload

  function EncodeTail(flags: byte, mesh: Option<Bytes>, author: Option<Bytes>): Bytes {
    if flags == 0 then [] else
    var id := if mesh.Some? then mesh.value else [];
    [flags] + U16().encode(|id|) + id + if author.Some? then author.value else []
  }

  function EncodePayload(texts: Texts, t: Ticket): Bytes
    requires t.lookups.relay.Custom? ==> |t.lookups.relay.ladder| < 256
  {
    EncodeFixed(texts, t) + EncodeTail(t.flags, t.mesh, t.author)
  }

  /** The mesh id's declared length; a tail that stops before it declares none. */
  function MeshLen(b: Bytes): nat {
    if |b| < 2 then 0 else FromLittleEndian(b[..2])
  }

  function ReadMesh(b: Bytes): Option<Option<Bytes>> {
    var n := MeshLen(b);
    if n == 0 then Some(None)
    else if |b| < 2 + n || !Utf8(b[2..2 + n]) then None
    else Some(Some(b[2..2 + n]))
  }

  function ReadAuthor(b: Bytes): Option<Bytes> {
    var at := 2 + MeshLen(b);
    if |b| < at + AUTHOR_LEN then None else Some(b[at..at + AUTHOR_LEN])
  }

  datatype Tail = Tail(flags: byte, mesh: Option<Bytes>, author: Option<Bytes>)

  function DecodeTail(b: Bytes): Option<Tail> {
    var flags: byte := if b == [] then 0 else b[0];
    if flags == 0 then Some(Tail(0, None, None))
    else match ReadMesh(b[1..])
      case None => None
      case Some(mesh) => Some(Tail(flags, mesh, if Signed(flags) then ReadAuthor(b[1..]) else None))
  }

  /** Everything before the tail, and where the tail starts. */
  function DecodeFixed(texts: Texts, p: Bytes): (r: Option<(Lookups, Bytes, nat)>)
    ensures r.Some? ==> SECRET_LEN < r.value.2 <= |p|
  {
    if |p| <= SECRET_LEN then None else
    match HeadOfLookups(texts, p[SECRET_LEN + 1..])
    case None => None
    case Some((lookups, n)) =>
      match DecodeSized(U16(), U16_MAX, _ => true, p[SECRET_LEN + 1 + n..])
      case None => None
      case Some((address, k)) =>
        SizedTakes(p[SECRET_LEN + 1 + n..], address, k);
        Some((lookups, address, SECRET_LEN + 1 + n + k))
  }

  function HeadOfLookups(texts: Texts, b: Bytes): (r: Option<(Lookups, nat)>)
    ensures r.Some? ==> r.value.1 <= |b|
    ensures r == DecodeLookups(texts, b)
  {
    if DecodeLookups(texts, b).Some? then LookupsAreSelfDelimiting(texts, b, []); DecodeLookups(texts, b)
    else None
  }

  lemma SizedTakes(b: Bytes, v: Bytes, k: nat)
    requires DecodeSized(U16(), U16_MAX, _ => true, b) == Some((v, k))
    ensures k <= |b|
  {
  }

  function DecodePayload(texts: Texts, p: Bytes): Option<Ticket> {
    match DecodeFixed(texts, p)
    case None => None
    case Some((lookups, raw, at)) =>
      match DecodeTail(p[at..])
      case None => None
      case Some(tail) =>
        match texts.address(raw)
        case None => None
        case Some(address) =>
          Some(Ticket(address, p[..SECRET_LEN], lookups, p[SECRET_LEN], tail.flags, tail.mesh, tail.author))
  }

  // ------------------------------------------------------------- round trips

  /** A ticket encoding writes. */
  predicate Encodable(texts: Texts, t: Ticket) {
    && |t.secret| == SECRET_LEN
    && LookupsEncodable(texts, t.lookups)
    && |t.address| <= U16_MAX && texts.address(t.address) == Some(t.address)
    && (t.mesh.Some? ==> |t.mesh.value| <= U16_MAX && Utf8(t.mesh.value))
    && (t.author.Some? ==> |t.author.value| == AUTHOR_LEN)
  }

  /** One whose lookups decoding takes back as well. */
  predicate InBounds(texts: Texts, t: Ticket) { Encodable(texts, t) && LookupsInBounds(texts, t.lookups) }

  /** A ticket with nothing the tail would drop: no mesh id or author without
      flags, no empty mesh id, no author without its flag. */
  predicate Expressible(t: Ticket) {
    && (t.mesh.Some? ==> t.flags != 0 && t.mesh.value != [])
    && (t.author.Some? ==> Signed(t.flags))
  }

  lemma MeshReadsBack(id: Bytes, key: Bytes)
    requires |id| <= U16_MAX && Utf8(id)
    ensures var body := U16().encode(|id|) + id + key;
            && ReadMesh(body) == Some(if id == [] then None else Some(id))
            && ReadAuthor(body) == if |key| < AUTHOR_LEN then None else Some(key[..AUTHOR_LEN])
  {
    hide Utf8, LittleEndian, FromLittleEndian;
    Powers();
    IntegerRoundTrip(2, |id|);
    Pieces(U16().encode(|id|), id, key);
    var body := U16().encode(|id|) + id + key;
    assert body[2 + |id|..] == key;
    if |key| >= AUTHOR_LEN {
      assert body[2 + |id|..2 + |id| + AUTHOR_LEN] == key[..AUTHOR_LEN];
    }
  }

  lemma TailReadsBack(flags: byte, mesh: Option<Bytes>, author: Option<Bytes>)
    requires mesh.Some? ==> |mesh.value| <= U16_MAX && Utf8(mesh.value)
    requires author.Some? ==> |author.value| == AUTHOR_LEN
    ensures DecodeTail(EncodeTail(flags, mesh, author)) ==
            Some(Tail(flags, if flags == 0 || mesh == Some([]) then None else mesh,
                      if Signed(flags) then author else None))
  {
    hide Utf8, ReadMesh, ReadAuthor, U16, DecodeTail, Signed, EncodeTail;
    TailIs(flags, mesh, author);
    var id := if mesh.Some? then mesh.value else [];
    var key := if author.Some? then author.value else [];
    NoFlagsNoTail();
    if flags != 0 {
      assert Utf8(id) by { NothingIsUtf8(); }
      MeshReadsBack(id, key);
      assert key[..|key|] == key;
      TailOfFlags(flags, U16().encode(|id|) + id + key);
    }
  }

  lemma TailIs(flags: byte, mesh: Option<Bytes>, author: Option<Bytes>)
    ensures var id := if mesh.Some? then mesh.value else [];
            var key := if author.Some? then author.value else [];
            EncodeTail(flags, mesh, author) ==
            if flags == 0 then [] else [flags] + (U16().encode(|id|) + id + key)
  {
    hide U16;
  }

  lemma NoFlagsNoTail()
    ensures DecodeTail([]) == Some(Tail(0, None, None)) && !Signed(0)
  {
  }

  /** Flags may stand alone: a tail that stops before the mesh id's length has no
      mesh id and no author. */
  lemma FlagsMayStandAlone(b: Bytes)
    requires |b| <= 2
    ensures DecodeTail(b) == Some(Tail(if b == [] then 0 else b[0], None, None))
  {
    if b != [] {
      assert |b[1..]| < 2;
    }
  }

  lemma TailOfFlags(flags: byte, body: Bytes)
    requires flags != 0
    ensures DecodeTail([flags] + body) ==
            if ReadMesh(body).None? then None
            else Some(Tail(flags, ReadMesh(body).value, if Signed(flags) then ReadAuthor(body) else None))
  {
    hide ReadMesh, ReadAuthor, Signed;
    assert ([flags] + body)[1..] == body;
  }

  lemma NothingIsUtf8()
    ensures Utf8([])
  {
  }

  lemma Places(secret: Bytes, kind: byte, lookups: Bytes, address: Bytes, tail: Bytes)
    requires |secret| == SECRET_LEN
    ensures var p := secret + [kind] + lookups + address + tail;
            && p[SECRET_LEN + 1..] == lookups + (address + tail)
            && p[SECRET_LEN + 1 + |lookups|..] == address + tail
            && p[..SECRET_LEN] == secret && p[SECRET_LEN] == kind
            && p[SECRET_LEN + 1 + |lookups| + |address|..] == tail
  {
  }

  function EncodeFixed(texts: Texts, t: Ticket): Bytes
    requires t.lookups.relay.Custom? ==> |t.lookups.relay.ladder| < 256
  {
    t.secret + [t.kind] + EncodeLookups(texts, t.lookups) + (U16().encode(|t.address|) + t.address)
  }

  lemma AddressReadsBack(address: Bytes, tail: Bytes)
    requires |address| <= U16_MAX
    ensures var text := U16().encode(|address|) + address;
            DecodeSized(U16(), U16_MAX, _ => true, text + tail) == Some((address, |text|))
  {
    IntegerCodecsAreCanonical();
    Powers();
    SizedIsCanonical(U16(), U16_MAX, _ => true);
    assert DecodesBack(Sized(U16(), U16_MAX, _ => true), address, tail);
  }

  lemma FixedReadsBack(texts: Texts, t: Ticket, tail: Bytes)
    requires Encodable(texts, t)
    ensures DecodeFixed(texts, EncodeFixed(texts, t) + tail) ==
            if LookupsInBounds(texts, t.lookups) then Some((t.lookups, t.address, |EncodeFixed(texts, t)|)) else None
  {
    hide DecodeLookups, EncodeLookups, LookupsInBounds, Printed, DecodeSized;
    var lookups, address := EncodeLookups(texts, t.lookups), U16().encode(|t.address|) + t.address;
    Places(t.secret, t.kind, lookups, address, tail);
    LookupsReadBack(texts, t.lookups, address + tail);
    AddressReadsBack(t.address, tail);
  }

  /** Every ticket encoding writes survives it exactly when decoding takes its
      lookups back and the tail drops nothing of it; with lookups past the
      bounds nobody can decode it at all. */
  lemma TicketRoundTripsIff(texts: Texts, t: Ticket)
    requires Encodable(texts, t)
    ensures DecodePayload(texts, EncodePayload(texts, t)) == Some(t) <==>
            LookupsInBounds(texts, t.lookups) && Expressible(t)
    ensures !LookupsInBounds(texts, t.lookups) ==> DecodePayload(texts, EncodePayload(texts, t)) == None
  {
    hide DecodeFixed, EncodeTail, DecodeTail, LookupsInBounds, Printed, EncodeLookups;
    var tail := EncodeTail(t.flags, t.mesh, t.author);
    FixedReadsBack(texts, t, tail);
    TailReadsBack(t.flags, t.mesh, t.author);
    Places(t.secret, t.kind, EncodeLookups(texts, t.lookups), U16().encode(|t.address|) + t.address, tail);
  }

  /** **The second flag keeps the author**, and nothing else does: a ticket read
      back has the author it was written with when that bit is set, and none
      when it is clear, whatever the other bits say. */
  lemma SecondFlagKeepsTheAuthor(texts: Texts, t: Ticket)
    requires InBounds(texts, t)
    ensures DecodePayload(texts, EncodePayload(texts, t)) ==
            Some(t.(author := if t.flags / 2 % 2 == 1 then t.author else None,
                    mesh := if t.flags == 0 || t.mesh == Some([]) then None else t.mesh))
  {
    hide DecodeFixed, EncodeTail, DecodeTail, LookupsInBounds, Printed, EncodeLookups;
    var tail := EncodeTail(t.flags, t.mesh, t.author);
    FixedReadsBack(texts, t, tail);
    TailReadsBack(t.flags, t.mesh, t.author);
    Places(t.secret, t.kind, EncodeLookups(texts, t.lookups), U16().encode(|t.address|) + t.address, tail);
  }

  /** Whatever URLs and addresses look like, a ticket with seventeen relays is
      written, and refused. */
  lemma SeventeenRungs(texts: Texts, url: Bytes, address: Bytes) returns (t: Ticket)
    requires Printed(texts, url) && |url| <= MAX_RELAY_URL_BYTES
    requires |address| <= U16_MAX && texts.address(address) == Some(address)
    ensures t.address == address && t.lookups.relay == Custom(seq(17, _ => url))
    ensures Encodable(texts, t) && Expressible(t)
    ensures DecodePayload(texts, EncodePayload(texts, t)) == None
  {
    hide DecodePayload, EncodePayload, Printed;
    var ladder := seq(17, _ => url);
    t := Ticket(address, seq(SECRET_LEN, _ => 0), Lookups(false, false, Custom(ladder)), 0, 0, None, None);
    TicketRoundTripsIff(texts, t);
  }

  // --------------------------------------------------- forward compatibility

  /** A tail nothing appended can change: an explicit zero flags byte, or a
      declared mesh id and, on a signed ticket, an author. */
  predicate Complete(tail: Bytes) {
    tail != []
    && (tail[0] == 0
        || (|tail| >= 3 && (Signed(tail[0]) ==> |tail| >= 3 + MeshLen(tail[1..]) + AUTHOR_LEN)))
  }

  lemma CompleteTailIsFinal(b: Bytes, more: Bytes)
    requires Complete(b) && DecodeTail(b).Some?
    ensures DecodeTail(b + more) == DecodeTail(b)
  {
    hide Utf8, FromLittleEndian;
    var body := b[1..];
    if b[0] != 0 {
      var n := MeshLen(body);
      assert (b + more)[1..] == body + more;
      assert (body + more)[..2] == body[..2];
      if n > 0 {
        assert (body + more)[2..2 + n] == body[2..2 + n];
      }
      if Signed(b[0]) {
        assert (body + more)[2 + n..2 + n + AUTHOR_LEN] == body[2 + n..2 + n + AUTHOR_LEN];
      }
    }
  }

  lemma OpenTailCanChange(b: Bytes) returns (more: Bytes)
    requires !Complete(b) && DecodeTail(b).Some?
    ensures DecodeTail(b + more) != DecodeTail(b)
  {
    hide Utf8;
    if b == [] {
      more := [1];
      assert ([] + more)[1..] == [];
    } else if |b| < 3 {
      more := [255, 255];
      var body := (b + more)[1..];
      assert body[1] == 255;
      assert FromLittleEndian(body[..2]) >= 0xFF00 by {
        assert body[..2][1..] == [255] && [255][1..] == [];
        assert FromLittleEndian([255]) == 255;
      }
    } else {
      more := seq(AUTHOR_LEN, _ => 0);
      assert (b + more)[1..] == b[1..] + more;
      assert (b[1..] + more)[..2] == b[1..][..2];
    }
  }

  lemma AddressIsSteady(b: Bytes, more: Bytes)
    requires DecodeSized(U16(), U16_MAX, _ => true, b).Some?
    ensures DecodeSized(U16(), U16_MAX, _ => true, b + more) == DecodeSized(U16(), U16_MAX, _ => true, b)
  {
    hide FromLittleEndian;
    var n := FromLittleEndian(b[..2]);
    assert (b + more)[..2] == b[..2];
    assert (b + more)[2..2 + n] == b[2..2 + n];
  }

  lemma HeadOfLookupsIsSteady(texts: Texts, b: Bytes, more: Bytes)
    requires HeadOfLookups(texts, b).Some?
    ensures HeadOfLookups(texts, b + more) == HeadOfLookups(texts, b)
  {
    hide DecodeLookups;
    var n := HeadOfLookups(texts, b).value.1;
    LookupsAreSelfDelimiting(texts, b, b[n..] + more);
    assert b + more == b[..n] + (b[n..] + more);
  }

  lemma Suffixes(p: Bytes, more: Bytes, at: nat, n: nat)
    requires at + n <= |p|
    ensures (p + more)[at..] == p[at..] + more
    ensures (p + more)[at + n..] == p[at + n..] + more
  {
  }

  lemma FixedIsSteady(texts: Texts, p: Bytes, more: Bytes)
    requires DecodeFixed(texts, p).Some?
    ensures DecodeFixed(texts, p + more) == DecodeFixed(texts, p)
  {
    hide DecodeLookups, DecodeSized, HeadOfLookups;
    var at := SECRET_LEN + 1;
    var n := HeadOfLookups(texts, p[at..]).value.1;
    Suffixes(p, more, at, n);
    HeadOfLookupsIsSteady(texts, p[at..], more);
    AddressIsSteady(p[at + n..], more);
  }

  /** The bytes of an accepted ticket after its address. */
  function TailOf(texts: Texts, p: Bytes): Bytes
    requires DecodeFixed(texts, p).Some?
  {
    p[DecodeFixed(texts, p).value.2..]
  }

  lemma TailDecides(texts: Texts, p: Bytes, more: Bytes)
    requires DecodePayload(texts, p).Some?
    ensures DecodePayload(texts, p + more) == DecodePayload(texts, p) <==>
            DecodeTail(TailOf(texts, p) + more) == DecodeTail(TailOf(texts, p))
  {
    hide DecodeFixed, DecodeTail;
    FixedIsSteady(texts, p, more);
    var at := DecodeFixed(texts, p).value.2;
    assert (p + more)[at..] == p[at..] + more;
    assert (p + more)[..SECRET_LEN] == p[..SECRET_LEN];
  }

  /** Appended bytes never change what a ticket decodes to exactly when its
      tail is complete. */
  lemma AppendingIsInvisibleIff(texts: Texts, p: Bytes)
    requires DecodePayload(texts, p).Some?
    ensures (forall more :: DecodePayload(texts, p + more) == DecodePayload(texts, p)) <==>
            Complete(TailOf(texts, p))
  {
    hide DecodeFixed, DecodeTail, Complete;
    var tail := TailOf(texts, p);
    assert DecodeTail(tail).Some?;
    if Complete(tail) {
      forall more ensures DecodePayload(texts, p + more) == DecodePayload(texts, p) {
        TailDecides(texts, p, more);
        CompleteTailIsFinal(tail, more);
      }
    } else {
      var more := OpenTailCanChange(tail);
      TailDecides(texts, p, more);
      assert DecodePayload(texts, p + more) != DecodePayload(texts, p);
    }
  }

  /** Which tickets the encoder leaves complete; a plain one becomes complete
      with an explicit zero flags byte. */
  lemma EncodedTailIsComplete(texts: Texts, t: Ticket)
    requires InBounds(texts, t) && Expressible(t)
    ensures var p := EncodePayload(texts, t);
            && DecodePayload(texts, p) == Some(t)
            && (Complete(TailOf(texts, p)) <==> t.flags != 0 && (Signed(t.flags) ==> t.author.Some?))
    ensures t.flags == 0 ==>
              var q := EncodePayload(texts, t) + [0];
              DecodePayload(texts, q) == Some(t) && Complete(TailOf(texts, q))
  {
    hide DecodeFixed, EncodeLookups, AllValid;
    var tail := EncodeTail(t.flags, t.mesh, t.author);
    TicketRoundTripsIff(texts, t);
    FixedReadsBack(texts, t, tail);
    assert TailOf(texts, EncodePayload(texts, t)) == tail;
    if t.flags == 0 {
      FixedReadsBack(texts, t, [0]);
      assert EncodePayload(texts, t) + [0] == EncodeFixed(texts, t) + [0];
      assert TailOf(texts, EncodeFixed(texts, t) + [0]) == [0];
      TailDecides(texts, EncodePayload(texts, t), [0]);
    } else {
      MeshLenOf(t);
    }
  }

  lemma MeshLenOf(t: Ticket)
    requires t.mesh.Some? ==> |t.mesh.value| <= U16_MAX
    ensures t.flags != 0 ==>
              var id := if t.mesh.Some? then t.mesh.value else [];
              var tail := EncodeTail(t.flags, t.mesh, t.author);
              MeshLen(tail[1..]) == |id|
              && |tail| == 3 + |id| + (if t.author.Some? then |t.author.value| else 0)
  {
    hide LittleEndian, FromLittleEndian, MeshLen, EncodeTail, U16;
    var id := if t.mesh.Some? then t.mesh.value else [];
    var key := if t.author.Some? then t.author.value else [];
    TailIs(t.flags, t.mesh, t.author);
    U16Width(|id|);
    if t.flags != 0 {
      var body := U16().encode(|id|) + id + key;
      assert ([t.flags] + body)[1..] == body;
      MeshLenReads(id, key);
    }
  }

  lemma MeshLenReads(id: Bytes, key: Bytes)
    requires |id| <= U16_MAX
    ensures MeshLen(U16().encode(|id|) + id + key) == |id|
  {
    hide LittleEndian, FromLittleEndian;
    Powers();
    IntegerRoundTrip(2, |id|);
    Pieces(U16().encode(|id|), id, key);
  }

  // ----------------------------------------------------------------- methods

  function From(bytes: Bytes, pos: nat): Bytes { if pos <= |bytes| then bytes[pos..] else [] }

  method EncodeInto(texts: Texts, l: Lookups, buffer: Bytes) returns (out: Bytes)
    requires Fits(l.relay)
    ensures out == buffer + EncodeLookups(texts, l)
  {
    hide EncodeAll, Rung;
    var flags := 0;
    if l.mdns {
      flags := flags + 1;
    }
    if l.dht {
      flags := flags + 2;
    }
    match l.relay {
      case Disabled =>
      case Pinned => flags := flags + 4;
      case Custom(_) => flags := flags + 12;
    }
    out := buffer + [flags];
    if l.relay.Custom? {
      out := out + [|l.relay.ladder|];
      out := AppendRungs(texts, l.relay.ladder, out);
    }
  }

  lemma RungsStep(texts: Texts, ladder: seq<Bytes>, i: nat)
    requires i <= |ladder|
    ensures EncodeAll(Rung(texts), ladder[i..]) ==
            if i == |ladder| then []
            else U16().encode(|ladder[i]|) + ladder[i] + EncodeAll(Rung(texts), ladder[i + 1..])
  {
    hide U16;
    if i < |ladder| {
      assert ladder[i..][0] == ladder[i] && ladder[i..][1..] == ladder[i + 1..];
    }
  }

  method AppendRungs(texts: Texts, ladder: seq<Bytes>, buffer: Bytes) returns (out: Bytes)
    ensures out == buffer + EncodeAll(Rung(texts), ladder)
  {
    hide U16, EncodeAll;
    out := buffer;
    RungsStep(texts, ladder, |ladder|);
    var i := 0;
    assert ladder[0..] == ladder;
    while i < |ladder|
      invariant 0 <= i <= |ladder|
      invariant buffer + EncodeAll(Rung(texts), ladder) == out + EncodeAll(Rung(texts), ladder[i..])
    {
      RungsStep(texts, ladder, i);
      out := out + U16().encode(|ladder[i]|);
      out := out + ladder[i];
      i := i + 1;
    }
  }

  method ReadU16(bytes: Bytes, pos: nat) returns (value: Option<nat>, next: nat)
    ensures value.None? ==> From(bytes, pos) == [] || |bytes| < pos + 2
    ensures value.Some? ==> pos + 2 <= |bytes| && next == pos + 2
    ensures HeadOf(U16(), From(bytes, pos)) == if value.Some? then Some((value.value, 2)) else None
  {
    if |bytes| < pos + 2 {
      return None, pos;
    }
    assert bytes[pos..][..2] == bytes[pos..pos + 2];
    return Some(FromLittleEndian(bytes[pos..pos + 2])), pos + 2;
  }

  method ReadRung(texts: Texts, bytes: Bytes, pos: nat) returns (url: Option<Bytes>, next: nat)
    ensures HeadOf(Rung(texts), From(bytes, pos)) == if url.Some? then Some((url.value, next - pos)) else None
    ensures url.Some? ==> pos <= next <= |bytes|
  {
    hide Utf8, FromLittleEndian;
    var len, at := ReadU16(bytes, pos);
    if len.None? || len.value > MAX_RELAY_URL_BYTES {
      return None, pos;
    }
    var end := at + len.value;
    if |bytes| < end {
      return None, pos;
    }
    var raw := bytes[at..end];
    assert From(bytes, pos)[2..2 + len.value] == raw;
    if !Utf8(raw) {
      return None, pos;
    }
    return texts.url(raw), end;
  }

  /** Reads the lookups at `pos` and moves past them. */
  method DecodeFrom(texts: Texts, bytes: Bytes, pos: nat) returns (lookups: Option<Lookups>, next: nat)
    ensures DecodeLookups(texts, From(bytes, pos)) ==
            if lookups.Some? then Some((lookups.value, next - pos)) else None
    ensures lookups.Some? ==> pos < next <= |bytes|
  {
    hide Flag, DecodeRelay;
    if |bytes| <= pos {
      return None, pos;
    }
    var flags := bytes[pos];
    assert From(bytes, pos)[1..] == From(bytes, pos + 1);
    var relay, end := ReadRelay(texts, flags, bytes, pos + 1);
    next := end;
    lookups := if relay.None? then None else Some(Lookups(Flag(flags, 1), Flag(flags, 2), relay.value));
  }

  method ReadRelay(texts: Texts, flags: byte, bytes: Bytes, pos: nat) returns (relay: Option<Relay>, next: nat)
    requires pos <= |bytes|
    ensures DecodeRelay(texts, flags, From(bytes, pos)) == if relay.Some? then Some((relay.value, next - pos)) else None
    ensures relay.Some? ==> pos <= next <= |bytes|
  {
    hide Rung, Flag, DecodeN;
    next := pos;
    if Flag(flags, 8) && !Flag(flags, 4) {
      return None, next;
    }
    if !Flag(flags, 4) {
      return Some(Disabled), next;
    }
    if !Flag(flags, 8) {
      return Some(Pinned), next;
    }
    if |bytes| <= pos || bytes[pos] == 0 || bytes[pos] > MAX_RELAY_LADDER {
      return None, next;
    }
    assert From(bytes, pos)[1..] == From(bytes, pos + 1);
    var ladder, end := ReadLadder(texts, bytes, pos + 1, bytes[pos]);
    next := end;
    relay := if ladder.None? then None else Some(Custom(ladder.value));
  }

  method ReadLadder(texts: Texts, bytes: Bytes, pos: nat, count: nat) returns (ladder: Option<seq<Bytes>>, next: nat)
    requires pos <= |bytes|
    ensures DecodeN(Rung(texts), count, From(bytes, pos)) ==
            if ladder.Some? then Some((ladder.value, next - pos)) else None
    ensures ladder.Some? ==> pos <= next <= |bytes|
  {
    hide Rung, DecodeN, HeadOf;
    var urls: seq<Bytes> := [];
    next := pos;
    AfterNone(DecodeN(Rung(texts), count, From(bytes, pos)));
    for i := 0 to count
      invariant pos <= next <= |bytes| && |urls| == i
      invariant DecodeN(Rung(texts), count, From(bytes, pos)) ==
                After(urls, next - pos, DecodeN(Rung(texts), count - i, From(bytes, next)))
    {
      Step(Rung(texts), count - i, From(bytes, next));
      var url, end := ReadRung(texts, bytes, next);
      if url.None? {
        return None, next;
      }
      assert From(bytes, next)[end - next..] == From(bytes, end);
      AfterOne(urls, next - pos, url.value, end - next, DecodeN(Rung(texts), count - i - 1, From(bytes, end)));
      urls, next := urls + [url.value], end;
    }
    Step(Rung(texts), 0, From(bytes, next));
    assert urls + [] == urls;
    ladder := Some(urls);
  }

  method AppendTail(t: Ticket, buffer: Bytes) returns (out: Bytes)
    requires t.flags != 0
    ensures out == buffer + EncodeTail(t.flags, t.mesh, t.author)
  {
    hide U16;
    out := buffer + [t.flags];
    var id := if t.mesh.Some? then t.mesh.value else [];
    out := out + U16().encode(|id|);
    out := out + id;
    if t.author.Some? {
      out := out + t.author.value;
    }
    assert out == buffer + EncodeTail(t.flags, t.mesh, t.author);
  }

  method Encode(texts: Texts, t: Ticket) returns (payload: Bytes)
    requires Fits(t.lookups.relay) && |t.address| <= U16_MAX && (t.mesh.Some? ==> |t.mesh.value| <= U16_MAX)
    ensures payload == EncodePayload(texts, t)
  {
    hide EncodeLookups, U16;
    payload := t.secret;
    payload := payload + [t.kind];
    payload := EncodeInto(texts, t.lookups, payload);
    payload := payload + U16().encode(|t.address|);
    payload := payload + t.address;
    assert payload == EncodeFixed(texts, t);
    if t.flags != 0 {
      payload := AppendTail(t, payload);
    }
  }

  /** The fields every ticket has, and where they end. */
  method ReadFixed(texts: Texts, payload: Bytes) returns (fixed: Option<(Lookups, Bytes, nat)>)
    ensures fixed == DecodeFixed(texts, payload)
  {
    hide DecodeLookups, FromLittleEndian;
    if |payload| <= SECRET_LEN {
      return None;
    }
    var pos := SECRET_LEN + 1;
    assert From(payload, pos) == payload[SECRET_LEN + 1..];
    var lookups, after := DecodeFrom(texts, payload, pos);
    if lookups.None? {
      return None;
    }
    pos := after;
    var len, at := ReadU16(payload, pos);
    if len.None? {
      return None;
    }
    pos := at;
    if |payload| < pos + len.value {
      return None;
    }
    var address := payload[pos..pos + len.value];
    assert address == From(payload, after)[2..2 + len.value];
    return Some((lookups.value, address, pos + len.value));
  }

  method Decode(texts: Texts, payload: Bytes) returns (t: Option<Ticket>)
    ensures t == DecodePayload(texts, payload)
  {
    hide DecodeFixed, ReadMesh, ReadAuthor, Signed;
    var fixed := ReadFixed(texts, payload);
    if fixed.None? {
      return None;
    }
    var (lookups, raw, pos) := fixed.value;
    var secret, kind := payload[..SECRET_LEN], payload[SECRET_LEN];
    ghost var tail := payload[pos..];
    NoFlagsNoTail();
    var flags: byte := if pos < |payload| then payload[pos] else 0;
    pos := pos + if flags != 0 then 1 else 0;
    var mesh, author := None, None;
    if flags != 0 {
      assert tail[1..] == payload[pos..];
      var read := ReadMesh(payload[pos..]);
      if read.None? {
        return None;
      }
      mesh := read.value;
    }
    if Signed(flags) {
      author := ReadAuthor(payload[pos..]);
    }
    match texts.address(raw) {
      case None => t := None;
      case Some(address) => t := Some(Ticket(address, secret, lookups, kind, flags, mesh, author));
    }
  }
}
