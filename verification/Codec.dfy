/**
 Self-delimiting byte codecs.

 Every wire structure of the mount protocol is a concatenation of fixed-width
 little-endian integers, length-prefixed strings and counted lists. A `Codec`
 pairs the writer with the reader; `Canonical` is the law the protocol rests on,
 and each combinator here is shown to keep it, so that a structure assembled
 from them is canonical by construction.
 */
module Codec {
  import opened Wrappers

  type byte = x: int | 0 <= x < 256
  type Bytes = seq<byte>

  const U16_MAX := 0xFFFF
  const U32_MAX := 0xFFFF_FFFF
  const U64_MAX := 0xFFFF_FFFF_FFFF_FFFF
  const I64_MIN := -0x8000_0000_0000_0000
  const I64_MAX := 0x7FFF_FFFF_FFFF_FFFF

  // ---------------------------------------------------------------- integers

  function Pow256(width: nat): (p: nat)
    ensures p > 0
  {
    if width == 0 then 1 else 256 * Pow256(width - 1)
  }

  /** The low `width` bytes of `v`, least significant first. */
  function LittleEndian(width: nat, v: nat): (b: Bytes)
    ensures |b| == width
  {
    if width == 0 then [] else [v % 256] + LittleEndian(width - 1, v / 256)
  }

  function FromLittleEndian(b: Bytes): (v: nat)
    ensures v < Pow256(|b|)
  {
    if b == [] then 0 else b[0] + 256 * FromLittleEndian(b[1..])
  }

  lemma {:induction false} IntegerRoundTrip(width: nat, v: nat)
    requires v < Pow256(width)
    ensures FromLittleEndian(LittleEndian(width, v)) == v
  {
    if width > 0 {
      IntegerRoundTrip(width - 1, v / 256);
      assert LittleEndian(width, v)[1..] == LittleEndian(width - 1, v / 256);
    }
  }

  lemma {:induction false} IntegerReencodes(b: Bytes)
    ensures LittleEndian(|b|, FromLittleEndian(b)) == b
  {
    if b != [] {
      var v := FromLittleEndian(b[1..]);
      IntegerReencodes(b[1..]);
      assert (b[0] + 256 * v) % 256 == b[0] && (b[0] + 256 * v) / 256 == v;
      assert [b[0]] + b[1..] == b;
    }
  }

  lemma Powers()
    ensures Pow256(2) == U16_MAX + 1
    ensures Pow256(4) == U32_MAX + 1
    ensures Pow256(8) == U64_MAX + 1
  {
    assert Pow256(1) == 256;
    assert Pow256(3) == 256 * Pow256(2);
    assert Pow256(5) == 256 * Pow256(4);
    assert Pow256(6) == 256 * Pow256(5);
    assert Pow256(7) == 256 * Pow256(6);
  }

  // ------------------------------------------------------------------- UTF-8

  predicate Continuation(b: byte) { 0x80 <= b <= 0xBF }

  /** Bytes taken by the well-formed UTF-8 sequence `b` starts with, 0 if there
      is none (table 3-7 of the Unicode standard). */
  function Utf8Head(b: Bytes): (n: nat)
    ensures n <= |b|
  {
    if |b| >= 1 && b[0] <= 0x7F then 1
    else if |b| >= 2 && 0xC2 <= b[0] <= 0xDF && Continuation(b[1]) then 2
    else if |b| >= 3 && 0xE0 <= b[0] <= 0xEF && Continuation(b[1]) && Continuation(b[2])
         && (b[0] == 0xE0 ==> b[1] >= 0xA0) && (b[0] == 0xED ==> b[1] <= 0x9F) then 3
    else if |b| >= 4 && 0xF0 <= b[0] <= 0xF4 && Continuation(b[1]) && Continuation(b[2])
         && Continuation(b[3])
         && (b[0] == 0xF0 ==> b[1] >= 0x90) && (b[0] == 0xF4 ==> b[1] <= 0x8F) then 4
    else 0
  }

  /** Whether a byte string is what `String::from_utf8` accepts. */
  predicate Utf8(b: Bytes)
    decreases |b|
  {
    b == [] || (Utf8Head(b) > 0 && Utf8(b[Utf8Head(b)..]))
  }

  // ------------------------------------------------------------------ codecs

  /** `decode` reads one value from the front and says how many bytes it took. */
  datatype Codec<!T> = Codec(
    valid: T -> bool,
    encode: T -> Bytes,
    decode: Bytes -> Option<(T, nat)>)

  ghost predicate DecodesBack<T>(c: Codec<T>, t: T, rest: Bytes) {
    c.valid(t) ==> c.decode(c.encode(t) + rest) == Some((t, |c.encode(t)|))
  }

  ghost predicate Reencodes<T>(c: Codec<T>, b: Bytes) {
    c.decode(b).Some? ==>
      var (t, used) := c.decode(b).value;
      used <= |b| && c.valid(t) && c.encode(t) == b[..used]
  }

  /** Every valid value decodes from its encoding, whatever follows. */
  ghost predicate ReadsBack<T(!new)>(c: Codec<T>) {
    forall t, rest :: DecodesBack(c, t, rest)
  }

  /** A value decodes from its encoding whatever follows, and whatever decodes
      re-encodes to the bytes it was read from. */
  ghost predicate Canonical<T(!new)>(c: Codec<T>) {
    && ReadsBack(c)
    && (forall b :: Reencodes(c, b))
  }

  /** Decode a byte string that must hold one value and nothing else. */
  function Whole<T>(c: Codec<T>, b: Bytes): Option<T> {
    match c.decode(b)
    case Some((t, used)) => if used == |b| then Some(t) else None
    case None => None
  }

  /** The three faces of canonicity on whole messages. */
  lemma WholeIsCanonical<T(!new)>(c: Codec<T>, t: T, b: Bytes, more: Bytes)
    requires Canonical(c)
    ensures c.valid(t) ==> Whole(c, c.encode(t)) == Some(t)
    ensures Whole(c, b) == Some(t) ==> c.valid(t) && c.encode(t) == b
    ensures Whole(c, b).Some? && more != [] ==> Whole(c, b + more).None?
  {
    assert DecodesBack(c, t, []);
    assert c.encode(t) + [] == c.encode(t);
    assert Reencodes(c, b);
    if Whole(c, b).Some? {
      var v := Whole(c, b).value;
      assert b[..|b|] == b;
      assert DecodesBack(c, v, more);
    }
  }

  // ------------------------------------------------------------- combinators

  lemma Pieces(a: Bytes, b: Bytes, c: Bytes)
    ensures a + b + c == a + (b + c)
    ensures (a + b + c)[..|a|] == a
    ensures (a + b + c)[|a|..] == b + c
    ensures (a + b + c)[|a|..|a| + |b|] == b
  {
  }

  function Unsigned(width: nat): Codec<nat> {
    Codec(
      (v: nat) => v < Pow256(width),
      (v: nat) => LittleEndian(width, v),
      (b: Bytes) => if |b| < width then None else Some((FromLittleEndian(b[..width]), width)))
  }

  lemma UnsignedIsCanonical(width: nat)
    ensures Canonical(Unsigned(width))
  {
    var c := Unsigned(width);
    forall t: nat, rest ensures DecodesBack(c, t, rest) {
      if t < Pow256(width) {
        IntegerRoundTrip(width, t);
        assert (LittleEndian(width, t) + rest)[..width] == LittleEndian(width, t);
      }
    }
    forall b ensures Reencodes(c, b) {
      if |b| >= width {
        IntegerReencodes(b[..width]);
      }
    }
  }

  function U16(): Codec<nat> { Unsigned(2) }

  function U32(): Codec<nat> { Unsigned(4) }

  function U64(): Codec<nat> { Unsigned(8) }

  lemma IntegerCodecsAreCanonical()
    ensures Canonical(U16()) && Canonical(U32()) && Canonical(U64())
  {
    UnsignedIsCanonical(2);
    UnsignedIsCanonical(4);
    UnsignedIsCanonical(8);
  }

  /** Exactly `width` uninterpreted bytes. */
  function Raw(width: nat): Codec<Bytes> {
    Codec(
      (v: Bytes) => |v| == width,
      (v: Bytes) => v,
      (b: Bytes) => if |b| < width then None else Some((b[..width], width)))
  }

  lemma RawIsCanonical(width: nat)
    ensures Canonical(Raw(width))
  {
    var c := Raw(width);
    forall t, rest ensures DecodesBack(c, t, rest) {
      if |t| == width {
        assert (t + rest)[..width] == t;
      }
    }
    forall b ensures Reencodes(c, b) {}
  }

  /** One value off the front, or nothing if it is not all there. */
  function HeadOf<T>(item: Codec<T>, b: Bytes): (r: Option<(T, nat)>)
    ensures r.Some? ==> r.value.1 <= |b|
  {
    match item.decode(b)
    case None => None
    case Some((t, used)) => if used > |b| then None else Some((t, used))
  }

  function DecodeSized(length: Codec<nat>, cap: nat, ok: Bytes -> bool, b: Bytes): Option<(Bytes, nat)> {
    match HeadOf(length, b)
    case None => None
    case Some((n, k)) =>
      if n > cap || |b| < k + n || !ok(b[k..k + n]) then None else Some((b[k..k + n], k + n))
  }

  /** A byte string behind its length, refused past `cap` or when `ok` rejects
      its contents. */
  function Sized(length: Codec<nat>, cap: nat, ok: Bytes -> bool): Codec<Bytes> {
    Codec(
      (v: Bytes) => length.valid(|v|) && |v| <= cap && ok(v),
      (v: Bytes) => length.encode(|v|) + v,
      (b: Bytes) => DecodeSized(length, cap, ok, b))
  }

  lemma SizedIsCanonical(length: Codec<nat>, cap: nat, ok: Bytes -> bool)
    requires Canonical(length)
    ensures Canonical(Sized(length, cap, ok))
  {
    var c := Sized(length, cap, ok);
    forall t, rest ensures DecodesBack(c, t, rest) {
      if c.valid(t) {
        assert DecodesBack(length, |t|, t + rest);
        Pieces(length.encode(|t|), t, rest);
      }
    }
    forall b ensures Reencodes(c, b) {
      assert Reencodes(length, b);
      if c.decode(b).Some? {
        var (n, k) := length.decode(b).value;
        assert b[..k + n] == b[..k] + b[k..k + n];
      }
    }
  }

  function DecodeBoth<A, B>(first: Codec<A>, second: Codec<B>, b: Bytes): Option<((A, B), nat)> {
    match first.decode(b)
    case None => None
    case Some((x, m)) =>
      if m > |b| then None else
      match second.decode(b[m..])
      case None => None
      case Some((y, n)) => Some(((x, y), m + n))
  }

  /** One value after another. */
  function Both<A, B>(first: Codec<A>, second: Codec<B>): Codec<(A, B)> {
    Codec(
      (v: (A, B)) => first.valid(v.0) && second.valid(v.1),
      (v: (A, B)) => first.encode(v.0) + second.encode(v.1),
      (b: Bytes) => DecodeBoth(first, second, b))
  }

  lemma BothIsCanonical<A(!new), B(!new)>(first: Codec<A>, second: Codec<B>)
    requires Canonical(first) && Canonical(second)
    ensures Canonical(Both(first, second))
  {
    var c := Both(first, second);
    forall t: (A, B), rest ensures DecodesBack(c, t, rest) {
      if c.valid(t) {
        var x, y := first.encode(t.0), second.encode(t.1);
        assert DecodesBack(first, t.0, y + rest) && DecodesBack(second, t.1, rest);
        Pieces(x, y, rest);
      }
    }
    forall b ensures Reencodes(c, b) {
      assert Reencodes(first, b);
      if c.decode(b).Some? {
        var m := first.decode(b).value.1;
        assert Reencodes(second, b[m..]);
        var n := second.decode(b[m..]).value.1;
        assert b[..m + n] == b[..m] + b[m..][..n];
      }
    }
  }

  /** The same bytes read as another type. */
  function Viewed<A, B>(c: Codec<A>, into: A -> B, from: B -> A, ok: B -> bool): Codec<B> {
    Codec(
      (v: B) => ok(v) && c.valid(from(v)),
      (v: B) => c.encode(from(v)),
      (b: Bytes) =>
        match c.decode(b)
        case None => None
        case Some((x, n)) => Some((into(x), n)))
  }

  ghost predicate Bijective<A(!new), B(!new)>(c: Codec<A>, into: A -> B, from: B -> A, ok: B -> bool) {
    && (forall v :: ok(v) && c.valid(from(v)) ==> into(from(v)) == v)
    && (forall x :: c.valid(x) ==> ok(into(x)) && from(into(x)) == x)
  }

  lemma ViewedIsCanonical<A(!new), B(!new)>(c: Codec<A>, into: A -> B, from: B -> A, ok: B -> bool)
    requires Canonical(c) && Bijective(c, into, from, ok)
    ensures Canonical(Viewed(c, into, from, ok))
  {
    var d := Viewed(c, into, from, ok);
    forall v: B, rest ensures DecodesBack(d, v, rest) {
      assert DecodesBack(c, from(v), rest);
    }
    forall b ensures Reencodes(d, b) {
      assert Reencodes(c, b);
    }
  }

  /** Splitting one message into consecutive reads. */
  lemma WholeOfBoth<A, B, C>(first: Codec<A>, second: Codec<B>, into: ((A, B)) -> C,
                             from: C -> (A, B), ok: C -> bool, b: Bytes)
    ensures var whole := Whole(Viewed(Both(first, second), into, from, ok), b);
            match first.decode(b)
            case None => whole.None?
            case Some((x, m)) =>
              m <= |b| ==>
              match second.decode(b[m..])
              case None => whole.None?
              case Some((y, n)) => whole == if m + n == |b| then Some(into((x, y))) else None
  {
  }

  // ------------------------------------------------------------------- lists

  function EncodeAll<T>(item: Codec<T>, ts: seq<T>): Bytes {
    if ts == [] then [] else item.encode(ts[0]) + EncodeAll(item, ts[1..])
  }

  function DecodeN<T>(item: Codec<T>, n: nat, b: Bytes): (r: Option<(seq<T>, nat)>)
    ensures r.Some? ==> |r.value.0| == n && r.value.1 <= |b|
  {
    if n == 0 then Some(([], 0)) else
    match HeadOf(item, b)
    case None => None
    case Some((t, used)) =>
      match DecodeN(item, n - 1, b[used..])
      case None => None
      case Some((ts, more)) => Some(([t] + ts, used + more))
  }

  predicate AllValid<T>(item: Codec<T>, ts: seq<T>) {
    forall i :: 0 <= i < |ts| ==> item.valid(ts[i])
  }

  lemma {:induction false} ItemsDecodeBack<T(!new)>(item: Codec<T>, ts: seq<T>, rest: Bytes)
    requires ReadsBack(item) && AllValid(item, ts)
    ensures DecodeN(item, |ts|, EncodeAll(item, ts) + rest) == Some((ts, |EncodeAll(item, ts)|))
  {
    if ts == [] {
    } else {
      var tail := ts[1..];
      var x, y := item.encode(ts[0]), EncodeAll(item, tail);
      assert AllValid(item, tail);
      ItemsDecodeBack(item, tail, rest);
      assert DecodesBack(item, ts[0], y + rest);
      Pieces(x, y, rest);
      assert HeadOf(item, EncodeAll(item, ts) + rest) == Some((ts[0], |x|));
      assert [ts[0]] + tail == ts;
    }
  }

  lemma {:induction false} ItemsReencode<T(!new)>(item: Codec<T>, n: nat, b: Bytes)
    requires Canonical(item) && DecodeN(item, n, b).Some?
    ensures var (ts, used) := DecodeN(item, n, b).value;
            used <= |b| && AllValid(item, ts) && EncodeAll(item, ts) == b[..used]
  {
    if n > 0 {
      assert Reencodes(item, b);
      var used := item.decode(b).value.1;
      ItemsReencode(item, n - 1, b[used..]);
      var more := DecodeN(item, n - 1, b[used..]).value.1;
      assert b[..used + more] == b[..used] + b[used..][..more];
    }
  }

  function DecodeCounted<T>(length: Codec<nat>, item: Codec<T>, b: Bytes): (r: Option<(seq<T>, nat)>)
    ensures r.Some? ==> r.value.1 <= |b|
  {
    match HeadOf(length, b)
    case None => None
    case Some((n, k)) =>
      match DecodeN(item, n, b[k..])
      case None => None
      case Some((ts, used)) => Some((ts, k + used))
  }

  /** A count followed by that many items. */
  function Counted<T>(length: Codec<nat>, item: Codec<T>): Codec<seq<T>> {
    Codec(
      (ts: seq<T>) => length.valid(|ts|) && AllValid(item, ts),
      (ts: seq<T>) => length.encode(|ts|) + EncodeAll(item, ts),
      (b: Bytes) => DecodeCounted(length, item, b))
  }

  lemma CountedDecodesBack<T(!new)>(length: Codec<nat>, item: Codec<T>, ts: seq<T>, rest: Bytes)
    requires Canonical(length) && Canonical(item) && length.valid(|ts|) && AllValid(item, ts)
    ensures var head, body := length.encode(|ts|), EncodeAll(item, ts);
            DecodeCounted(length, item, head + body + rest) == Some((ts, |head + body|))
  {
    hide DecodeN, EncodeAll, AllValid;
    var head, body := length.encode(|ts|), EncodeAll(item, ts);
    assert DecodesBack(length, |ts|, body + rest);
    Pieces(head, body, rest);
    ItemsDecodeBack(item, ts, rest);
  }

  lemma CountedReencodes<T(!new)>(length: Codec<nat>, item: Codec<T>, b: Bytes)
    requires Canonical(length) && Canonical(item) && DecodeCounted(length, item, b).Some?
    ensures var (ts, used) := DecodeCounted(length, item, b).value;
            && length.valid(|ts|) && AllValid(item, ts)
            && length.encode(|ts|) + EncodeAll(item, ts) == b[..used]
  {
    hide DecodeN, EncodeAll, AllValid;
    assert Reencodes(length, b);
    var (n, k) := length.decode(b).value;
    ItemsReencode(item, n, b[k..]);
    var used := DecodeN(item, n, b[k..]).value.1;
    assert b[..k + used] == b[..k] + b[k..][..used];
  }

  lemma CountedIsCanonical<T(!new)>(length: Codec<nat>, item: Codec<T>)
    requires Canonical(length) && Canonical(item)
    ensures Canonical(Counted(length, item))
  {
    var c := Counted(length, item);
    forall ts, rest ensures DecodesBack(c, ts, rest) {
      if c.valid(ts) {
        CountedDecodesBack(length, item, ts, rest);
      }
    }
    forall b ensures Reencodes(c, b) {
      if c.decode(b).Some? {
        CountedReencodes(length, item, b);
      }
    }
  }

  function DecodeTwoCounted<A, B>(length: Codec<nat>, first: Codec<A>, second: Codec<B>, b: Bytes):
      (r: Option<((seq<A>, seq<B>), nat)>)
    ensures r.Some? ==> r.value.1 <= |b|
  {
    match DecodeCounted(length, first, b)
    case None => None
    case Some((xs, m)) =>
      match DecodeCounted(length, second, b[m..])
      case None => None
      case Some((ys, n)) => Some(((xs, ys), m + n))
  }

  lemma TwoCounted<A, B>(length: Codec<nat>, first: Codec<A>, second: Codec<B>, b: Bytes)
    ensures Both(Counted(length, first), Counted(length, second)).decode(b) ==
            DecodeTwoCounted(length, first, second, b)
  {
  }

  lemma {:induction false} EncodeAllAppend<T>(item: Codec<T>, ts: seq<T>, t: T)
    ensures EncodeAll(item, ts + [t]) == EncodeAll(item, ts) + item.encode(t)
  {
    if ts == [] {
      assert EncodeAll(item, [t]) == item.encode(t) + [];
    } else {
      assert (ts + [t])[1..] == ts[1..] + [t];
      EncodeAllAppend(item, ts[1..], t);
    }
  }

  // ------------------------------------------------- the imperative readers

  /** A partly read list: `ts` taken from `used` bytes, the rest still ahead. */
  ghost function Resumed<T>(ts: seq<T>, used: nat, ahead: Option<(seq<T>, nat)>): Option<(seq<T>, nat)> {
    match ahead
    case None => None
    case Some((more, n)) => Some((ts + more, used + n))
  }

  lemma ResumedNothing<T>(ahead: Option<(seq<T>, nat)>)
    ensures Resumed([], 0, ahead) == ahead
  {
    if ahead.Some? {
      assert [] + ahead.value.0 == ahead.value.0;
    }
  }

  lemma ResumedAll<T>(item: Codec<T>, b: Bytes, ts: seq<T>, used: nat)
    ensures Resumed(ts, used, DecodeN(item, 0, b)) == Some((ts, used))
  {
    assert ts + [] == ts;
  }

  lemma ResumedStep<T>(item: Codec<T>, n: nat, b: Bytes, ts: seq<T>, used: nat)
    requires n > 0
    ensures match HeadOf(item, b)
            case None => Resumed(ts, used, DecodeN(item, n, b)).None?
            case Some((t, k)) =>
              Resumed(ts, used, DecodeN(item, n, b)) ==
              Resumed(ts + [t], used + k, DecodeN(item, n - 1, b[k..]))
  {
    if HeadOf(item, b).Some? {
      var (t, k) := item.decode(b).value;
      var ahead := DecodeN(item, n - 1, b[k..]);
      if ahead.Some? {
        assert ts + ([t] + ahead.value.0) == ts + [t] + ahead.value.0;
      }
    }
  }

  /** `count` items off the front, growing the answer as it goes: a hostile count
      can cause an error but never an allocation up front. */
  method ReadItems<T>(item: Codec<T>, count: nat, b: Bytes) returns (r: Option<(seq<T>, nat)>)
    ensures r == DecodeN(item, count, b)
  {
    var ts: seq<T>, rest, used: nat := [], b, 0;
    ResumedNothing(DecodeN(item, count, b));
    for i := 0 to count
      invariant DecodeN(item, count, b) == Resumed(ts, used, DecodeN(item, count - i, rest))
    {
      ResumedStep(item, count - i, rest, ts, used);
      var head := HeadOf(item, rest);
      if head.None? {
        return None;
      }
      ts, used, rest := ts + [head.value.0], used + head.value.1, rest[head.value.1..];
    }
    ResumedAll(item, rest, ts, used);
    r := Some((ts, used));
  }

  method ReadCounted<T>(length: Codec<nat>, item: Codec<T>, b: Bytes) returns (r: Option<(seq<T>, nat)>)
    ensures r == DecodeCounted(length, item, b)
  {
    var head := HeadOf(length, b);
    if head.None? {
      return None;
    }
    var items := ReadItems(item, head.value.0, b[head.value.1..]);
    if items.None? {
      return None;
    }
    return Some((items.value.0, head.value.1 + items.value.1));
  }

  method ReadTwoCounted<A, B>(length: Codec<nat>, first: Codec<A>, second: Codec<B>, b: Bytes)
    returns (r: Option<((seq<A>, seq<B>), nat)>)
    ensures r == DecodeTwoCounted(length, first, second, b)
  {
    var xs := ReadCounted(length, first, b);
    if xs.None? {
      return None;
    }
    var ys := ReadCounted(length, second, b[xs.value.1..]);
    if ys.None? {
      return None;
    }
    return Some(((xs.value.0, ys.value.0), xs.value.1 + ys.value.1));
  }

  /** A bounds-checked reader over received bytes. */
  class Cursor {
    const bytes: Bytes
    var pos: nat

    constructor (bytes: Bytes)
      ensures this.bytes == bytes && pos == 0
    {
      this.bytes := bytes;
      pos := 0;
    }

    ghost predicate Valid()
      reads this
    {
      pos <= |bytes|
    }

    /** Two counted lists; the position moves past them when both were there. */
    method TakeTwoCounted<A, B>(length: Codec<nat>, first: Codec<A>, second: Codec<B>)
      returns (r: Option<(seq<A>, seq<B>)>)
      requires Valid()
      modifies this
      ensures Valid() && pos >= old(pos)
      ensures DecodeTwoCounted(length, first, second, bytes[old(pos)..]) ==
              if r.Some? then Some((r.value, pos - old(pos))) else None
    {
      var lists := ReadTwoCounted(length, first, second, bytes[pos..]);
      if lists.None? {
        return None;
      }
      pos := pos + lists.value.1;
      return Some(lists.value.0);
    }
  }

  /** Append a counted list to a growing buffer. */
  method WriteCounted<T>(out: Bytes, length: Codec<nat>, item: Codec<T>, ts: seq<T>) returns (b: Bytes)
    ensures b == out + Counted(length, item).encode(ts)
  {
    var head := out + length.encode(|ts|);
    var body: Bytes := [];
    for i := 0 to |ts|
      invariant body == EncodeAll(item, ts[..i])
    {
      EncodeAllAppend(item, ts[..i], ts[i]);
      assert ts[..i + 1] == ts[..i] + [ts[i]];
      body := body + item.encode(ts[i]);
    }
    assert ts[..|ts|] == ts;
    assert head + body == out + (length.encode(|ts|) + body);
    b := head + body;
  }
}
