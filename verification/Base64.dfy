/** Unpadded base64 as the availability bitmap uses it (sections 3.2 and 4 of
    RFC 4648). */
module Base64 {
  import opened Wrappers
  import opened Codec

  // ---------------------------------------------------------------- alphabet

  type Sextet = v: int | 0 <= v < 64

  function SymbolOf(v: Sextet): char {
    if v < 26 then ('A' as int + v) as char
    else if v < 52 then ('a' as int + v - 26) as char
    else if v < 62 then ('0' as int + v - 52) as char
    else if v == 62 then '+' else '/'
  }

  function ValueOf(c: char): Option<Sextet> {
    if 'A' <= c <= 'Z' then Some(c as int - 'A' as int)
    else if 'a' <= c <= 'z' then Some(c as int - 'a' as int + 26)
    else if '0' <= c <= '9' then Some(c as int - '0' as int + 52)
    else if c == '+' then Some(62)
    else if c == '/' then Some(63)
    else None
  }

  lemma SymbolsAreDistinct(v: Sextet)
    ensures ValueOf(SymbolOf(v)) == Some(v)
  {
  }

  // ---------------------------------------------------------------- encoding

  /** Symbol `index` of a packed 24-bit group: `(packed >> (18 - 6 index)) & 0x3f`. */
  function SextetAt(packed: nat, index: nat): Sextet
    requires index < 4
  {
    if index == 0 then packed / 0x40000 % 64
    else if index == 1 then packed / 0x1000 % 64
    else if index == 2 then packed / 0x40 % 64
    else packed % 64
  }

  /** A group of one to three bytes, zero-filled on the right. */
  function Packed(group: Bytes): nat
    requires 1 <= |group| <= 3
  {
    var first: nat, second: nat, third: nat :=
      group[0], if |group| > 1 then group[1] else 0, if |group| > 2 then group[2] else 0;
    first * 0x10000 + second * 0x100 + third
  }

  function GroupText(group: Bytes): (text: string)
    requires 1 <= |group| <= 3
    ensures |text| == |group| + 1
  {
    seq(|group| + 1, i requires 0 <= i < |group| + 1 => SymbolOf(SextetAt(Packed(group), i)))
  }

  function Encode(b: Bytes): string {
    if b == [] then ""
    else if |b| <= 3 then GroupText(b)
    else GroupText(b[..3]) + Encode(b[3..])
  }

  // ---------------------------------------------------------------- decoding

  function Pow2(bits: nat): (p: nat)
    requires Between(bits)
    ensures p > 0
  {
    if bits == 0 then 1 else if bits == 2 then 4 else if bits == 4 then 16 else 64
  }

  /** How many bits a decoder can be holding between symbols. */
  predicate Between(filled: nat) { filled == 0 || filled == 2 || filled == 4 || filled == 6 }

  /** The bytes in a run of symbols, given `filled` bits carried in from before.
      An unknown symbol ends the run. */
  function Unpack(carry: nat, filled: nat, text: string): Bytes
    requires Between(filled) && carry < Pow2(filled)
    decreases |text|
  {
    if text == "" || ValueOf(text[0]).None? then [] else
    var bits := carry * 64 + ValueOf(text[0]).value;
    if filled == 0 then Unpack(bits, 6, text[1..]) else
    assert bits / Pow2(filled - 2) < 256;
    [bits / Pow2(filled - 2)] + Unpack(bits % Pow2(filled - 2), filled - 2, text[1..])
  }

  function Decode(text: string): Bytes { Unpack(0, 0, text) }

  lemma {:induction false} CutsArePrefixes(carry: nat, filled: nat, text: string, n: nat)
    requires Between(filled) && carry < Pow2(filled) && n <= |text|
    ensures Unpack(carry, filled, text[..n]) <= Unpack(carry, filled, text)
    decreases n
  {
    if n > 0 && ValueOf(text[0]).Some? {
      assert text[..n][0] == text[0] && text[..n][1..] == text[1..][..n - 1];
      var bits := carry * 64 + ValueOf(text[0]).value;
      if filled == 0 {
        CutsArePrefixes(bits, 6, text[1..], n - 1);
      } else {
        CutsArePrefixes(bits % Pow2(filled - 2), filled - 2, text[1..], n - 1);
      }
    }
  }

  lemma EncodeStep(b: Bytes)
    requires b != []
    ensures var n := if |b| <= 3 then |b| else 3;
            Encode(b) == GroupText(b[..n]) + Encode(b[n..])
  {
    hide GroupText;
    if |b| <= 3 {
      assert b[..|b|] == b && b[|b|..] == [];
    }
  }

  // -------------------------------------------------------------- round trip

  lemma Divides(n: nat, d: nat, q: int, r: nat)
    requires r < d && n == q * d + r
    ensures n / d == q && n % d == r
  {
    assert n == d * (n / d) + n % d;
    OnlyZero(q - n / d, d, n % d - r);
  }

  lemma OnlyZero(x: int, d: int, y: int)
    requires x * d == y && -d < y < d
    ensures x == 0
  {
    if x > 0 {
      AtLeast(x, d);
    } else if x < 0 {
      AtLeast(-x, d);
    }
  }

  lemma AtLeast(x: int, d: int)
    requires x > 0 && d > 0
    ensures x * d >= d
  {
    assert (x - 1) * d >= 0;
  }

  lemma FirstSextets(a: byte, b: byte, c: byte)
    ensures var packed := a as int * 0x10000 + b as int * 0x100 + c;
            packed / 0x40000 % 64 == a / 4 && packed / 0x1000 % 64 == a % 4 * 16 + b / 16
  {
    var packed := a as int * 0x10000 + b as int * 0x100 + c;
    Divides(packed, 0x40000, a / 4, a % 4 * 0x10000 + b * 0x100 + c);
    Divides(packed, 0x1000, a * 16 + b / 16, b % 16 * 0x100 + c);
    Divides(a * 16 + b / 16, 64, a / 4, a % 4 * 16 + b / 16);
  }

  lemma LastSextets(a: byte, b: byte, c: byte)
    ensures var packed := a as int * 0x10000 + b as int * 0x100 + c;
            packed / 0x40 % 64 == b % 16 * 4 + c / 64 && packed % 64 == c % 64
  {
    var packed := a as int * 0x10000 + b as int * 0x100 + c;
    Divides(packed, 0x40, a * 1024 + b * 4 + c / 64, c % 64);
    Divides(a * 1024 + b * 4 + c / 64, 64, a * 16 + b / 16, b % 16 * 4 + c / 64);
  }

  /** The text of a group, symbol by symbol. */
  lemma GroupSymbols(group: Bytes)
    requires 1 <= |group| <= 3
    ensures var a, b, c := group[0], if |group| > 1 then group[1] else 0, if |group| > 2 then group[2] else 0;
            var text := [SymbolOf(a / 4), SymbolOf(a % 4 * 16 + b / 16),
                         SymbolOf(b % 16 * 4 + c / 64), SymbolOf(c % 64)];
            GroupText(group) == text[..|group| + 1]
  {
    hide SymbolOf;
    var a, b, c := group[0], if |group| > 1 then group[1] else 0, if |group| > 2 then group[2] else 0;
    FirstSextets(a, b, c);
    LastSextets(a, b, c);
  }

  /** What one known symbol does, when bits are already carried in. */
  lemma TakesByte(carry: nat, filled: nat, v: Sextet, rest: string, out: byte, left: nat)
    requires Between(filled) && filled > 0 && carry < Pow2(filled)
    requires left < Pow2(filled - 2) && carry * 64 + v == out * Pow2(filled - 2) + left
    ensures Unpack(carry, filled, [SymbolOf(v)] + rest) == [out] + Unpack(left, filled - 2, rest)
  {
    SymbolsAreDistinct(v);
    Divides(carry * 64 + v, Pow2(filled - 2), out, left);
    assert ([SymbolOf(v)] + rest)[1..] == rest;
  }

  lemma TakesFirst(v: Sextet, rest: string)
    ensures Unpack(0, 0, [SymbolOf(v)] + rest) == Unpack(v, 6, rest)
  {
    SymbolsAreDistinct(v);
    assert ([SymbolOf(v)] + rest)[1..] == rest;
  }

  /** One whole group, whatever text follows it. */
  lemma FullGroup(a: byte, b: byte, c: byte, rest: string)
    ensures Decode(GroupText([a, b, c]) + rest) == [a, b, c] + Decode(rest)
  {
    hide Unpack, SymbolOf, GroupText;
    GroupSymbols([a, b, c]);
    var s1, s2, s3 := a % 4 * 16 + b / 16, b % 16 * 4 + c / 64, c % 64;
    TakesFirst(a / 4, [SymbolOf(s1)] + ([SymbolOf(s2)] + ([SymbolOf(s3)] + rest)));
    TakesByte(a / 4, 6, s1, [SymbolOf(s2)] + ([SymbolOf(s3)] + rest), a, b / 16);
    TakesByte(b / 16, 4, s2, [SymbolOf(s3)] + rest, b, c / 64);
    TakesByte(c / 64, 2, s3, rest, c, 0);
    assert GroupText([a, b, c]) + rest
        == [SymbolOf(a / 4)] + ([SymbolOf(s1)] + ([SymbolOf(s2)] + ([SymbolOf(s3)] + rest)));
  }

  /** A text may end with one byte over: the zero fill never becomes a byte. */
  lemma OneByteOver(a: byte)
    ensures Decode(GroupText([a])) == [a]
  {
    hide SymbolOf, GroupText, Unpack;
    GroupSymbols([a]);
    TakesFirst(a / 4, [SymbolOf(a % 4 * 16)]);
    TakesByte(a / 4, 6, a % 4 * 16, "", a, 0);
    NothingLeft(0, 4);
    assert GroupText([a]) == [SymbolOf(a / 4)] + [SymbolOf(a % 4 * 16)];
    assert [SymbolOf(a % 4 * 16)] + "" == [SymbolOf(a % 4 * 16)];
  }

  /** Or with two. */
  lemma TwoBytesOver(a: byte, b: byte)
    ensures Decode(GroupText([a, b])) == [a, b]
  {
    hide SymbolOf, GroupText, Unpack;
    GroupSymbols([a, b]);
    var s1, s2 := a % 4 * 16 + b / 16, b % 16 * 4;
    TakesFirst(a / 4, [SymbolOf(s1)] + [SymbolOf(s2)]);
    TakesByte(a / 4, 6, s1, [SymbolOf(s2)], a, b / 16);
    TakesByte(b / 16, 4, s2, "", b, 0);
    NothingLeft(0, 2);
    assert GroupText([a, b]) == [SymbolOf(a / 4)] + ([SymbolOf(s1)] + [SymbolOf(s2)]);
    assert [SymbolOf(s2)] + "" == [SymbolOf(s2)];
  }

  lemma {:induction false} DecodesBack(b: Bytes)
    ensures Decode(Encode(b)) == b
    ensures |Encode(b)| == (|b| * 4 + 2) / 3
  {
    hide Unpack, GroupText;
    if b != [] {
      var n := if |b| <= 3 then |b| else 3;
      EncodeStep(b);
      DecodesBack(b[n..]);
      if n == 3 {
        assert b[..3] == [b[0], b[1], b[2]];
        FullGroup(b[0], b[1], b[2], Encode(b[3..]));
        assert Decode(Encode(b)) == b[..3] + b[3..];
      } else {
        if n == 1 { OneByteOver(b[0]); } else { TwoBytesOver(b[0], b[1]); }
        assert b == if n == 1 then [b[0]] else [b[0], b[1]];
        assert b[..n] == b && b[n..] == [] && GroupText(b) + "" == GroupText(b);
      }
    } else {
      NothingLeft(0, 0);
    }
  }

  predicate IsSymbol(c: char) { ValueOf(c).Some? }

  lemma {:induction false} OnlySymbols(b: Bytes)
    ensures forall i :: 0 <= i < |Encode(b)| ==> IsSymbol(Encode(b)[i])
  {
    forall v: Sextet ensures IsSymbol(SymbolOf(v)) {
      SymbolsAreDistinct(v);
    }
    if |b| > 3 {
      OnlySymbols(b[3..]);
    }
  }

  /** The alphabet of section 4 of RFC 4648: capitals, small letters and digits in
      their order, then the two signs. */
  lemma SymbolsAreTheAlphabet()
    ensures SymbolOf(0) == 'A' && SymbolOf(25) == 'Z' && SymbolOf(26) == 'a' && SymbolOf(51) == 'z'
    ensures SymbolOf(52) == '0' && SymbolOf(61) == '9' && SymbolOf(62) == '+' && SymbolOf(63) == '/'
    ensures forall v: Sextet :: v < 61 && v != 25 && v != 51 ==> SymbolOf(v + 1) as int == SymbolOf(v) as int + 1
  {
  }

  /** Bits are taken from the left, six to a symbol, and no padding is written. */
  lemma GroupsFromTheLeft(group: Bytes)
    requires 1 <= |group| <= 3
    ensures var a, b, c := group[0], if |group| > 1 then group[1] else 0, if |group| > 2 then group[2] else 0;
            Encode(group) == [SymbolOf(a / 4), SymbolOf(a % 4 * 16 + b / 16),
                              SymbolOf(b % 16 * 4 + c / 64), SymbolOf(c % 64)][..|group| + 1]
  {
    hide SymbolOf, GroupText;
    GroupSymbols(group);
  }

  /** One group after another. */
  lemma GroupByGroup(a: byte, b: byte, c: byte, rest: Bytes)
    ensures Encode([a, b, c] + rest) == Encode([a, b, c]) + Encode(rest)
  {
    hide GroupText;
    if rest == [] {
      assert [a, b, c] + rest == [a, b, c];
    } else {
      assert ([a, b, c] + rest)[..3] == [a, b, c] && ([a, b, c] + rest)[3..] == rest;
    }
  }

  // ------------------------------------------------------------------- loops

  method ToBase64(bits: Bytes) returns (out: string)
    ensures out == Encode(bits)
  {
    hide SymbolOf, SextetAt, Packed, Encode;
    assert bits[0..] == bits;
    out := "";
    var at := 0;
    while at < |bits|
      invariant 0 <= at <= |bits|
      invariant out + Encode(bits[at..]) == Encode(bits)
    {
      var next := if at + 3 <= |bits| then at + 3 else |bits|;
      var group := bits[at..next];
      EncodeStep(bits[at..]);
      var packed := Packed(group);
      var index, text := 0, "";
      while index < |group| + 1
        invariant 0 <= index <= |group| + 1
        invariant text == GroupText(group)[..index]
      {
        text := text + [SymbolOf(SextetAt(packed, index))];
        index := index + 1;
      }
      assert text == GroupText(group);
      assert bits[at..][..next - at] == group && bits[at..][next - at..] == bits[next..];
      out, at := out + text, next;
    }
    assert bits[at..] == [];
    EncodeNothing();
  }

  lemma EncodeNothing()
    ensures Encode([]) == ""
  {
  }

  const WORD := 0x1_0000_0000

  /** The register keeps bits already written out: only its low `filled` bits
      are ever looked at again, so the wrap at 32 bits loses nothing. */
  method FromBase64(text: string) returns (out: Bytes)
    ensures out == Decode(text)
  {
    hide Unpack, ValueOf;
    out := [];
    var packed: nat, filled: nat := 0, 0;
    var at := 0;
    assert text[0..] == text;
    while at < |text|
      invariant 0 <= at <= |text| && packed < WORD
      invariant Between(filled)
      invariant out + Unpack(packed % Pow2(filled), filled, text[at..]) == Decode(text)
    {
      var value := ValueOf(text[at]);
      UnpackStep(packed % Pow2(filled), filled, text, at);
      if value.None? {
        assert out == Decode(text);
        return;
      }
      Shifted(packed, filled, value.value);
      packed := (packed * 64 + value.value) % WORD;
      filled := filled + 6;
      at := at + 1;
      if filled >= 8 {
        filled := filled - 8;
        out := out + [packed / Pow2(filled) % 256];
      }
    }
    NothingLeft(packed % Pow2(filled), filled);
    assert text[at..] == "";
  }

  lemma NothingLeft(carry: nat, filled: nat)
    requires Between(filled) && carry < Pow2(filled)
    ensures Unpack(carry, filled, "") == []
  {
  }

  lemma IsByte(carry: nat, filled: nat, v: Sextet)
    requires Between(filled) && filled > 0 && carry < Pow2(filled)
    ensures (carry * 64 + v) / Pow2(filled - 2) < 256
  {
  }

  lemma UnpackStep(carry: nat, filled: nat, text: string, at: nat)
    requires Between(filled) && carry < Pow2(filled) && at < |text|
    ensures var left := Unpack(carry, filled, text[at..]);
            match ValueOf(text[at])
            case None => left == []
            case Some(v) =>
              var bits := carry * 64 + v;
              && (filled == 0 ==> left == Unpack(bits, 6, text[at + 1..]))
              && (filled > 0 ==> bits / Pow2(filled - 2) < 256)
              && (filled > 0 ==>
                    left == [bits / Pow2(filled - 2)]
                            + Unpack(bits % Pow2(filled - 2), filled - 2, text[at + 1..]))
  {
    hide Pow2, ValueOf;
    assert text[at..][1..] == text[at + 1..] && text[at..][0] == text[at];
    if ValueOf(text[at]).Some? && filled > 0 {
      IsByte(carry, filled, ValueOf(text[at]).value);
    }
  }

  lemma Scaled(h: int, m: int, c: int, v: int)
    ensures (m * h + c) * 64 + v == h * (m * 64) + (c * 64 + v)
  {
  }

  lemma Unwrapped(h: int, d: int, k: int, q: int, low: int)
    ensures (h - k * q) * d + low == h * d + low - (d * k) * q
  {
  }

  /** Appending a symbol keeps the low bits, through the wrap. */
  lemma LowBits(packed: nat, m: nat, k: nat, v: Sextet)
    requires m > 0 && m * 64 * k == WORD
    ensures (packed * 64 + v) % WORD % (m * 64) == packed % m * 64 + v
  {
    var n, h, low := packed * 64 + v, packed / m, packed % m * 64 + v;
    Scaled(h, m, packed % m, v);
    Unwrapped(h, m * 64, k, n / WORD, low);
    assert n == WORD * (n / WORD) + n % WORD;
    Divides(n % WORD, m * 64, h - k * (n / WORD), low);
  }

  /** A byte, and the bits under it, read from the low bits of a word. */
  lemma HighByte(word: nat, filled: nat)
    requires Between(filled) && filled > 0
    ensures word / Pow2(filled - 2) % 256 == word % (Pow2(filled) * 64) / Pow2(filled - 2)
    ensures word % Pow2(filled - 2) == word % (Pow2(filled) * 64) % Pow2(filled - 2)
  {
    if filled == 4 {
      var w := word % 0x400;
      Divides(word, 4, word / 0x400 * 256 + w / 4, w % 4);
      Divides(word / 0x400 * 256 + w / 4, 256, word / 0x400, w / 4);
    } else if filled == 6 {
      var w := word % 0x1000;
      Divides(word, 16, word / 0x1000 * 256 + w / 16, w % 16);
      Divides(word / 0x1000 * 256 + w / 16, 256, word / 0x1000, w / 16);
    }
  }

  lemma Shifted(packed: nat, filled: nat, v: Sextet)
    requires Between(filled)
    ensures var bits := packed % Pow2(filled) * 64 + v;
            var word := (packed * 64 + v) % WORD;
            && (filled == 0 ==> word % 64 == bits)
            && (filled > 0 ==> word / Pow2(filled - 2) % 256 == bits / Pow2(filled - 2))
            && (filled > 0 ==> word % Pow2(filled - 2) == bits % Pow2(filled - 2))
  {
    var above := if filled == 0 then 0x400_0000
                 else if filled == 2 then 0x100_0000
                 else if filled == 4 then 0x40_0000
                 else 0x10_0000;
    LowBits(packed, Pow2(filled), above, v);
    if filled > 0 {
      HighByte((packed * 64 + v) % WORD, filled);
    }
  }
}
