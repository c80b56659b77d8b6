/** What makes a byte string a text: it is some scalar values, encoded one after
    another (section 3.9 of the Unicode standard). */
module Unicode {
  import opened Codec

  type Scalar = c: int | 0 <= c <= 0xD7FF || 0xE000 <= c <= 0x10FFFF

  function EncodeScalar(c: Scalar): Bytes {
    if c < 0x80 then [c]
    else if c < 0x800 then [0xC0 + c / 0x40, 0x80 + c % 0x40]
    else if c < 0x1_0000 then [0xE0 + c / 0x1000, 0x80 + c / 0x40 % 0x40, 0x80 + c % 0x40]
    else [0xF0 + c / 0x4_0000, 0x80 + c / 0x1000 % 0x40, 0x80 + c / 0x40 % 0x40, 0x80 + c % 0x40]
  }

  function EncodeText(text: seq<Scalar>): Bytes {
    if text == [] then [] else EncodeScalar(text[0]) + EncodeText(text[1..])
  }

  lemma ScalarIsHead(c: Scalar, rest: Bytes)
    ensures Utf8Head(EncodeScalar(c) + rest) == |EncodeScalar(c)| > 0
  {
    var e := EncodeScalar(c);
    LeadByte(c);
    assert forall k :: 0 <= k < |e| ==> (e + rest)[k] == e[k];
    hide EncodeScalar;
  }

  /** The first bytes that can occur, and which second ones after them. */
  lemma LeadByte(c: Scalar)
    ensures var e := EncodeScalar(c);
            && 1 <= |e| <= 4 && (forall k :: 1 <= k < |e| ==> Continuation(e[k]))
            && (|e| == 1 ==> e[0] <= 0x7F) && (|e| == 2 ==> 0xC2 <= e[0] <= 0xDF)
            && (|e| == 3 ==> 0xE0 <= e[0] <= 0xEF && (e[0] == 0xE0 ==> e[1] >= 0xA0) && (e[0] == 0xED ==> e[1] <= 0x9F))
            && (|e| == 4 ==> 0xF0 <= e[0] <= 0xF4 && (e[0] == 0xF0 ==> e[1] >= 0x90) && (e[0] == 0xF4 ==> e[1] <= 0x8F))
  {
  }

  /** The scalar a well-formed sequence spells. */
  lemma HeadIsScalar(b: Bytes) returns (c: Scalar)
    requires Utf8Head(b) > 0
    ensures EncodeScalar(c) == b[..Utf8Head(b)]
  {
    var n := Utf8Head(b);
    if n == 1 {
      c := b[0];
    } else if n == 2 {
      var high: nat, low: nat := b[0] - 0xC0, b[1] - 0x80;
      c := high * 0x40 + low;
    } else if n == 3 {
      c := ThreeBytes(b);
    } else {
      c := FourBytes(b);
    }
  }

  lemma ThreeBytes(b: Bytes) returns (c: Scalar)
    requires Utf8Head(b) == 3
    ensures EncodeScalar(c) == b[..3]
  {
    var high: nat, mid: nat, low: nat := b[0] - 0xE0, b[1] - 0x80, b[2] - 0x80;
    c := high * 0x1000 + mid * 0x40 + low;
    Sixths(high, mid, low);
  }

  lemma FourBytes(b: Bytes) returns (c: Scalar)
    requires Utf8Head(b) == 4
    ensures EncodeScalar(c) == b[..4]
  {
    var top: nat, high: nat, mid: nat, low: nat := b[0] - 0xF0, b[1] - 0x80, b[2] - 0x80, b[3] - 0x80;
    assert 0x10 <= top * 0x40 + high <= 0x10F && high < 0x40 && mid < 0x40 && low < 0x40;
    Sixths(top * 0x40 + high, mid, low);
    TopAndHigh(top, high, mid * 0x40 + low);
    hide Utf8Head;
    c := (top * 0x40 + high) * 0x1000 + mid * 0x40 + low;
  }

  lemma TopAndHigh(top: nat, high: nat, low: nat)
    requires high < 0x40 && low < 0x1000
    ensures var c := (top * 0x40 + high) * 0x1000 + low; c / 0x4_0000 == top && c / 0x1000 % 0x40 == high
  {
  }

  lemma Sixths(high: nat, mid: nat, low: nat)
    requires mid < 0x40 && low < 0x40
    ensures var c := high * 0x1000 + mid * 0x40 + low;
            c / 0x1000 == high && c / 0x40 % 0x40 == mid && c % 0x40 == low
  {
  }

  /** Every encoded text is accepted. */
  lemma {:induction false} TextIsUtf8(text: seq<Scalar>)
    ensures Utf8(EncodeText(text))
  {
    hide EncodeScalar, Utf8Head;
    if text != [] {
      var one, rest := EncodeScalar(text[0]), EncodeText(text[1..]);
      TextIsUtf8(text[1..]);
      ScalarIsHead(text[0], rest);
      assert (one + rest)[|one|..] == rest;
    }
  }

  /** And nothing else is: whatever is accepted is the encoding of a text. */
  lemma {:induction false} Utf8IsText(b: Bytes) returns (text: seq<Scalar>)
    requires Utf8(b)
    ensures EncodeText(text) == b
    decreases |b|
  {
    hide EncodeScalar, Utf8Head;
    if b == [] {
      text := [];
    } else {
      var n := Utf8Head(b);
      var c := HeadIsScalar(b);
      var rest := Utf8IsText(b[n..]);
      text := [c] + rest;
      assert text[1..] == rest && b == b[..n] + b[n..];
    }
  }
}
