/** Which slots a peer can serve, as a field small enough for its card. */
module Serving {
  import opened Wrappers
  import opened Codec
  import Base64

  const MAX_SERVING_CHARS: nat := 512
  const MAX_BITMAP_SLOTS: nat := (MAX_SERVING_CHARS - 1) / 4 * 3 * 8

  type Index = n: int | 0 <= n <= U32_MAX

  // ------------------------------------------------------ sorting without repeats

  ghost predicate Rising(xs: seq<Index>) { forall i, j :: 0 <= i < j < |xs| ==> xs[i] < xs[j] }

  function Inserted(xs: seq<Index>, x: Index): seq<Index> {
    if xs == [] || xs[|xs| - 1] < x then xs + [x]
    else if xs[|xs| - 1] == x then xs
    else Inserted(xs[..|xs| - 1], x) + [xs[|xs| - 1]]
  }

  function Ordered(held: seq<Index>): seq<Index> {
    if held == [] then [] else Inserted(Ordered(held[..|held| - 1]), held[|held| - 1])
  }

  lemma RisingSnoc(xs: seq<Index>, last: Index)
    requires Rising(xs) && forall y :: y in xs ==> y < last
    ensures Rising(xs + [last])
  {
    var ys := xs + [last];
    forall i, j | 0 <= i < j < |ys| ensures ys[i] < ys[j] {
      assert xs[i] in xs;
    }
  }

  lemma {:induction false} InsertedOrders(xs: seq<Index>, x: Index)
    requires Rising(xs)
    ensures Rising(Inserted(xs, x))
    ensures forall y :: y in Inserted(xs, x) <==> y == x || y in xs
  {
    if xs != [] {
      var front, last := xs[..|xs| - 1], xs[|xs| - 1];
      assert xs == front + [last];
      if last > x {
        InsertedOrders(front, x);
        RisingSnoc(Inserted(front, x), last);
      } else if last < x {
        RisingSnoc(xs, x);
      }
    }
  }

  lemma {:induction false} OrderedIsRising(held: seq<Index>)
    ensures Rising(Ordered(held))
    ensures forall y :: y in Ordered(held) <==> y in held
  {
    if held != [] {
      var front, last := held[..|held| - 1], held[|held| - 1];
      assert held == front + [last];
      OrderedIsRising(front);
      InsertedOrders(Ordered(front), last);
    }
  }

  /** Two rising lists of the same members are one list. */
  lemma {:induction false} RisingIsUnique(xs: seq<Index>, ys: seq<Index>)
    requires Rising(xs) && Rising(ys) && forall y :: y in xs <==> y in ys
    ensures xs == ys
  {
    if xs == [] || ys == [] {
      HasMember(xs);
      HasMember(ys);
    } else {
      var k, m := |xs| - 1, |ys| - 1;
      SameLast(xs, ys);
      forall y ensures y in xs[..k] <==> y in ys[..m] {
        FrontMembers(xs, y);
        FrontMembers(ys, y);
      }
      RisingIsUnique(xs[..k], ys[..m]);
      assert xs == xs[..k] + [xs[k]] && ys == ys[..m] + [ys[m]];
    }
  }

  lemma FrontMembers(xs: seq<Index>, y: Index)
    requires Rising(xs) && xs != []
    ensures y in xs[..|xs| - 1] <==> y in xs && y != xs[|xs| - 1]
  {
    assert xs == xs[..|xs| - 1] + [xs[|xs| - 1]];
  }

  lemma HasMember(xs: seq<Index>)
    ensures xs != [] ==> exists y :: y in xs
  {
    if xs != [] {
      assert xs[0] in xs;
    }
  }

  lemma SameLast(xs: seq<Index>, ys: seq<Index>)
    requires Rising(xs) && Rising(ys) && xs != [] && ys != [] && forall y :: y in xs <==> y in ys
    ensures xs[|xs| - 1] == ys[|ys| - 1]
  {
    var k, m := |xs| - 1, |ys| - 1;
    assert xs[k] in xs && ys[m] in ys;
    var i :| 0 <= i < |xs| && xs[i] == ys[m];
    var j :| 0 <= j < |ys| && ys[j] == xs[k];
  }

  // ------------------------------------------------------------------ numbers

  predicate IsDigit(c: char) { '0' <= c <= '9' }

  function DigitOf(d: nat): char
    requires d < 10
  {
    ('0' as int + d) as char
  }

  /** A number written out in decimal. */
  function Decimal(n: nat): string {
    if n < 10 then [DigitOf(n)] else Decimal(n / 10) + [DigitOf(n % 10)]
  }

  predicate AllDigits(text: string) { forall i :: 0 <= i < |text| ==> IsDigit(text[i]) }

  function ValueOf(text: string): nat
    requires AllDigits(text)
  {
    if text == "" then 0
    else ValueOf(text[..|text| - 1]) * 10 + (text[|text| - 1] as int - '0' as int)
  }

  /** An unsigned 32-bit number, with an optional leading plus. */
  function ParseU32(text: string): Option<Index> {
    var digits := if text != "" && text[0] == '+' then text[1..] else text;
    if digits == "" || !AllDigits(digits) || ValueOf(digits) > U32_MAX then None
    else Some(ValueOf(digits))
  }

  lemma {:induction false} DecimalReadsBack(n: nat)
    ensures Decimal(n) != "" && AllDigits(Decimal(n)) && ValueOf(Decimal(n)) == n
  {
    var text := Decimal(n);
    if n >= 10 {
      DecimalReadsBack(n / 10);
      assert text[..|text| - 1] == Decimal(n / 10);
    } else {
      assert text[..0] == "";
    }
  }

  // --------------------------------------------------------------------- text

  predicate IsSpace(c: char) {
    var u := c as int;
    9 <= u <= 13 || u in {0x20, 0x85, 0xA0, 0x1680, 0x2028, 0x2029, 0x202F, 0x205F, 0x3000} || 0x2000 <= u <= 0x200A
  }

  function TrimStart(text: string): string {
    if text != "" && IsSpace(text[0]) then TrimStart(text[1..]) else text
  }

  function Trim(text: string): string {
    if text != "" && IsSpace(text[|text| - 1]) then Trim(text[..|text| - 1]) else TrimStart(text)
  }

  function Split(text: string, mark: char): (pieces: seq<string>)
    ensures pieces != []
  {
    if text == "" then [""]
    else
      var rest := Split(text[1..], mark);
      if text[0] == mark then [""] + rest else [[text[0]] + rest[0]] + rest[1..]
  }

  /** Before and after the first mark. */
  function SplitOnce(text: string, mark: char): Option<(string, string)> {
    if text == "" then None
    else if text[0] == mark then Some(("", text[1..]))
    else match SplitOnce(text[1..], mark)
      case None => None
      case Some((before, after)) => Some(([text[0]] + before, after))
  }

  lemma {:induction false} SplitAtMark(before: string, mark: char, after: string)
    requires mark !in before
    ensures Split(before + [mark] + after, mark) == [before] + Split(after, mark)
    ensures SplitOnce(before + [mark] + after, mark) == Some((before, after))
  {
    var text := before + [mark] + after;
    if before == "" {
      assert text[1..] == after;
    } else {
      SplitAtMark(before[1..], mark, after);
      assert text[1..] == before[1..] + [mark] + after;
      assert before == [before[0]] + before[1..] && before[0] in before;
      assert Split(text, mark) == [[text[0]] + before[1..]] + Split(after, mark);
    }
  }

  lemma {:induction false} SplitWithoutMark(text: string, mark: char)
    requires mark !in text
    ensures Split(text, mark) == [text] && SplitOnce(text, mark) == None
  {
    if text != "" {
      assert text[0] in text;
      SplitWithoutMark(text[1..], mark);
      assert text == [text[0]] + text[1..];
    }
  }

  // -------------------------------------------------------------------- runs

  /** Where the run of consecutive numbers through `at` ends. */
  function RunEnd(sorted: seq<Index>, at: nat): (end: nat)
    requires at < |sorted|
    ensures at < end <= |sorted|
    ensures forall k :: at <= k < end ==> sorted[k] == sorted[at] + (k - at)
    ensures end < |sorted| ==> sorted[end] as int != sorted[end - 1] as int + 1
    decreases |sorted| - at
  {
    if at + 1 < |sorted| && sorted[at + 1] as int == sorted[at] as int + 1 then RunEnd(sorted, at + 1) else at + 1
  }

  function RunText(start: Index, end: Index): string {
    if start == end then Decimal(start) else Decimal(start) + "-" + Decimal(end)
  }

  function RunsText(sorted: seq<Index>, at: nat): string
    requires at <= |sorted|
    decreases |sorted| - at
  {
    if at == |sorted| then ""
    else
      var end := RunEnd(sorted, at);
      RunText(sorted[at], sorted[end - 1]) + (if end == |sorted| then "" else "," + RunsText(sorted, end))
  }

  /** What one run says of a slot: malformed runs say nothing. */
  predicate RunSays(run: string, slot: nat) {
    match SplitOnce(run, '-')
    case Some((start, end)) =>
      ParseU32(start).Some? && ParseU32(end).Some? && ParseU32(start).value <= slot <= ParseU32(end).value
    case None => ParseU32(run) == Some(slot)
  }

  predicate RunsSay(runs: seq<string>, slot: nat) {
    runs != [] && (RunSays(Trim(runs[0]), slot) || RunsSay(runs[1..], slot))
  }

  // ------------------------------------------------------------------ bitmap

  predicate Bit(b: nat, i: nat) { if i == 0 then b % 2 == 1 else Bit(b / 2, i - 1) }

  /** `b | (1 << i)`. */
  function WithBit(b: nat, i: nat): nat {
    if i == 0 then b / 2 * 2 + 1 else WithBit(b / 2, i - 1) * 2 + b % 2
  }

  function Two(n: nat): nat { if n == 0 then 1 else 2 * Two(n - 1) }

  lemma {:induction false} WithBitSetsOne(b: nat, i: nat, j: nat)
    ensures Bit(WithBit(b, i), j) == (i == j || Bit(b, j))
  {
    if i > 0 && j > 0 {
      WithBitSetsOne(b / 2, i - 1, j - 1);
    }
  }

  lemma {:induction false} WithBitFits(b: nat, i: nat, n: nat)
    requires b < Two(n) && i < n
    ensures WithBit(b, i) < Two(n)
  {
    if i > 0 {
      WithBitFits(b / 2, i - 1, n - 1);
    }
  }

  lemma {:induction false} NoBitsInZero(i: nat)
    ensures !Bit(0, i)
  {
    if i > 0 {
      NoBitsInZero(i - 1);
    }
  }

  function Marked(b: byte, i: nat): byte
    requires i < 8
  {
    WithBitFits(b, i, 8);
    WithBit(b, i)
  }

  function MarkedAll(bits: Bytes, slots: seq<Index>, total: nat): (marked: Bytes)
    ensures |marked| == |bits|
  {
    if slots == [] then bits
    else
      var before, slot := MarkedAll(bits, slots[..|slots| - 1], total), slots[|slots| - 1];
      if slot >= total || slot / 8 >= |bits| then before
      else before[slot / 8 := Marked(before[slot / 8], slot % 8)]
  }

  predicate BitmapSays(bits: Bytes, slot: nat) { slot / 8 < |bits| && Bit(bits[slot / 8], slot % 8) }

  lemma {:induction false} MarkedAllSays(bits: Bytes, slots: seq<Index>, total: nat, slot: nat)
    requires total <= 8 * |bits|
    ensures BitmapSays(MarkedAll(bits, slots, total), slot) <==>
            BitmapSays(bits, slot) || (slot in slots && slot < total)
  {
    if slots != [] {
      var front, last := slots[..|slots| - 1], slots[|slots| - 1];
      assert slots == front + [last];
      MarkedAllSays(bits, front, total, slot);
      var before := MarkedAll(bits, front, total);
      if last < total && last / 8 == slot / 8 {
        WithBitSetsOne(before[slot / 8], last % 8, slot % 8);
      }
    }
  }

  function Blank(total: nat): Bytes { seq((total + 7) / 8, i => 0) }

  function BitmapField(sorted: seq<Index>, total: nat): Option<string> {
    if total == 0 || total > MAX_BITMAP_SLOTS then None
    else
      var field := "~" + Base64.Encode(MarkedAll(Blank(total), sorted, total));
      if |field| <= MAX_SERVING_CHARS then Some(field) else None
  }

  // ------------------------------------------------------------------- field

  /** The field a peer publishes for the slots it holds, in order. */
  function Published(sorted: seq<Index>, total: nat): Option<string> {
    if sorted == [] then None
    else if total > 0 && |sorted| == total then Some("*")
    else if |RunsText(sorted, 0)| <= MAX_SERVING_CHARS then Some(RunsText(sorted, 0))
    else BitmapField(sorted, total)
  }

  predicate IsBitmap(field: string) { field != "" && field[0] == '~' }

  /** Whether a field, read against a tree of `total` slots, claims a slot. */
  predicate Says(encoded: string, total: nat, slot: nat) {
    var field := Trim(encoded);
    if field == "*" then slot < total && slot < U32_MAX
    else if IsBitmap(field) then slot < total && slot <= U32_MAX && BitmapSays(Base64.Decode(field[1..]), slot)
    else RunsSay(Split(field, ','), slot)
  }

  // ------------------------------------------------------------- round trips

  predicate RunChar(c: char) { IsDigit(c) || c == '-' || c == ',' }

  predicate Plain(text: string) { text != "" && forall i :: 0 <= i < |text| ==> RunChar(text[i]) }

  lemma NothingToTrim(text: string)
    requires text != "" && !IsSpace(text[0]) && !IsSpace(text[|text| - 1])
    ensures Trim(text) == text
  {
  }

  lemma RunTextIsPlain(start: Index, end: Index)
    ensures Plain(RunText(start, end)) && ',' !in RunText(start, end)
  {
    DecimalReadsBack(start);
    DecimalReadsBack(end);
  }

  lemma ParsesBack(n: Index)
    ensures ParseU32(Decimal(n)) == Some(n) && '-' !in Decimal(n)
  {
    DecimalReadsBack(n);
  }

  lemma RunTextSays(start: Index, end: Index, slot: nat)
    requires start <= end
    ensures RunSays(Trim(RunText(start, end)), slot) <==> start <= slot <= end
  {
    hide ParseU32, Decimal, IsSpace;
    RunTextIsPlain(start, end);
    RunCharsAreNotSpace();
    NothingToTrim(RunText(start, end));
    ParsesBack(start);
    ParsesBack(end);
    if start == end {
      SplitWithoutMark(Decimal(start), '-');
    } else {
      SplitAtMark(Decimal(start), '-', Decimal(end));
    }
  }

  lemma RunCharsAreNotSpace()
    ensures forall c :: RunChar(c) ==> !IsSpace(c)
  {
  }

  lemma {:induction false} RunsArePlain(sorted: seq<Index>, at: nat)
    requires at < |sorted|
    ensures Plain(RunsText(sorted, at))
    decreases |sorted| - at
  {
    hide RunText;
    var end := RunEnd(sorted, at);
    RunTextIsPlain(sorted[at], sorted[end - 1]);
    if end < |sorted| {
      RunsArePlain(sorted, end);
    }
  }

  lemma RunsTextStep(sorted: seq<Index>, at: nat)
    requires at < |sorted|
    ensures var end := RunEnd(sorted, at);
            RunsText(sorted, at) ==
            RunText(sorted[at], sorted[end - 1]) + (if end == |sorted| then "" else "," + RunsText(sorted, end))
  {
    hide RunEnd, RunText;
    var end := RunEnd(sorted, at);
    assert RunsText(sorted, at) ==
           RunText(sorted[at], sorted[end - 1]) + (if end == |sorted| then "" else "," + RunsText(sorted, end));
  }

  /** The run list says exactly what is held. */
  lemma {:induction false} RunsSayWhatIsHeld(sorted: seq<Index>, at: nat, slot: nat)
    requires Rising(sorted) && at < |sorted|
    ensures RunsSay(Split(RunsText(sorted, at), ','), slot) <==> slot in sorted[at..]
    decreases |sorted| - at
  {
    hide RunText, RunSays, Trim, Split, RunEnd, RunsText, Rising, Plain;
    var end := RunEnd(sorted, at);
    var run := RunText(sorted[at], sorted[end - 1]);
    RunTextIsPlain(sorted[at], sorted[end - 1]);
    RunTextSays(sorted[at], sorted[end - 1], slot);
    RunMembers(sorted, at, end, slot);
    RunsTextStep(sorted, at);
    if end == |sorted| {
      assert run + "" == run;
      SplitWithoutMark(run, ',');
    } else {
      RunsSayWhatIsHeld(sorted, end, slot);
      assert run + ("," + RunsText(sorted, end)) == run + [','] + RunsText(sorted, end);
      SplitAtMark(run, ',', RunsText(sorted, end));
      assert ([run] + Split(RunsText(sorted, end), ','))[1..] == Split(RunsText(sorted, end), ',');
    }
  }

  lemma RunMembers(sorted: seq<Index>, at: nat, end: nat, slot: nat)
    requires at < end <= |sorted| && forall k :: at <= k < end ==> sorted[k] == sorted[at] + (k - at)
    ensures slot in sorted[at..] <==> sorted[at] <= slot <= sorted[end - 1] || slot in sorted[end..]
  {
    assert sorted[at..] == sorted[at..end] + sorted[end..];
    if sorted[at] <= slot <= sorted[end - 1] {
      assert sorted[at..end][slot - sorted[at]] == slot;
    }
  }

  lemma StarSaysAll(total: nat, slot: nat)
    ensures Says("*", total, slot) <==> slot < total && slot < U32_MAX
  {
    NothingToTrim("*");
  }

  lemma RunFieldSays(sorted: seq<Index>, total: nat, slot: nat)
    requires Rising(sorted) && sorted != []
    ensures var field := RunsText(sorted, 0);
            !IsBitmap(field) && field != "*" && (Says(field, total, slot) <==> slot in sorted)
  {
    hide RunsText, IsSpace, Trim, Split, RunsSay;
    var field := RunsText(sorted, 0);
    RunsArePlain(sorted, 0);
    RunCharsAreNotSpace();
    assert RunChar(field[0]) && RunChar(field[|field| - 1]);
    NothingToTrim(field);
    RunsSayWhatIsHeld(sorted, 0, slot);
    assert sorted[0..] == sorted;
  }

  lemma SymbolsAreNotSpace(c: char)
    requires Base64.IsSymbol(c)
    ensures !IsSpace(c)
  {
  }

  /** A whole or cut bitmap says what its whole bytes say. */
  lemma CutFieldSays(bits: Bytes, total: nat, slot: nat, n: nat)
    requires 0 < n <= |Base64.Encode(bits)| + 1
    ensures var field := ("~" + Base64.Encode(bits))[..n];
            IsBitmap(field) && Trim(field) == field
            && field[1..] == Base64.Encode(bits)[..n - 1]
            && field != "*"
  {
    hide IsSpace, Base64.Encode, Base64.IsSymbol;
    var text := Base64.Encode(bits);
    var field := ("~" + text)[..n];
    Base64.OnlySymbols(bits);
    assert field[1..] == text[..n - 1];
    if n > 1 {
      assert field[n - 1] == text[n - 2];
      SymbolsAreNotSpace(text[n - 2]);
    }
    TagIsNotSpace();
    NothingToTrim(field);
  }

  lemma TagIsNotSpace()
    ensures !IsSpace('~')
  {
  }

  lemma BitmapFieldSays(sorted: seq<Index>, total: nat, slot: nat)
    requires 0 < total <= U32_MAX
    ensures var field := "~" + Base64.Encode(MarkedAll(Blank(total), sorted, total));
            IsBitmap(field) && (Says(field, total, slot) <==> slot in sorted && slot < total)
  {
    hide Base64.Encode, Base64.Decode, Trim, MarkedAll;
    var bits := MarkedAll(Blank(total), sorted, total);
    var text := Base64.Encode(bits);
    var field := "~" + text;
    CutFieldSays(bits, total, slot, |text| + 1);
    assert field[..|text| + 1] == field && text[..|text|] == text;
    Base64.DecodesBack(bits);
    MarkedAllSays(Blank(total), sorted, total, slot);
    NoBitsInZero(slot % 8);
  }

  // ------------------------------------------------------------- what a reader forgives

  /** Spaces around a field, or around one of its runs, change nothing. */
  lemma {:induction false} SpacesAreTrimmed(text: string, c: char)
    requires IsSpace(c)
    ensures Trim(text + [c]) == Trim(text) && Trim([c] + text) == Trim(text)
    decreases |text|
  {
    hide IsSpace;
    assert (text + [c])[..|text|] == text && ([c] + text)[1..] == text;
    if text == "" {
      assert [c] + text == text + [c];
    } else if IsSpace(text[|text| - 1]) {
      var front := text[..|text| - 1];
      SpacesAreTrimmed(front, c);
      assert ([c] + text)[..|text|] == [c] + front && ([c] + text)[|text|] == text[|text| - 1];
    }
  }

  /** The spaces are the White_Space characters of Unicode. */
  lemma SpacesAreUnicode(c: char)
    ensures IsSpace(c) <==>
            (c as int) in {0x9, 0xA, 0xB, 0xC, 0xD, 0x20, 0x85, 0xA0, 0x1680, 0x2000, 0x2001, 0x2002, 0x2003, 0x2004,
                           0x2005, 0x2006, 0x2007, 0x2008, 0x2009, 0x200A, 0x2028, 0x2029, 0x202F, 0x205F, 0x3000}
  {
  }

  /** A number may carry a plus sign; nothing else that is no digit. */
  lemma NumbersParse(n: Index, text: string)
    ensures ParseU32("+" + Decimal(n)) == Some(n)
    ensures ParseU32(text).Some? ==> text != "" && (text[0] == '+' || IsDigit(text[0])) && AllDigits(text[1..])
  {
    DecimalReadsBack(n);
    assert ("+" + Decimal(n))[1..] == Decimal(n);
  }

  /** A field claims what one of its runs claims, whatever the others are. */
  lemma {:induction false} RunsAreIndependent(runs: seq<string>, slot: nat)
    ensures RunsSay(runs, slot) <==> exists i :: 0 <= i < |runs| && RunSays(Trim(runs[i]), slot)
  {
    hide RunSays, Trim;
    if runs != [] {
      RunsAreIndependent(runs[1..], slot);
      if i :| 0 <= i < |runs[1..]| && RunSays(Trim(runs[1..][i]), slot) {
        assert RunSays(Trim(runs[i + 1]), slot);
      }
      if i :| 0 < i < |runs| && RunSays(Trim(runs[i]), slot) {
        assert runs[1..][i - 1] == runs[i];
      }
    }
  }

  /** A run claims the slots between its two numbers, or the one it names; a run
      one of whose numbers cannot be read claims nothing. */
  lemma RunSaysItsRange(start: string, end: string, slot: nat)
    requires '-' !in start
    ensures RunSays(start + "-" + end, slot) <==>
            ParseU32(start).Some? && ParseU32(end).Some? && ParseU32(start).value <= slot <= ParseU32(end).value
    ensures RunSays(start, slot) <==> ParseU32(start) == Some(slot)
  {
    hide ParseU32;
    SplitAtMark(start, '-', end);
    SplitWithoutMark(start, '-');
  }

  /** What a reader can be made to believe: slots a u32 can name, and from a star
      or a bitmap only those of the tree. */
  lemma ClaimsAreBounded(encoded: string, total: nat, slot: nat)
    requires Says(encoded, total, slot)
    ensures slot <= 0xFFFF_FFFF
    ensures Trim(encoded) == "*" || "~" <= Trim(encoded) ==> slot < total
  {
    hide Trim, Base64.Decode;
    var field := Trim(encoded);
    if field != "*" && !IsBitmap(field) {
      RunsAreIndependent(Split(field, ','), slot);
    }
  }

  /** The three forms of a field: everything, runs, and a tagged bitmap. */
  lemma FieldForms()
    ensures Published([0, 1], 2) == Some("*")
    ensures Published([0, 1, 2, 5], 9) == Some("0-2,5")
    ensures BitmapField([1], 8) == Some("~Ag")
  {
    RunsForm();
    BitmapForm();
  }

  lemma RunsForm()
    ensures Published([0, 1, 2, 5], 9) == Some("0-2,5")
  {
    hide Decimal;
    var sorted: seq<Index> := [0, 1, 2, 5];
    assert RunEnd(sorted, 2) == 3 && RunEnd(sorted, 1) == 3 && RunEnd(sorted, 0) == 3 && RunEnd(sorted, 3) == 4;
    assert Decimal(0) == "0" && Decimal(2) == "2" && Decimal(5) == "5" by { SmallDecimals(); }
    assert RunsText(sorted, 3) == "5" + "";
    assert RunsText(sorted, 0) == "0-2" + ("," + RunsText(sorted, 3));
    assert RunsText(sorted, 0) == "0-2,5";
    assert |sorted| == 4 && |"0-2,5"| == 5;
  }

  lemma SmallDecimals()
    ensures Decimal(0) == "0" && Decimal(2) == "2" && Decimal(5) == "5"
  {
  }

  lemma BitmapForm()
    ensures BitmapField([1], 8) == Some("~Ag")
  {
    hide Base64.Encode;
    assert Blank(8) == [0];
    assert WithBit(0, 1) == 2 by { assert WithBit(0, 0) == 1; }
    assert [1][..0] == [] && MarkedAll([0], [], 8) == [0];
    assert MarkedAll([0], [1], 8) == [2];
    Base64.GroupsFromTheLeft([2]);
    assert Base64.Encode([2]) == "Ag";
    assert "~" + "Ag" == "~Ag" && |"~Ag"| == 3;
    assert MAX_BITMAP_SLOTS == 3048;
  }

  /** As many distinct slots held as the tree has. */
  predicate LooksWhole(held: seq<Index>, total: nat) { total > 0 && |Ordered(held)| == total }

  /** The runs of what is held fit the cap. */
  predicate RunsFit(held: seq<Index>) { |RunsText(Ordered(held), 0)| <= MAX_SERVING_CHARS }

  /** **When a published field is exact**, for any tree and any held indices:
      when they do not look whole and their runs fit, or when every one of them
      is below the size and the size fits 32 bits. */
  lemma FieldIsExactIff(held: seq<Index>, total: nat, field: string)
    requires Published(Ordered(held), total) == Some(field)
    ensures (forall slot: nat :: Says(field, total, slot) <==> slot in held) <==>
            || (!LooksWhole(held, total) && RunsFit(held))
            || (total <= U32_MAX && forall slot :: slot in held ==> slot < total)
  {
    hide RunsText, Says, MarkedAll, Base64.Encode, IsBitmap;
    var sorted := Ordered(held);
    OrderedIsRising(held);
    if total > 0 && |sorted| == total {
      forall slot: nat ensures Says(field, total, slot) <==> slot < total && slot < U32_MAX {
        StarSaysAll(total, slot);
      }
      if total > U32_MAX {
        AllSlotsHeld(sorted, total);
        assert U32_MAX in held && !Says(field, total, U32_MAX);
      }
      if forall slot :: slot in held ==> slot < total {
        AllSlotsHeld(sorted, total);
      }
    } else if |RunsText(sorted, 0)| <= MAX_SERVING_CHARS {
      forall slot: nat ensures Says(field, total, slot) <==> slot in held {
        RunFieldSays(sorted, total, slot);
      }
      RunFieldSays(sorted, total, 0);
    } else {
      forall slot: nat ensures Says(field, total, slot) <==> slot in held && slot < total {
        BitmapFieldSays(sorted, total, slot);
      }
      BitmapFieldSays(sorted, total, 0);
    }
  }

  /** As many distinct indices as slots, all below the size: every slot. */
  lemma AllSlotsHeld(sorted: seq<Index>, total: nat)
    requires Rising(sorted) && |sorted| == total && forall slot :: slot in sorted ==> slot < total
    ensures forall slot: nat :: slot < total ==> slot in sorted
  {
    forall slot: nat | slot < total ensures slot in sorted {
      RisesBetween(sorted, slot, total);
      assert sorted[slot] == slot;
    }
  }

  lemma RisesBetween(sorted: seq<Index>, k: nat, total: nat)
    requires Rising(sorted) && k < |sorted| && forall slot :: slot in sorted ==> slot < total
    ensures k <= sorted[k] <= total - (|sorted| - k)
  {
    AtLeastIts(sorted, k);
    AtMostIts(sorted, k, total);
  }

  lemma {:induction false} AtLeastIts(sorted: seq<Index>, k: nat)
    requires Rising(sorted) && k < |sorted|
    ensures k <= sorted[k]
  {
    if k > 0 {
      AtLeastIts(sorted, k - 1);
    }
  }

  lemma {:induction false} AtMostIts(sorted: seq<Index>, k: nat, total: nat)
    requires Rising(sorted) && k < |sorted| && forall slot :: slot in sorted ==> slot < total
    ensures sorted[k] <= total - (|sorted| - k)
    decreases |sorted| - k
  {
    if k + 1 < |sorted| {
      AtMostIts(sorted, k + 1, total);
    } else {
      assert sorted[k] in sorted;
    }
  }

  /** What is published is within the cap and reads back as what is held; and
      it is always published where a bitmap fits. */
  lemma AvailabilityRoundTrips(held: seq<Index>, total: nat)
    requires total <= U32_MAX && forall slot :: slot in held ==> slot < total
    ensures match Published(Ordered(held), total)
            case Some(field) =>
              |field| <= MAX_SERVING_CHARS && forall slot: nat :: Says(field, total, slot) <==> slot in held
            case None => held == [] || total > MAX_BITMAP_SLOTS
  {
    hide RunsText, Says, MarkedAll, Base64.Encode, IsBitmap;
    OrderedIsRising(held);
    if Published(Ordered(held), total).Some? {
      FieldIsExactIff(held, total, Published(Ordered(held), total).value);
    } else if held != [] && total <= MAX_BITMAP_SLOTS {
      assert held[0] in held;
      assert held[0] in Ordered(held);
      Base64.DecodesBack(MarkedAll(Blank(total), Ordered(held), total));
    }
  }

  /** Neither order nor repeats change what is published. */
  lemma OrderAndRepeatsAreImmaterial(one: seq<Index>, other: seq<Index>, total: nat)
    requires forall slot :: slot in one <==> slot in other
    ensures Published(Ordered(one), total) == Published(Ordered(other), total)
  {
    OrderedIsRising(one);
    OrderedIsRising(other);
    RisingIsUnique(Ordered(one), Ordered(other));
  }

  /** Cutting a bitmap anywhere only makes it claim less. */
  lemma CutBitmapClaimsLess(bits: Bytes, total: nat, n: nat, slot: nat)
    requires n <= |Base64.Encode(bits)| + 1
    ensures Says(("~" + Base64.Encode(bits))[..n], total, slot) ==> Says("~" + Base64.Encode(bits), total, slot)
  {
    hide Base64.Encode, Base64.Unpack, Trim;
    var text := Base64.Encode(bits);
    if n == 0 {
      NothingSaysNothing(total, slot);
      assert ("~" + text)[..n] == "";
    } else {
      CutFieldSays(bits, total, slot, n);
      CutFieldSays(bits, total, slot, |text| + 1);
      assert ("~" + text)[..|text| + 1] == "~" + text && text[..|text|] == text;
      Base64.CutsArePrefixes(0, 0, text, n - 1);
    }
  }

  lemma NothingSaysNothing(total: nat, slot: nat)
    ensures !Says("", total, slot)
  {
    var pieces := Split("", ',');
    assert Trim("") == "" && pieces == [""] && pieces[1..] == [];
    EmptyRunSaysNothing();
    assert !RunsSay(pieces[1..], slot);
  }

  // ----------------------------------------------------------------- methods

  method EncodeBitmap(sorted: seq<Index>, total: nat) returns (field: Option<string>)
    ensures field == BitmapField(sorted, total)
  {
    if total == 0 || total > MAX_BITMAP_SLOTS {
      return None;
    }
    var bits := Blank(total);
    var i := 0;
    while i < |sorted|
      invariant 0 <= i <= |sorted|
      invariant bits == MarkedAll(Blank(total), sorted[..i], total)
    {
      assert sorted[..i + 1][..i] == sorted[..i];
      var slot := sorted[i];
      i := i + 1;
      if slot >= total {
        continue;
      }
      if slot / 8 < |bits| {
        bits := bits[slot / 8 := Marked(bits[slot / 8], slot % 8)];
      }
    }
    assert sorted[..i] == sorted;
    var body := Base64.ToBase64(bits);
    var out := "~" + body;
    field := if |out| <= MAX_SERVING_CHARS then Some(out) else None;
  }

  /** Take the run that starts at `at` off the front. */
  method TakeRun(sorted: seq<Index>, at: nat) returns (end: Index, next: nat)
    requires at < |sorted|
    ensures next == RunEnd(sorted, at) && end == sorted[next - 1]
  {
    end, next := sorted[at], at + 1;
    while next < |sorted| && sorted[next] as int == end as int + 1
      invariant at < next <= |sorted| && end == sorted[next - 1]
      invariant RunEnd(sorted, at) == RunEnd(sorted, next - 1)
    {
      end := sorted[next];
      next := next + 1;
    }
  }

  function Rest(sorted: seq<Index>, at: nat): string
    requires at <= |sorted|
  {
    if at == 0 || at == |sorted| then RunsText(sorted, at) else "," + RunsText(sorted, at)
  }

  /** One more run written, after a comma unless it is the first. */
  lemma Written(sorted: seq<Index>, at: nat, out: string)
    requires at < |sorted| && RunsText(sorted, 0) == out + Rest(sorted, at)
    ensures var end := RunEnd(sorted, at);
            RunsText(sorted, 0) ==
            out + (if at == 0 then "" else ",") + RunText(sorted[at], sorted[end - 1]) + Rest(sorted, end)
  {
    hide Rest, RunText, RunEnd, RunsText;
    RestStep(sorted, at);
    Regrouped(out, if at == 0 then "" else ",", RunText(sorted[at], sorted[RunEnd(sorted, at) - 1]),
              Rest(sorted, RunEnd(sorted, at)));
  }

  lemma Regrouped(out: string, comma: string, run: string, rest: string)
    ensures out + (comma + (run + rest)) == out + comma + run + rest
  {
  }

  lemma RestStep(sorted: seq<Index>, at: nat)
    requires at < |sorted|
    ensures var end := RunEnd(sorted, at);
            Rest(sorted, at) ==
            (if at == 0 then "" else ",") + (RunText(sorted[at], sorted[end - 1]) + Rest(sorted, end))
  {
    hide RunText, RunEnd, RunsText;
    RunsTextStep(sorted, at);
    NoRunsLeft(sorted);
  }

  method WriteRuns(sorted: seq<Index>) returns (field: Option<string>)
    requires sorted != []
    ensures field == if |RunsText(sorted, 0)| <= MAX_SERVING_CHARS then Some(RunsText(sorted, 0)) else None
  {
    hide RunText, RunsText, Rest, RunEnd;
    var out, at := "", 0;
    NoRunsLeft(sorted);
    while at < |sorted|
      invariant 0 <= at <= |sorted|
      invariant out == "" <==> at == 0
      invariant |out| <= MAX_SERVING_CHARS
      invariant RunsText(sorted, 0) == out + Rest(sorted, at)
    {
      Written(sorted, at, out);
      RunTextIsPlain(sorted[at], sorted[RunEnd(sorted, at) - 1]);
      var end, next := TakeRun(sorted, at);
      if out != "" {
        out := out + ",";
      }
      out := out + RunText(sorted[at], end);
      at := next;
      if |out| > MAX_SERVING_CHARS {
        return None;
      }
    }
    assert out + "" == out;
    field := Some(out);
  }

  lemma NoRunsLeft(sorted: seq<Index>)
    ensures RunsText(sorted, |sorted|) == "" && Rest(sorted, |sorted|) == ""
    ensures Rest(sorted, 0) == RunsText(sorted, 0)
  {
  }

  method EncodeServing(held: seq<Index>, total: nat) returns (field: Option<string>)
    ensures field == Published(Ordered(held), total)
  {
    hide Ordered, RunsText, BitmapField;
    OrderedIsRising(held);
    var sorted := SortUnique(held);
    if held == [] {
      HasMember(sorted);
      return None;
    }
    assert held[0] in held;
    if total > 0 && |sorted| == total {
      return Some("*");
    }
    field := WriteRuns(sorted);
    if field.None? {
      field := EncodeBitmap(sorted, total);
    }
  }

  method SortUnique(held: seq<Index>) returns (sorted: seq<Index>)
    ensures sorted == Ordered(held)
  {
    sorted := [];
    for i := 0 to |held|
      invariant sorted == Ordered(held[..i])
    {
      assert held[..i + 1][..i] == held[..i];
      sorted := Inserted(sorted, held[i]);
    }
    assert held[..|held|] == held;
  }

  /** What a field claims, once each and in order. */
  method DecodeServing(encoded: string, total: nat) returns (held: seq<Index>)
    ensures Rising(held)
    ensures forall slot: nat :: slot in held <==> Says(encoded, total, slot)
  {
    var field := Trim(encoded);
    held := [];
    if field == "*" {
      var size := if total <= U32_MAX then total else U32_MAX;
      for slot := 0 to size
        invariant |held| == slot && forall i :: 0 <= i < slot ==> held[i] == i
      {
        held := held + [slot];
      }
      forall slot: nat ensures slot in held <==> slot < size {
        if slot < size {
          assert held[slot] == slot;
        }
      }
    } else if IsBitmap(field) {
      var bits := Base64.FromBase64(field[1..]);
      for slot := 0 to total
        invariant Rising(held) && forall i :: i in held ==> i < slot
        invariant forall i: nat :: i in held <==> i < slot && i <= U32_MAX && BitmapSays(bits, i)
      {
        if BitmapSays(bits, slot) && slot <= U32_MAX {
          RisingSnoc(held, slot);
          held := held + [slot];
        }
      }
    } else {
      held := DecodeRuns(field);
    }
  }

  method DecodeRuns(field: string) returns (sorted: seq<Index>)
    ensures Rising(sorted)
    ensures forall slot: nat :: slot in sorted <==> RunsSay(Split(field, ','), slot)
  {
    hide Split, SplitOnce, Trim, ParseU32, Ordered;
    var runs := Split(field, ',');
    var held: seq<Index> := [];
    var i := 0;
    assert runs[0..] == runs;
    while i < |runs|
      invariant 0 <= i <= |runs|
      invariant forall slot: nat :: RunsSay(runs, slot) <==> slot in held || RunsSay(runs[i..], slot)
    {
      var run := Trim(runs[i]);
      assert runs[i..][0] == runs[i] && runs[i..][1..] == runs[i + 1..];
      i := i + 1;
      if run == "" {
        EmptyRunSaysNothing();
        continue;
      }
      match SplitOnce(run, '-') {
        case Some((start, end)) =>
          if ParseU32(start).None? || ParseU32(end).None? {
            continue;
          }
          var first, last := ParseU32(start).value, ParseU32(end).value;
          if first > last {
            continue;
          }
          var span := Span(first, last);
          held := held + span;
        case None =>
          if ParseU32(run).Some? {
            held := held + [ParseU32(run).value];
          }
      }
    }
    sorted := SortUnique(held);
    OrderedIsRising(held);
  }

  lemma EmptyRunSaysNothing()
    ensures forall slot: nat :: !RunSays("", slot)
  {
  }

  method Span(first: Index, last: Index) returns (span: seq<Index>)
    requires first <= last
    ensures forall slot: nat :: slot in span <==> first <= slot <= last
  {
    span := [];
    for slot := first to last + 1
      invariant forall i: nat :: i in span <==> first <= i < slot
    {
      span := span + [slot];
    }
  }
}
