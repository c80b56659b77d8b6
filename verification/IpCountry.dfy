/** The offline address-to-country table: ranges split over blocks, a dominant
    country per block, and the packed form the page reads back. */
module IpCountry {
  import opened Codec

  const BLOCK: nat := 0x1000
  const BLOCKS: nat := 0x10_0000
  const SPACE: nat := 0x1_0000_0000
  const MAX_CODES: nat := 254

  // ------------------------------------------------------- splitting a range

  /** `address >>> 12`: the value is wrapped to 32 bits before it is shifted. */
  function BlockOf(address: nat): nat { address % SPACE / BLOCK }

  function Least(a: nat, b: nat): nat { if a <= b then a else b }

  function Most(a: nat, b: nat): nat { if a >= b then a else b }

  /** Addresses a range puts in one block. */
  function Overlap(start: nat, end: nat, block: nat): int {
    Least(end, block * BLOCK + BLOCK - 1) - Most(start, block * BLOCK) + 1
  }

  function Split(start: nat, end: nat, block: nat, last: nat): int
    decreases last + 1 - block
  {
    if block > last then 0 else Overlap(start, end, block) + Split(start, end, block + 1, last)
  }

  /** The addresses between the bounds of an overlap are those of the range that
      lie in the block. */
  lemma OverlapIsTheBlockShare(start: nat, end: nat, block: nat, address: nat)
    requires start <= end < SPACE
    ensures start <= address <= end && BlockOf(address) == block <==>
            Most(start, block * BLOCK) <= address <= Least(end, block * BLOCK + BLOCK - 1)
  {
  }

  lemma {:induction false} SplitCovers(start: nat, end: nat, block: nat, last: nat)
    requires start <= end && start <= block * BLOCK + BLOCK - 1 && block <= last && last * BLOCK <= end
    ensures Split(start, end, block, last) ==
            Least(end, last * BLOCK + BLOCK - 1) - Most(start, block * BLOCK) + 1
    decreases last - block
  {
    if block < last {
      SplitCovers(start, end, block + 1, last);
    } else {
      assert Split(start, end, block + 1, last) == 0;
    }
  }

  /** Splitting a range keeps every address exactly when the range ends inside
      the 32-bit space; past it, the last block wraps and addresses are lost. */
  lemma SplittingConservesIff(start: nat, count: nat)
    requires start < SPACE && count > 0
    ensures var end := start + count - 1;
            var placed := Split(start, end, BlockOf(start), BlockOf(end));
            && 0 <= placed <= count
            && (placed == count <==> start + count <= SPACE)
  {
    var end := start + count - 1;
    if BlockOf(start) <= BlockOf(end) {
      SplitCovers(start, end, BlockOf(start), BlockOf(end));
    }
  }

  // ---------------------------------------------------------------- tallies

  /** Addresses per country in one block, in the order first seen. */
  type Tally = seq<(string, nat)>

  function CountIn(t: Tally, cc: string): nat {
    if t == [] then 0 else if t[0].0 == cc then t[0].1 else CountIn(t[1..], cc)
  }

  function WithCount(t: Tally, cc: string, n: nat): Tally {
    if t == [] then [(cc, n)]
    else if t[0].0 == cc then [(cc, t[0].1 + n)] + t[1..]
    else [t[0]] + WithCount(t[1..], cc, n)
  }

  function Sum(t: Tally): nat { if t == [] then 0 else t[0].1 + Sum(t[1..]) }

  lemma {:induction false} WithCountAdds(t: Tally, cc: string, n: nat, other: string)
    ensures CountIn(WithCount(t, cc, n), other) == CountIn(t, other) + if other == cc then n else 0
    ensures Sum(WithCount(t, cc, n)) == Sum(t) + n
    ensures WithCount(t, cc, n) != []
  {
    if t != [] && t[0].0 != cc {
      WithCountAdds(t[1..], cc, n, other);
      assert WithCount(t, cc, n)[1..] == WithCount(t[1..], cc, n);
    } else if t != [] {
      assert WithCount(t, cc, n)[1..] == t[1..];
    }
  }

  /** The countries of a tally, in its order. */
  function CodesOf(t: Tally): seq<string> { if t == [] then [] else [t[0].0] + CodesOf(t[1..]) }

  /** A country new to a block goes last; a known one keeps its place. */
  lemma {:induction false} FirstSeenFirst(t: Tally, cc: string, n: nat)
    ensures CodesOf(WithCount(t, cc, n)) == CodesOf(t) + if cc in CodesOf(t) then [] else [cc]
  {
    if t != [] {
      var rest, tail := t[1..], CodesOf(t[1..]);
      FirstSeenFirst(rest, cc, n);
      assert CodesOf(t) == [t[0].0] + tail;
      if t[0].0 == cc {
        assert WithCount(t, cc, n)[1..] == rest;
      } else {
        assert WithCount(t, cc, n)[1..] == WithCount(rest, cc, n);
        assert cc in CodesOf(t) <==> cc in tail;
      }
    }
  }

  type Weights = map<nat, Tally>

  function At(w: Weights, block: nat): Tally { if block in w then w[block] else [] }

  /** A sum over the tallies of all blocks below `n`. */
  function Total(w: Weights, of: Tally -> nat, n: nat): nat {
    if n == 0 then 0 else Total(w, of, n - 1) + if n - 1 in w then of(w[n - 1]) else 0
  }

  lemma {:induction false} TotalUpdated(w: Weights, of: Tally -> nat, n: nat, block: nat, t: Tally)
    ensures Total(w[block := t], of, n) ==
            Total(w, of, n) + if block < n then of(t) - (if block in w then of(w[block]) else 0) else 0
  {
    if n > 0 {
      TotalUpdated(w, of, n - 1, block, t);
    }
  }

  predicate InSpace(w: Weights) { forall b :: b in w ==> b < BLOCKS && w[b] != [] }

  class Builder {
    var weights: Weights

    constructor ()
      ensures weights == map[]
    {
      weights := map[];
    }

    /** Spread one row of a registry over the blocks it touches. */
    method AddRange(cc: string, start: nat, count: nat)
      requires start < SPACE && count > 0 && InSpace(weights)
      modifies this
      ensures InSpace(weights)
      ensures forall b: nat, country ::
          CountIn(At(weights, b), country) == CountIn(At(old(weights), b), country) +
            if country == cc && BlockOf(start) <= b <= BlockOf(start + count - 1)
            then Overlap(start, start + count - 1, b) else 0
      ensures forall b :: b in weights <==> b in old(weights) || BlockOf(start) <= b <= BlockOf(start + count - 1)
      ensures Total(weights, Sum, BLOCKS) ==
              Total(old(weights), Sum, BLOCKS)
              + Split(start, start + count - 1, BlockOf(start), BlockOf(start + count - 1))
    {
      hide CountIn, WithCount, Sum, Total, Overlap;
      var end := start + count - 1;
      var block, last := BlockOf(start), BlockOf(end);
      ghost var first := block;
      while block <= last
        invariant first <= block
        invariant InSpace(weights)
        invariant forall b, country ::
            CountIn(At(weights, b), country) == CountIn(At(old(weights), b), country)
              + if country == cc && first <= b <= last && b < block then Overlap(start, end, b) else 0
        invariant forall b :: b in weights <==> b in old(weights) || (first <= b <= last && b < block)
        invariant Total(weights, Sum, BLOCKS) + Split(start, end, block, last) ==
                  Total(old(weights), Sum, BLOCKS) + Split(start, end, first, last)
        decreases if block <= last then last - block + 1 else 0
      {
        OverlapIsPositive(start, end, block);
        var n: nat := Overlap(start, end, block);
        ghost var before := weights;
        PutCounts(before, block, cc, n);
        weights := weights[block := WithCount(At(weights, block), cc, n)];
        block := block + 1;
      }
    }
  }

  lemma OverlapIsPositive(start: nat, end: nat, block: nat)
    requires start <= end && BlockOf(start) <= block <= BlockOf(end) && start < SPACE
    ensures Overlap(start, end, block) > 0 && block < BLOCKS
  {
  }

  lemma PutCounts(w: Weights, block: nat, cc: string, n: nat)
    requires block < BLOCKS && InSpace(w)
    ensures var after := w[block := WithCount(At(w, block), cc, n)];
            && InSpace(after)
            && Total(after, Sum, BLOCKS) == Total(w, Sum, BLOCKS) + n
            && (forall b, country :: CountIn(At(after, b), country) ==
                  CountIn(At(w, b), country) + if b == block && country == cc then n else 0)
  {
    hide Total, CountIn, WithCount;
    var t := WithCount(At(w, block), cc, n);
    WithCountAdds(At(w, block), cc, n, cc);
    TotalUpdated(w, Sum, BLOCKS, block, t);
    forall country ensures CountIn(t, country) == CountIn(At(w, block), country) + if country == cc then n else 0 {
      WithCountAdds(At(w, block), cc, n, country);
    }
  }

  // ------------------------------------------------------- dominant country

  /** The first of the heaviest among the first `n`. */
  ghost predicate Leads(t: Tally, n: nat, best: nat)
    requires n <= |t|
  {
    && best < n
    && (forall i :: 0 <= i < n ==> t[i].1 <= t[best].1)
    && (forall i :: 0 <= i < best ==> t[i].1 < t[best].1)
  }

  ghost predicate IsDominant(t: Tally, best: nat) { Leads(t, |t|, best) }

  function Dominant(t: Tally): (best: nat)
    requires t != []
    ensures IsDominant(t, best)
  {
    if |t| == 1 then 0
    else
      var rest := Dominant(t[1..]);
      if t[0].1 >= t[1..][rest].1 then 0 else rest + 1
  }

  lemma DominantIsUnique(t: Tally, a: nat, b: nat)
    requires IsDominant(t, a) && IsDominant(t, b)
    ensures a == b
  {
    assert t[a].1 <= t[b].1 <= t[a].1;
  }

  function BestCount(t: Tally): nat { if t == [] then 0 else t[Dominant(t)].1 }

  lemma {:induction false} PartOfTheSum(t: Tally, i: nat)
    requires i < |t|
    ensures t[i].1 <= Sum(t)
  {
    if i > 0 {
      PartOfTheSum(t[1..], i - 1);
    }
  }

  /** Addresses attributed to a dominant country never exceed the addresses. */
  lemma {:induction false} AttributedIsPart(w: Weights, n: nat)
    ensures Total(w, BestCount, n) <= Total(w, Sum, n)
  {
    if n > 0 {
      AttributedIsPart(w, n - 1);
      if n - 1 in w && w[n - 1] != [] {
        PartOfTheSum(w[n - 1], Dominant(w[n - 1]));
      }
    }
  }

  /** Countries are known by their place in a list, from one; zero is unknown. */
  ghost predicate Names(codes: seq<string>, w: Weights) {
    && (forall i, j :: 0 <= i < j < |codes| ==> codes[i] != codes[j])
    && (forall b, i :: b in w && 0 <= i < |w[b]| ==> w[b][i].0 in codes)
  }

  function IndexOf(codes: seq<string>, cc: string): (i: nat)
    requires cc in codes
    ensures i < |codes| && codes[i] == cc
  {
    if codes[0] == cc then 0 else 1 + IndexOf(codes[1..], cc)
  }

  /** The byte a block gets: zero where nothing is known, else the place of a
      heaviest country of the block. */
  ghost predicate Coded(codes: seq<string>, w: Weights, block: nat, code: byte) {
    if block !in w then code == 0
    else 1 <= code <= |codes| && exists best: nat :: IsDominant(w[block], best) && w[block][best].0 == codes[code - 1]
  }

  method PickDominant(t: Tally) returns (best: string, bestCount: nat, sum: nat)
    requires t != []
    ensures (best, bestCount) == t[Dominant(t)] && sum == Sum(t)
  {
    hide Dominant, Sum;
    best, sum := "", 0;
    var most: int := -1;
    ghost var at := 0;
    var i := 0;
    assert t[0..] == t;
    while i < |t|
      invariant 0 <= i <= |t|
      invariant i == 0 ==> most == -1
      invariant i > 0 ==> Leads(t, i, at) && best == t[at].0 && most == t[at].1
      invariant sum + Sum(t[i..]) == Sum(t)
    {
      SumStep(t, i);
      var (cc, count) := t[i];
      sum := sum + count;
      if count > most {
        best, most, at := cc, count, i;
      }
      i := i + 1;
    }
    SumStep(t, |t|);
    DominantIsUnique(t, at, Dominant(t));
    bestCount := most;
  }

  lemma SumStep(t: Tally, i: nat)
    requires i <= |t|
    ensures Sum(t[i..]) == if i == |t| then 0 else t[i].1 + Sum(t[i + 1..])
  {
    if i < |t| {
      assert t[i..][1..] == t[i + 1..];
    }
  }

  ghost predicate AllCoded(codes: seq<string>, w: Weights, table: Bytes) {
    forall b :: 0 <= b < |table| ==> Coded(codes, w, b, table[b])
  }

  lemma CodedNext(codes: seq<string>, w: Weights, table: Bytes, block: nat, t: Tally, code: byte)
    requires AllCoded(codes, w, table) && block < |table| && t != []
    requires 1 <= code <= |codes| && t[Dominant(t)].0 == codes[code - 1]
    ensures AllCoded(codes, w[block := t], table[block := code])
  {
    hide Coded;
    var after, coded := w[block := t], table[block := code];
    forall b | 0 <= b < |coded| ensures Coded(codes, after, b, coded[b]) {
      assert Coded(codes, w, b, table[b]);
      if b == block {
        CodedHere(codes, after, block, t, code);
      } else {
        CodedElsewhere(codes, w, after, b, table[b]);
      }
    }
  }

  lemma CodedHere(codes: seq<string>, w: Weights, block: nat, t: Tally, code: byte)
    requires block in w && w[block] == t && t != []
    requires 1 <= code <= |codes| && t[Dominant(t)].0 == codes[code - 1]
    ensures Coded(codes, w, block, code)
  {
    hide Dominant, IsDominant;
    assert IsDominant(w[block], Dominant(t));
  }

  lemma CodedElsewhere(codes: seq<string>, w: Weights, after: Weights, b: nat, code: byte)
    requires Coded(codes, w, b, code) && (b in w <==> b in after) && (b in w ==> w[b] == after[b])
    ensures Coded(codes, after, b, code)
  {
  }

  /** One more block taken into the sums. */
  lemma TotalsNext(done: Weights, block: nat, t: Tally, size: nat)
    requires block !in done && block < size && t != []
    ensures var after := done[block := t];
            && Total(after, Sum, size) == Total(done, Sum, size) + Sum(t)
            && Total(after, BestCount, size) == Total(done, BestCount, size) + t[Dominant(t)].1
  {
    hide Total, Sum, Dominant;
    TotalUpdated(done, Sum, size, block, t);
    TotalUpdated(done, BestCount, size, block, t);
  }

  method MarkBlock(t: Tally, codes: seq<string>, block: nat, table: array<byte>)
    returns (bestCount: nat, sum: nat)
    requires t != [] && (forall i :: 0 <= i < |t| ==> t[i].0 in codes)
    requires |codes| <= MAX_CODES && block < table.Length
    modifies table
    ensures table[..] == old(table[..])[block := table[block]]
    ensures 1 <= table[block] <= |codes| && codes[table[block] - 1] == t[Dominant(t)].0
    ensures bestCount == t[Dominant(t)].1 && sum == Sum(t)
  {
    hide Dominant, Sum;
    var best, count, all := PickDominant(t);
    table[block] := IndexOf(codes, best) + 1;
    bestCount, sum := count, all;
  }

  /** Fill the table; blocks may be visited in any order. */
  method BuildTable(w: Weights, codes: seq<string>, size: nat)
    returns (table: array<byte>, covered: nat, attributed: nat, total: nat)
    requires (forall b :: b in w ==> b < size && w[b] != []) && Names(codes, w) && |codes| <= MAX_CODES
    ensures fresh(table) && table.Length == size
    ensures forall b :: 0 <= b < size && b !in w ==> table[b] == 0
    ensures forall b :: b in w ==> 1 <= table[b] <= |codes| && codes[table[b] - 1] == w[b][Dominant(w[b])].0
    ensures covered == |w| && total == Total(w, Sum, size) && attributed == Total(w, BestCount, size)
  {
    hide Sum, Total, BestCount, Dominant, AllCoded, Visited;
    table := new byte[size](_ => 0);
    covered, attributed, total := 0, 0, 0;
    var todo := w.Keys;
    NothingVisited(w);
    NothingTotals(Sum, size);
    NothingTotals(BestCount, size);
    NothingCoded(codes, table[..]);
    while todo != {}
      invariant todo <= w.Keys && covered + |todo| == |w|
      invariant AllCoded(codes, Visited(w, todo), table[..])
      invariant total == Total(Visited(w, todo), Sum, size)
      invariant attributed == Total(Visited(w, todo), BestCount, size)
      decreases |todo|
    {
      var block :| block in todo;
      ghost var bytes := table[..];
      var bestCount, sum := MarkBlock(w[block], codes, block, table);
      OneMoreVisited(w, todo, block);
      TotalsNext(Visited(w, todo), block, w[block], size);
      CodedNext(codes, Visited(w, todo), bytes, block, w[block], table[block]);
      covered, attributed, total := covered + 1, attributed + bestCount, total + sum;
      todo := todo - {block};
    }
    CodedNames(codes, w, table[..]);
  }

  lemma CodedNames(codes: seq<string>, w: Weights, table: Bytes)
    requires AllCoded(codes, w, table) && forall b :: b in w ==> b < |table| && w[b] != []
    ensures forall b :: 0 <= b < |table| && b !in w ==> table[b] == 0
    ensures forall b :: b in w ==> 1 <= table[b] <= |codes| && codes[table[b] - 1] == w[b][Dominant(w[b])].0
  {
    hide Dominant;
    forall b | b in w ensures 1 <= table[b] <= |codes| && codes[table[b] - 1] == w[b][Dominant(w[b])].0 {
      assert Coded(codes, w, b, table[b]);
      var best: nat :| IsDominant(w[b], best) && w[b][best].0 == codes[table[b] - 1];
      DominantIsUnique(w[b], best, Dominant(w[b]));
    }
    forall b | 0 <= b < |table| && b !in w ensures table[b] == 0 {
      assert Coded(codes, w, b, table[b]);
    }
  }

  /** The blocks already visited. */
  function Visited(w: Weights, todo: set<nat>): Weights { map b | b in w && b !in todo :: w[b] }

  lemma NothingVisited(w: Weights)
    ensures Visited(w, w.Keys) == map[] && Visited(w, {}) == w && |w.Keys| == |w|
  {
  }

  lemma OneMoreVisited(w: Weights, todo: set<nat>, block: nat)
    requires block in todo && todo <= w.Keys
    ensures block !in Visited(w, todo)
    ensures Visited(w, todo - {block}) == Visited(w, todo)[block := w[block]]
  {
  }

  lemma NothingCoded(codes: seq<string>, table: Bytes)
    requires forall b :: 0 <= b < |table| ==> table[b] == 0
    ensures AllCoded(codes, map[], table)
  {
  }

  lemma {:induction false} NothingTotals(of: Tally -> nat, n: nat)
    ensures Total(map[], of, n) == 0
  {
    if n > 0 {
      NothingTotals(of, n - 1);
    }
  }

  // ------------------------------------------------------------------ packing

  function Varint(v: nat): Bytes {
    if v < 128 then [v] else [v % 128 + 128] + Varint(v / 128)
  }

  /** A missing byte reads as zero. */
  function ByteAt(b: Bytes, i: nat): byte { if i < |b| then b[i] else 0 }

  function ReadVarint(b: Bytes, at: nat): (nat, nat)
    decreases if at < |b| then |b| - at else 0
  {
    var low := ByteAt(b, at);
    if low < 128 then (low, at + 1)
    else var (high, next) := ReadVarint(b, at + 1); (low - 128 + 128 * high, next)
  }

  lemma {:induction false} VarintReadsBack(before: Bytes, v: nat, after: Bytes)
    ensures ReadVarint(before + Varint(v) + after, |before|) == (v, |before| + |Varint(v)|)
    decreases v
  {
    var b := before + Varint(v) + after;
    if v >= 128 {
      var first := [v % 128 + 128];
      VarintReadsBack(before + first, v / 128, after);
      assert b == before + first + Varint(v / 128) + after;
    }
    assert b[|before|] == Varint(v)[0];
  }

  /** How far the run at `at` goes on. */
  function RunEnd(table: Bytes, at: nat): (end: nat)
    requires at < |table|
    ensures at < end <= |table|
    ensures forall k :: at <= k < end ==> table[k] == table[at]
    ensures end < |table| ==> table[end] != table[at]
    decreases |table| - at
  {
    if at + 1 < |table| && table[at + 1] == table[at] then RunEnd(table, at + 1) else at + 1
  }

  type Runs = seq<(nat, byte)>

  function RunsOf(table: Bytes, at: nat): Runs
    requires at <= |table|
    decreases |table| - at
  {
    if at == |table| then [] else [(RunEnd(table, at) - at, table[at])] + RunsOf(table, RunEnd(table, at))
  }

  function Packed(runs: Runs): Bytes {
    if runs == [] then [] else Varint(runs[0].0) + [runs[0].1] + Packed(runs[1..])
  }

  function Lengths(runs: Runs): nat { if runs == [] then 0 else runs[0].0 + Lengths(runs[1..]) }

  function Repeated(code: byte, n: nat): Bytes { seq(n, _ => code) }

  /** The table the reader fills, from place `out` on, out of the stream at `at`. */
  function Unpacked(packed: Bytes, at: nat, blocks: Bytes, out: nat): (filled: Bytes)
    ensures |filled| == |blocks|
    decreases if at < |packed| then |packed| - at else 0
  {
    if at >= |packed| || out >= |blocks| then blocks
    else
      var (run, next) := ReadVarint(packed, at);
      ReadsOn(packed, at);
      var end := Least(out + run, |blocks|);
      Unpacked(packed, next + 1, blocks[..out] + Repeated(ByteAt(packed, next), end - out) + blocks[end..], out + run)
  }

  lemma {:induction false} ReadsOn(b: Bytes, at: nat)
    ensures ReadVarint(b, at).1 > at
    decreases if at < |b| then |b| - at else 0
  {
    if ByteAt(b, at) >= 128 {
      ReadsOn(b, at + 1);
    }
  }

  /** Run lengths sum to the table, no run is empty, neighbouring runs differ. */
  lemma {:induction false} RunsAreMaximal(table: Bytes, at: nat)
    requires at <= |table|
    ensures var runs := RunsOf(table, at);
            && Lengths(runs) == |table| - at
            && (forall i :: 0 <= i < |runs| ==> runs[i].0 > 0)
            && (forall i :: 0 <= i < |runs| - 1 ==> runs[i].1 != runs[i + 1].1)
            && (at < |table| ==> runs != [] && runs[0].1 == table[at])
    decreases |table| - at
  {
    if at < |table| {
      var end := RunEnd(table, at);
      RunsAreMaximal(table, end);
    }
  }

  lemma RunsStep(t: Bytes, at: nat)
    requires at < |t|
    ensures RunsOf(t, at) == [(RunEnd(t, at) - at, t[at])] + RunsOf(t, RunEnd(t, at))
  {
    hide RunEnd, Varint, ReadVarint, Packed, Unpacked, Lengths;
    var end := RunEnd(t, at);
    assert RunsOf(t, at) == [(end - at, t[at])] + RunsOf(t, end);
  }

  lemma PackedCons(length: nat, code: byte, rest: Runs)
    ensures Packed([(length, code)] + rest) == Varint(length) + [code] + Packed(rest)
  {
    assert ([(length, code)] + rest)[1..] == rest;
  }

  lemma PackedStep(t: Bytes, at: nat)
    requires at < |t|
    ensures var end := RunEnd(t, at);
            && |RunsOf(t, at)| == 1 + |RunsOf(t, end)|
            && Packed(RunsOf(t, at)) == Varint(end - at) + [t[at]] + Packed(RunsOf(t, end))
  {
    hide RunEnd, Varint, RunsOf, Packed;
    RunsStep(t, at);
    PackedCons(RunEnd(t, at) - at, t[at], RunsOf(t, RunEnd(t, at)));
  }

  lemma PackedEnd(t: Bytes)
    ensures RunsOf(t, |t|) == [] && Packed([]) == []
  {
  }

  lemma RunEndStep(t: Bytes, at: nat)
    requires at < |t|
    ensures RunEnd(t, at) == if at + 1 < |t| && t[at + 1] == t[at] then RunEnd(t, at + 1) else at + 1
  {
  }

  lemma {:induction false} UnpacksFrom(table: Bytes, before: Bytes, at: nat, blocks: Bytes)
    requires at <= |table| == |blocks| && blocks[..at] == table[..at]
    ensures Unpacked(before + Packed(RunsOf(table, at)), |before|, blocks, at) == table
    decreases |table| - at
  {
    hide Varint, ReadVarint, RunEnd, RunsOf, Packed;
    var packed := before + Packed(RunsOf(table, at));
    if at == |table| {
      PackedEnd(table);
      assert blocks[..at] == blocks && table[..at] == table;
    } else {
      var end := RunEnd(table, at);
      var head, tail := Varint(end - at), Packed(RunsOf(table, end));
      PackedStep(table, at);
      assert packed == before + head + ([table[at]] + tail);
      VarintReadsBack(before, end - at, [table[at]] + tail);
      VarintIsSomething(end - at);
      assert ByteAt(packed, |before| + |head|) == table[at];
      var filled := blocks[..at] + Repeated(table[at], end - at) + blocks[end..];
      assert filled[..end] == table[..end];
      assert packed == before + head + [table[at]] + tail;
      UnpacksFrom(table, before + head + [table[at]], end, filled);
    }
  }

  lemma VarintIsSomething(v: nat)
    ensures Varint(v) != []
  {
  }

  lemma VarintStep(v: nat)
    ensures Varint(v) == if v / 128 == 0 then [v % 128] else [v % 128 + 128] + Varint(v / 128)
  {
  }

  /** Seven bits to a byte, the low ones first, and a high bit on all but the last. */
  lemma VarintLayout(low: nat, high: nat)
    requires low < 128
    ensures Varint(low) == [low]
    ensures high > 0 ==> Varint(low + 128 * high) == [low + 128] + Varint(high)
  {
    hide Varint;
    VarintStep(low);
    VarintStep(low + 128 * high);
    assert (low + 128 * high) % 128 == low && (low + 128 * high) / 128 == high;
  }

  /** Reading the packed stream gives the whole table back. */
  lemma TableReadsBack(table: Bytes, blank: Bytes)
    requires |blank| == |table|
    ensures Unpacked(Packed(RunsOf(table, 0)), 0, blank, 0) == table
  {
    UnpacksFrom(table, [], 0, blank);
    assert [] + Packed(RunsOf(table, 0)) == Packed(RunsOf(table, 0));
  }

  method WriteVarint(value: nat) returns (out: Bytes)
    ensures out == Varint(value)
  {
    hide Varint;
    out := [];
    var v := value;
    while true
      invariant out + Varint(v) == Varint(value)
      decreases v
    {
      VarintStep(v);
      var low := v % 128;
      v := v / 128;
      if v == 0 {
        out := out + [low];
        return;
      }
      out := out + [low + 128];
    }
  }

  method PackTable(table: array<byte>) returns (rle: Bytes, runs: nat)
    ensures rle == Packed(RunsOf(table[..], 0)) && runs == |RunsOf(table[..], 0)|
  {
    hide Varint, RunsOf, RunEnd, Packed;
    ghost var t := table[..];
    rle, runs := [], 0;
    var i := 0;
    PackedEnd(t);
    while i < table.Length
      invariant 0 <= i <= table.Length
      invariant rle + Packed(RunsOf(t, i)) == Packed(RunsOf(t, 0))
      invariant runs + |RunsOf(t, i)| == |RunsOf(t, 0)|
    {
      var j := i;
      while j + 1 < table.Length && table[j + 1] == table[i]
        invariant i <= j < table.Length && t[j] == t[i]
        invariant RunEnd(t, i) == RunEnd(t, j)
      {
        RunEndStep(t, j);
        j := j + 1;
      }
      RunEndStep(t, j);
      PackedStep(t, i);
      var head := WriteVarint(j - i + 1);
      rle := rle + head + [table[i]];
      runs := runs + 1;
      i := j + 1;
    }
  }

  /** Past the end of a stream everything reads as zero, and takes its one place. */
  lemma PastTheEnd(b: Bytes, at: nat)
    requires at >= |b|
    ensures ReadVarint(b, at) == (0, at + 1) && ByteAt(b, at) == 0
  {
  }

  method Fill(blocks: array<byte>, code: byte, from: nat, to: nat)
    requires from <= to <= blocks.Length
    modifies blocks
    ensures blocks[..] == old(blocks[..])[..from] + Repeated(code, to - from) + old(blocks[..])[to..]
  {
    for k := from to to
      invariant forall i :: 0 <= i < blocks.Length ==>
                  blocks[i] == if from <= i < k then code else old(blocks[i])
    {
      blocks[k] := code;
    }
  }

  /** The page's reader, filling a blank table in place. */
  method LoadTable(packed: Bytes, size: nat) returns (blocks: array<byte>)
    ensures fresh(blocks) && blocks.Length == size
    ensures blocks[..] == Unpacked(packed, 0, Repeated(0, size), 0)
  {
    hide ReadVarint, ByteAt;
    blocks := new byte[size](_ => 0);
    assert blocks[..] == Repeated(0, size);
    var at: nat, out: nat := 0, 0;
    while at < |packed| && out < blocks.Length
      invariant Unpacked(packed, at, blocks[..], out) == Unpacked(packed, 0, Repeated(0, size), 0)
      decreases |packed| - at
    {
      ReadsOn(packed, at);
      var run, next := ReadRun(packed, at);
      var code := ByteAt(packed, next);
      var end := Least(out + run, blocks.Length);
      Fill(blocks, code, out, end);
      at, out := next + 1, out + run;
    }
  }

  /** One run length, low bits first. */
  method ReadRun(packed: Bytes, start: nat) returns (run: nat, at: nat)
    ensures (run, at) == ReadVarint(packed, start)
  {
    run, at := 0, start;
    var weight := 1;
    while true
      invariant weight > 0 && start <= at
      invariant ReadVarint(packed, start) == (run + weight * ReadVarint(packed, at).0, ReadVarint(packed, at).1)
      decreases if at < |packed| then |packed| - at else 0
    {
      var low := ByteAt(packed, at);
      ghost var rest := ReadVarint(packed, at + 1).0;
      at := at + 1;
      if low < 128 {
        run := run + weight * low;
        return;
      }
      Shifted(weight, low - 128, rest);
      run, weight := run + weight * (low - 128), weight * 128;
    }
  }

  lemma Shifted(weight: nat, low: nat, rest: nat)
    ensures weight * (low + 128 * rest) == weight * low + (weight * 128) * rest
  {
  }
}
