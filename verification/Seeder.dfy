/** A peer that serves byte ranges, chunks and a watch feed out of what it has. */
module Seeder {
  import opened Wrappers
  import opened Codec
  import opened Chunks
  import opened Framing
  import Swarm

  const MAX_READ_LEN: nat := 256 * 1024

  datatype ReadStatus = Served | BadIndex | LenOverCap

  // ------------------------------------------------------------ reading a range

  function Min(a: nat, b: nat): nat { if a < b then a else b }

  function SaturatingAdd(a: nat, b: nat): nat { Min(a + b, U64_MAX) }

  /** The bytes of a row from `cursor` to `end`, chunk by chunk; nothing at all if
      any chunk on the way is missing or too short. */
  function ReadFrom(row: Row, chunks: map<Address, Bytes>, cursor: nat, end: nat): Option<Bytes>
    decreases end - cursor
  {
    if cursor >= end then Some([]) else
    var position := cursor / CHUNK;
    if position >= |row.leaves| || row.leaves[position] !in chunks then None else
    var chunk := chunks[row.leaves[position]];
    var within := cursor - RangeStart(position);
    var take := Min(end - cursor, if |chunk| < within then 0 else |chunk| - within);
    if take == 0 then None else
    match ReadFrom(row, chunks, cursor + take, end)
    case None => None
    case Some(rest) => Some(chunk[within..within + take] + rest)
  }

  /** Never a short answer, whatever the row or the store: all of the range or
      none of it. */
  lemma {:induction false} NeverShort(row: Row, chunks: map<Address, Bytes>, cursor: nat, end: nat)
    requires cursor <= end
    ensures var r := ReadFrom(row, chunks, cursor, end); r.Some? ==> |r.value| == end - cursor
    decreases end - cursor
  {
    if cursor < end && cursor / CHUNK < |row.leaves| && row.leaves[cursor / CHUNK] in chunks {
      var chunk := chunks[row.leaves[cursor / CHUNK]];
      var within := cursor - RangeStart(cursor / CHUNK);
      var take := Min(end - cursor, if |chunk| < within then 0 else |chunk| - within);
      if take > 0 {
        NeverShort(row, chunks, cursor + take, end);
      }
    }
  }

  /** Every chunk the range touches is held. */
  predicate RangeHeld(row: Row, chunks: map<Address, Bytes>, cursor: nat, end: nat) {
    forall i: nat :: cursor / CHUNK <= i < |row.leaves| && cursor < end && RangeStart(i) < end ==>
      row.leaves[i] in chunks
  }

  lemma ChunkIsFile(row: Row, file: Bytes, hash: Bytes -> Address, store: Store, position: nat)
    requires Describes(row, file, hash) && store.Sound(hash) && Injective(hash)
    requires position < |row.leaves| && row.leaves[position] in store.chunks
    ensures store.chunks[row.leaves[position]] == file[RangeStart(position)..RangeEnd(row, position)]
  {
    assert hash(store.chunks[row.leaves[position]]) == row.leaves[position];
  }

  lemma PositionOf(row: Row, cursor: nat)
    requires WellSized(row) && cursor < row.size
    ensures cursor / CHUNK < |row.leaves|
    ensures RangeStart(cursor / CHUNK) <= cursor < RangeEnd(row, cursor / CHUNK)
  {
  }

  /** How far one chunk takes a read. */
  function Stride(row: Row, cursor: nat, end: nat): (n: nat)
    requires WellSized(row) && cursor < end <= row.size
    ensures 0 < n <= end - cursor
  {
    PositionOf(row, cursor);
    Min(end - cursor, RangeEnd(row, cursor / CHUNK) - cursor)
  }

  lemma ReadStep(row: Row, file: Bytes, hash: Bytes -> Address, store: Store, cursor: nat, end: nat)
    requires Describes(row, file, hash) && store.Sound(hash) && Injective(hash)
    requires cursor < end <= |file|
    ensures var next := cursor + Stride(row, cursor, end);
            && cursor / CHUNK < |row.leaves|
            && ReadFrom(row, store.chunks, cursor, end) ==
               if row.leaves[cursor / CHUNK] !in store.chunks then None
               else match ReadFrom(row, store.chunks, next, end)
                    case None => None
                    case Some(rest) => Some(file[cursor..next] + rest)
  {
    PositionOf(row, cursor);
    var position := cursor / CHUNK;
    if row.leaves[position] in store.chunks {
      ChunkIsFile(row, file, hash, store, position);
      var within, take := cursor - RangeStart(position), Stride(row, cursor, end);
      SliceOfSlice(file, RangeStart(position), RangeEnd(row, position), within, take);
    }
  }

  lemma SliceOfSlice(file: Bytes, start: nat, end: nat, within: nat, take: nat)
    requires start + within + take <= end <= |file|
    ensures file[start..end][within..within + take] == file[start + within..start + within + take]
  {
    var piece, slice := file[start..end][within..within + take], file[start + within..start + within + take];
    assert |piece| == |slice| && forall k :: 0 <= k < take ==> piece[k] == slice[k];
  }

  lemma HeldFromNext(row: Row, chunks: map<Address, Bytes>, cursor: nat, end: nat)
    requires WellSized(row) && cursor < end <= row.size && cursor / CHUNK < |row.leaves|
    ensures RangeHeld(row, chunks, cursor, end) <==>
            row.leaves[cursor / CHUNK] in chunks && RangeHeld(row, chunks, cursor + Stride(row, cursor, end), end)
  {
    PositionOf(row, cursor);
    var position, next := cursor / CHUNK, cursor + Stride(row, cursor, end);
    assert next < end ==> next / CHUNK == position + 1;
    assert position <= next / CHUNK;
  }

  /** A range reads back exactly the file's bytes when every chunk it touches is
      held, and nothing otherwise. */
  lemma {:induction false} ReadsTheFile(row: Row, file: Bytes, hash: Bytes -> Address, store: Store,
                                        cursor: nat, end: nat)
    requires Describes(row, file, hash) && store.Sound(hash) && Injective(hash)
    requires cursor <= end <= |file|
    ensures ReadFrom(row, store.chunks, cursor, end) ==
            if cursor == end || RangeHeld(row, store.chunks, cursor, end) then Some(file[cursor..end]) else None
    decreases end - cursor
  {
    if cursor < end {
      var n := StrideOf(row, file, hash, cursor, end);
      ReadsTheFile(row, file, hash, store, cursor + n, end);
      ReadsBoth(row, file, hash, store, cursor, end);
    } else {
      assert file[cursor..end] == [];
    }
  }

  lemma StrideOf(row: Row, file: Bytes, hash: Bytes -> Address, cursor: nat, end: nat) returns (n: nat)
    requires Describes(row, file, hash) && cursor < end <= |file|
    ensures WellSized(row) && row.size == |file| && n == Stride(row, cursor, end)
  {
    n := Stride(row, cursor, end);
  }

  /** One chunk, and the rest of the range after it. */
  lemma ReadsBoth(row: Row, file: Bytes, hash: Bytes -> Address, store: Store, cursor: nat, end: nat)
    requires Describes(row, file, hash) && store.Sound(hash) && Injective(hash)
    requires cursor < end <= |file|
    requires var next := cursor + Stride(row, cursor, end);
             ReadFrom(row, store.chunks, next, end) ==
             if next == end || RangeHeld(row, store.chunks, next, end) then Some(file[next..end]) else None
    ensures ReadFrom(row, store.chunks, cursor, end) ==
            if RangeHeld(row, store.chunks, cursor, end) then Some(file[cursor..end]) else None
  {
    hide ReadFrom, RangeHeld, Injective, Store.Sound, RangeStart, RangeEnd;
    var n := StrideOf(row, file, hash, cursor, end);
    var next := cursor + n;
    ReadStep(row, file, hash, store, cursor, end);
    HeldFromNext(row, store.chunks, cursor, end);
    if next == end {
      NothingLeftToHold(row, store.chunks, next, end);
    }
    assert file[cursor..next] + file[next..end] == file[cursor..end];
  }

  lemma NothingLeftToHold(row: Row, chunks: map<Address, Bytes>, cursor: nat, end: nat)
    requires end <= cursor
    ensures RangeHeld(row, chunks, cursor, end)
  {
  }

  datatype Answer = Answer(status: ReadStatus, bytes: Bytes, hole: bool)

  /** What a READ of a slot is answered with, and whether it is reported. */
  function Answered(rows: map<nat, Row>, chunks: map<Address, Bytes>, index: nat, offset: nat, len: nat): Answer {
    if len > MAX_READ_LEN then Answer(LenOverCap, [], false)
    else if index !in rows then Answer(BadIndex, [], false)
    else if offset >= rows[index].size || len == 0 then Answer(Served, [], false)
    else
      match ReadFrom(rows[index], chunks, offset, Min(SaturatingAdd(offset, len), rows[index].size))
      case None => Answer(BadIndex, [], true)
      case Some(bytes) => Answer(Served, bytes, false)
  }

  /** **A read is the file or a refusal.** In-cap reads of a known slot return
      `file[offset .. min(offset + len, size)]`, for every offset, when the
      chunks touched are held, and otherwise an empty refusal and one report. */
  lemma ReadsAreExact(rows: map<nat, Row>, store: Store, file: Bytes, hash: Bytes -> Address,
                      index: nat, offset: nat, len: nat)
    requires index in rows && len <= MAX_READ_LEN
    requires Describes(rows[index], file, hash) && store.Sound(hash) && Injective(hash)
    ensures var end := Min(offset + len, |file|);
            Answered(rows, store.chunks, index, offset, len) ==
            if offset >= end then Answer(Served, [], false)
            else if RangeHeld(rows[index], store.chunks, offset, end) then
              Answer(Served, file[offset..end], false)
            else Answer(BadIndex, [], true)
  {
    var end := Min(offset + len, |file|);
    if offset < end {
      ReadsTheFile(rows[index], file, hash, store, offset, end);
    }
  }

  // ------------------------------------------------------------ what is claimed

  /** Whether the store holds all of a row, counted against the row. */
  predicate Complete(store: Store, row: Row) {
    |store.CoverageOf(Root(row))| == |row.leaves|
  }

  /** A slot fit for the card never refuses an in-cap read, whatever the offset. */
  lemma CompleteSlotsNeverRefuse(rows: map<nat, Row>, store: Store, file: Bytes, hash: Bytes -> Address,
                                 index: nat, offset: nat, len: nat)
    requires index in rows && len <= MAX_READ_LEN && Complete(store, rows[index])
    requires Describes(rows[index], file, hash) && store.Sound(hash) && Injective(hash)
    ensures var end := Min(offset + len, |file|);
            Answered(rows, store.chunks, index, offset, len) ==
            Answer(Served, if offset < end then file[offset..end] else [], false)
  {
    CompleteIsExact(store, rows[index]);
    ReadsAreExact(rows, store, file, hash, index, offset, len);
  }

  /** The claim is exact: a row some store has been told of is complete exactly
      when every chunk of it is held; one it has not is complete only when empty. */
  lemma CompleteIsExact(store: Store, row: Row)
    ensures Complete(store, row) <==>
            if row in store.maps then forall i :: 0 <= i < |row.leaves| ==> row.leaves[i] in store.chunks
            else row.leaves == []
  {
    var held := store.CoverageOf(Root(row));
    FullCount(held, |row.leaves|);
    if Complete(store, row) && row in store.maps {
      forall i | 0 <= i < |row.leaves| ensures row.leaves[i] in store.chunks {
        assert i in held;
      }
    }
  }

  // ------------------------------------------------------------------- scoping

  /** What a seeder knows of a share. The lookup tables are kept beside the rows
      they were built from. */
  datatype State = State(
    envelope: Bytes,
    rows: map<nat, Row>,
    slotOfRoot: map<Root, nat>,
    inScope: set<Address>)

  function Leaves(row: Row): set<Address> { set a | a in row.leaves }

  ghost predicate Reachable(rows: map<nat, Row>, a: Address) {
    exists i :: i in rows && a in rows[i].leaves
  }

  ghost predicate Named(rows: map<nat, Row>, root: Root) {
    exists i :: i in rows && Root(rows[i]) == root
  }

  /** The tables answer for these rows and for nothing else. */
  ghost predicate Exact(s: State) {
    && (forall a :: a in s.inScope <==> Reachable(s.rows, a))
    && (forall r :: r in s.slotOfRoot <==> Named(s.rows, r))
  }

  function Adopted(s: State, index: nat, row: Row): State {
    s.(rows := s.rows[index := row],
       slotOfRoot := s.slotOfRoot[Root(row) := index],
       inScope := s.inScope + Leaves(row))
  }

  /** Nothing of the row being replaced is left without another row behind it. */
  ghost predicate NothingOrphaned(rows: map<nat, Row>, index: nat, row: Row) {
    index in rows ==>
      && (forall a :: a in rows[index].leaves ==> Reachable(rows[index := row], a))
      && Named(rows[index := row], Root(rows[index]))
  }

  /** **Adopting one row agrees with rebuilding from all of them**, on every
      chunk, map and have request, exactly when the row replaces nothing or
      leaves nothing of what it replaces unreferenced: at a new slot, always. */
  lemma AdoptAgreesWithRebuild(s: State, index: nat, row: Row)
    requires Exact(s)
    ensures Exact(Adopted(s, index, row)) <==> NothingOrphaned(s.rows, index, row)
    ensures index !in s.rows ==> Exact(Adopted(s, index, row))
  {
    var t := Adopted(s, index, row);
    assert index in t.rows && t.rows[index] == row;
    forall a ensures a in t.inScope <==> Reachable(t.rows, a) || (index in s.rows && a in s.rows[index].leaves) {
      ReachableAfter(s.rows, index, row, a);
    }
    forall r ensures r in t.slotOfRoot <==> Named(t.rows, r) || (index in s.rows && r == Root(s.rows[index])) {
      NamedAfter(s.rows, index, row, r);
    }
    if Exact(t) && index in s.rows {
      assert Root(s.rows[index]) in t.slotOfRoot;
    }
  }

  lemma ReachableAfter(rows: map<nat, Row>, index: nat, row: Row, a: Address)
    ensures Reachable(rows, a) || a in row.leaves <==>
            Reachable(rows[index := row], a) || (index in rows && a in rows[index].leaves)
  {
    var next := rows[index := row];
    if a in row.leaves {
      assert index in next && a in next[index].leaves;
    } else if Reachable(rows, a) {
      var i :| i in rows && a in rows[i].leaves;
      assert i != index ==> i in next && a in next[i].leaves;
    }
    if Reachable(next, a) {
      var i :| i in next && a in next[i].leaves;
      assert i != index ==> i in rows && a in rows[i].leaves;
    }
  }

  lemma NamedAfter(rows: map<nat, Row>, index: nat, row: Row, r: Root)
    ensures Named(rows, r) || r == Root(row) <==>
            Named(rows[index := row], r) || (index in rows && r == Root(rows[index]))
  {
    var next := rows[index := row];
    if r == Root(row) {
      assert index in next && Root(next[index]) == r;
    } else if Named(rows, r) {
      var i :| i in rows && Root(rows[i]) == r;
      assert i != index ==> i in next && Root(next[i]) == r;
    }
    if Named(next, r) {
      var i :| i in next && Root(next[i]) == r;
      assert i != index ==> i in rows && Root(rows[i]) == r;
    }
  }

  /** What a chunk request, a map request and a have request are answered. */
  function ChunkAnswer(s: State, store: Store, address: Address): Option<Bytes> {
    if address in s.inScope && address in store.chunks then Some(store.chunks[address]) else None
  }

  function MapAnswer(s: State, index: nat): Option<Row> {
    if index in s.rows then Some(s.rows[index]) else None
  }

  function HaveAnswer(s: State, store: Store, root: Root): Option<set<nat>> {
    if root in s.slotOfRoot then Some(store.CoverageOf(root)) else None
  }

  /** **A chunk request is answered with the bytes the address names.** For a row
      of this share and the file it describes, these are the file's own bytes of
      that chunk; an address of no row of the share is never answered. */
  lemma ChunksAreExact(s: State, index: nat, file: Bytes, hash: Bytes -> Address, store: Store, position: nat)
    requires Exact(s) && index in s.rows && position < |s.rows[index].leaves|
    requires Describes(s.rows[index], file, hash) && store.Sound(hash) && Injective(hash)
    ensures var address := s.rows[index].leaves[position];
            ChunkAnswer(s, store, address) ==
            if address in store.chunks then Some(file[RangeStart(position)..RangeEnd(s.rows[index], position)])
            else None
    ensures forall a :: !Reachable(s.rows, a) ==> ChunkAnswer(s, store, a) == None
  {
    var address := s.rows[index].leaves[position];
    assert Reachable(s.rows, address);
    if address in store.chunks {
      ChunkIsFile(s.rows[index], file, hash, store, position);
    }
  }

  /** What is claimed of a root is what its row's chunks in the store are: of a row
      the store was told of, each position held and no other. */
  lemma HoldingsAreExact(s: State, store: Store, index: nat)
    requires Exact(s) && index in s.rows
    ensures var row := s.rows[index];
            HaveAnswer(s, store, Root(row)).Some?
            && forall i :: i in HaveAnswer(s, store, Root(row)).value <==>
                 row in store.maps && 0 <= i < |row.leaves| && row.leaves[i] in store.chunks
    ensures forall r :: !Named(s.rows, r) ==> HaveAnswer(s, store, r) == None
  {
    assert Named(s.rows, Root(s.rows[index]));
  }

  /** One row after another, adopted in order. */
  function AdoptedAll(s: State, given: seq<(nat, Row)>): State {
    if given == [] then s
    else Adopted(AdoptedAll(s, given[..|given| - 1]), given[|given| - 1].0, given[|given| - 1].1)
  }

  /** The last row given for a slot. */
  function LastGiven(given: seq<(nat, Row)>, index: nat): Option<Row> {
    if given == [] then None
    else if given[|given| - 1].0 == index then Some(given[|given| - 1].1)
    else LastGiven(given[..|given| - 1], index)
  }

  /** After any run of adoptions a map request is answered with the last row
      adopted for its slot, else with the row of the last update; no adoption
      forgets an address, and every row answered has all its leaves in scope. */
  lemma {:induction false} MapAnswersAreLastGiven(s: State, given: seq<(nat, Row)>, index: nat)
    requires Exact(s)
    ensures var t := AdoptedAll(s, given);
            && MapAnswer(t, index) ==
               (if LastGiven(given, index).Some? then LastGiven(given, index)
                else if index in s.rows then Some(s.rows[index]) else None)
            && s.inScope <= t.inScope
            && (MapAnswer(t, index).Some? ==>
                  (forall a :: a in MapAnswer(t, index).value.leaves ==> a in t.inScope)
                  && Root(MapAnswer(t, index).value) in t.slotOfRoot)
    decreases |given|
  {
    if given == [] {
      if index in s.rows {
        assert forall a :: a in s.rows[index].leaves ==> Reachable(s.rows, a);
        assert Named(s.rows, Root(s.rows[index]));
      }
    } else {
      MapAnswersAreLastGiven(s, given[..|given| - 1], index);
    }
  }

  /** A row adopted at a new slot is answered for exactly as if everything had
      been rebuilt with that row added. */
  lemma AdoptedAnswersAsRebuilt(s: State, index: nat, row: Row, rebuilt: State, store: Store)
    requires Exact(s) && index !in s.rows
    requires Exact(rebuilt) && rebuilt.rows == s.rows[index := row]
    ensures forall a :: ChunkAnswer(Adopted(s, index, row), store, a) == ChunkAnswer(rebuilt, store, a)
    ensures forall i :: MapAnswer(Adopted(s, index, row), i) == MapAnswer(rebuilt, i)
    ensures forall r :: HaveAnswer(Adopted(s, index, row), store, r) == HaveAnswer(rebuilt, store, r)
  {
    AdoptAgreesWithRebuild(s, index, row);
  }

  // ------------------------------------------------------------------ the seeder

  /** One subscriber's stream: what it was sent, and whether it still listens. */
  datatype Feed = Feed(frames: seq<Bytes>, open: bool)

  function FrameOf(envelope: Bytes): Bytes { [WATCH_FRAME_MANIFEST] + envelope }

  ghost predicate NoRepeats(frames: seq<Bytes>) {
    forall i :: 0 <= i < |frames| - 1 ==> frames[i] != frames[i + 1]
  }

  /** A frame for a new envelope differs from the one before it. */
  lemma NewFrame(frames: seq<Bytes>, was: Bytes, now: Bytes)
    requires NoRepeats(frames) && frames != [] && frames[|frames| - 1] == FrameOf(was) && was != now
    ensures NoRepeats(frames + [FrameOf(now)])
  {
    assert FrameOf(was)[1..] == was && FrameOf(now)[1..] == now;
  }

  class Seeder {
    var state: Option<State>
    var feeds: seq<Feed>
    var watchers: seq<nat>
    var holes: Option<seq<nat>>

    constructor ()
      ensures Valid() && state.None?
    {
      state, feeds, watchers, holes := None, [], [], None;
    }

    /** Every feed that still listens is among the watchers and its last frame
        carries the current envelope; no feed was ever sent the same frame twice
        in a row. */
    ghost predicate Valid()
      reads this
    {
      && (state.None? ==> feeds == [])
      && (forall f :: 0 <= f < |feeds| ==> feeds[f].frames != [] && NoRepeats(feeds[f].frames))
      && (forall f :: 0 <= f < |feeds| && feeds[f].open ==>
            f in watchers && feeds[f].frames[|feeds[f].frames| - 1] == FrameOf(state.value.envelope))
      && (forall w :: 0 <= w < |watchers| ==> watchers[w] < |feeds|)
      && (forall v, w :: 0 <= v < w < |watchers| ==> watchers[v] != watchers[w])
    }

    /** Take over envelope and rows, and rebuild the tables from all of them. */
    method Update(envelope: Bytes, rows: map<nat, Row>)
      requires Valid()
      modifies this
      ensures Valid() && state.Some? && Exact(state.value)
      ensures state.value.envelope == envelope && state.value.rows == rows
      ensures |feeds| == |old(feeds)| && holes == old(holes)
      ensures forall f :: 0 <= f < |feeds| ==>
                && feeds[f].open == old(feeds)[f].open
                && feeds[f].frames == old(feeds)[f].frames +
                   if feeds[f].open && old(state).value.envelope != envelope then [FrameOf(envelope)] else []
      ensures forall f :: 0 <= f < |feeds| && feeds[f].open ==>
                feeds[f].frames != [] && feeds[f].frames[|feeds[f].frames| - 1] == FrameOf(envelope)
      ensures forall f, i :: 0 <= f < |feeds| && 0 <= i < |feeds[f].frames| - 1 ==>
                feeds[f].frames[i] != feeds[f].frames[i + 1]
    {
      var slotOfRoot, inScope := BuildTables(rows);
      var changed := state.None? || state.value.envelope != envelope;
      state := Some(State(envelope, rows, slotOfRoot, inScope));
      if changed {
        feeds, watchers := Broadcast(feeds, watchers, FrameOf(envelope));
        forall f | 0 <= f < |feeds| && feeds[f].open ensures NoRepeats(feeds[f].frames) {
          NewFrame(old(feeds)[f].frames, old(state).value.envelope, envelope);
        }
      } else {
        assert forall f :: 0 <= f < |feeds| ==> feeds[f].frames == feeds[f].frames + [];
      }
    }

    /** Add one row to rows and tables; nothing happens before the first update. */
    method Adopt(index: nat, row: Row)
      requires Valid()
      modifies `state
      ensures Valid()
      ensures state == match old(state) case None => None case Some(s) => Some(Adopted(s, index, row))
    {
      if state.Some? {
        state := Some(Adopted(state.value, index, row));
      }
    }

    method Subscribe() returns (feed: Option<nat>)
      requires Valid()
      modifies `feeds, `watchers
      ensures Valid()
      ensures state.None? ==> feed.None? && feeds == old(feeds)
      ensures state.Some? ==>
                feed == Some(|old(feeds)|) && feeds == old(feeds) + [Feed([FrameOf(state.value.envelope)], true)]
    {
      if state.None? {
        return None;
      }
      feed := Some(|feeds|);
      watchers := watchers + [|feeds|];
      feeds := feeds + [Feed([FrameOf(state.value.envelope)], true)];
    }

    /** A subscriber stops listening. */
    method Hangup(f: nat)
      requires Valid() && f < |feeds|
      modifies `feeds
      ensures Valid() && feeds == old(feeds)[f := old(feeds)[f].(open := false)]
    {
      feeds := feeds[f := feeds[f].(open := false)];
    }

    method AnswerRead(store: Store, index: nat, offset: nat, len: nat) returns (status: ReadStatus, out: Bytes)
      requires Valid() && offset <= U64_MAX
      modifies `holes
      ensures Valid()
      ensures var answer := Answered(if state.Some? then state.value.rows else map[],
                                     store.chunks, index, offset, len);
              && status == answer.status && out == answer.bytes
              && holes == if answer.hole && old(holes).Some? then Some(old(holes).value + [index]) else old(holes)
      ensures len > MAX_READ_LEN ==> status == LenOverCap && out == [] && holes == old(holes)
      ensures len <= MAX_READ_LEN && (state.None? || index !in state.value.rows) ==>
                status == BadIndex && out == [] && holes == old(holes)
    {
      if len > MAX_READ_LEN {
        return LenOverCap, [];
      }
      if state.None? || index !in state.value.rows {
        return BadIndex, [];
      }
      var row := state.value.rows[index];
      if offset >= row.size || len == 0 {
        return Served, [];
      }
      var end := Min(SaturatingAdd(offset, len), row.size);
      var read := ReadRange(row, store, offset, end);
      if read.None? {
        ReportHole(index);
        return BadIndex, [];
      }
      return Served, read.value;
    }

    /** Start a feed of slots that could not be served; an earlier one is dropped. */
    method Holes()
      requires Valid()
      modifies `holes
      ensures Valid() && holes == Some([])
    {
      holes := Some([]);
    }

    method ReportHole(index: nat)
      modifies `holes
      ensures holes == if old(holes).Some? then Some(old(holes).value + [index]) else None
    {
      if holes.Some? {
        holes := Some(holes.value + [index]);
      }
    }

    method AnswerChunkMap(index: nat) returns (r: Option<Row>)
      requires Valid()
      ensures r == match state case None => None case Some(s) => MapAnswer(s, index)
    {
      if state.None? || index !in state.value.rows {
        return None;
      }
      return Some(state.value.rows[index]);
    }

    /** A chunk, only if it belongs to this share. */
    method AnswerChunk(store: Store, address: Address) returns (r: Option<Bytes>)
      requires Valid()
      ensures r == match state case None => None case Some(s) => ChunkAnswer(s, store, address)
      ensures r.Some? ==> address in store.chunks && r.value == store.chunks[address]
      ensures state.Some? && Exact(state.value) ==>
                (r.Some? <==> Reachable(state.value.rows, address) && address in store.chunks)
    {
      if state.None? || address !in state.value.inScope || address !in store.chunks {
        return None;
      }
      return Some(store.chunks[address]);
    }

    /** Every slot the store completes at this moment, ascending. */
    method CompleteSlots(store: Store) returns (held: seq<nat>)
      requires Valid()
      ensures Swarm.Ascending(held)
      ensures forall i :: multiset(held)[i] ==
                if state.Some? && i in state.value.rows && Complete(store, state.value.rows[i]) then 1 else 0
    {
      held := [];
      if state.None? {
        return;
      }
      var rows := state.value.rows;
      var todo := rows.Keys;
      while todo != {}
        invariant todo <= rows.Keys && Swarm.Ascending(held)
        invariant forall i :: multiset(held)[i] ==
                    if i in rows && i !in todo && Complete(store, rows[i]) then 1 else 0
      {
        var index :| index in todo;
        if Complete(store, rows[index]) {
          Swarm.InsertedNumberSorts(held, index);
          held := Swarm.InsertedNumber(held, index);
        }
        todo := todo - {index};
      }
    }

    /** Whether one slot is held in full: every chunk of a row the store knows,
        or no chunk to hold at all. */
    method Holds(store: Store, index: nat) returns (whole: bool)
      requires Valid()
      ensures state.None? || index !in state.value.rows ==> !whole
      ensures state.Some? && index in state.value.rows ==>
                var row := state.value.rows[index];
                whole <==> if row in store.maps then forall i :: 0 <= i < |row.leaves| ==> row.leaves[i] in store.chunks
                           else row.leaves == []
    {
      if state.Some? && index in state.value.rows {
        CompleteIsExact(store, state.value.rows[index]);
      }
      whole := state.Some? && index in state.value.rows && Complete(store, state.value.rows[index]);
    }

    /** What is held of a root, only if the root belongs to this share. */
    method AnswerHave(store: Store, root: Root) returns (r: Option<set<nat>>)
      requires Valid()
      ensures r == match state case None => None case Some(s) => HaveAnswer(s, store, root)
      ensures r.Some? ==> forall i :: i in r.value <==>
                root.row in store.maps && 0 <= i < |root.row.leaves| && root.row.leaves[i] in store.chunks
      ensures state.Some? && Exact(state.value) ==> (r.Some? <==> Named(state.value.rows, root))
    {
      if state.None? || root !in state.value.slotOfRoot {
        return None;
      }
      return Some(store.CoverageOf(root));
    }
  }

  /** Send a frame to every watcher, keeping only those that still listen. */
  method Broadcast(feeds: seq<Feed>, watchers: seq<nat>, frame: Bytes)
    returns (sent: seq<Feed>, kept: seq<nat>)
    requires forall w :: 0 <= w < |watchers| ==> watchers[w] < |feeds|
    requires forall v, w :: 0 <= v < w < |watchers| ==> watchers[v] != watchers[w]
    ensures |sent| == |feeds|
    ensures forall f :: 0 <= f < |feeds| ==>
              sent[f] == if feeds[f].open && f in watchers then feeds[f].(frames := feeds[f].frames + [frame])
                         else feeds[f]
    ensures forall f :: f in kept <==> f in watchers && feeds[f].open
    ensures forall k :: 0 <= k < |kept| ==> kept[k] < |feeds|
    ensures forall j, k :: 0 <= j < k < |kept| ==> kept[j] != kept[k]
  {
    sent, kept := feeds, [];
    for w := 0 to |watchers|
      invariant |sent| == |feeds|
      invariant forall f :: f in kept <==> f in watchers[..w] && feeds[f].open
      invariant forall k :: 0 <= k < |kept| ==> kept[k] < |feeds|
      invariant forall j, k :: 0 <= j < k < |kept| ==> kept[j] != kept[k]
      invariant forall f :: 0 <= f < |feeds| ==>
                  sent[f] == if feeds[f].open && f in watchers[..w]
                             then feeds[f].(frames := feeds[f].frames + [frame]) else feeds[f]
    {
      var f := watchers[w];
      assert watchers[..w + 1] == watchers[..w] + [f];
      assert f !in watchers[..w];
      if feeds[f].open {
        sent := sent[f := feeds[f].(frames := feeds[f].frames + [frame])];
        kept := kept + [f];
      }
    }
    assert watchers[..|watchers|] == watchers;
  }

  lemma OneRead(row: Row, chunks: map<Address, Bytes>, cursor: nat, end: nat)
    requires cursor < end
    ensures var position := cursor / CHUNK;
            if position >= |row.leaves| || row.leaves[position] !in chunks then
              ReadFrom(row, chunks, cursor, end).None?
            else
              var chunk, within := chunks[row.leaves[position]], cursor - RangeStart(position);
              var take := Min(end - cursor, if |chunk| < within then 0 else |chunk| - within);
              if take == 0 then ReadFrom(row, chunks, cursor, end).None?
              else ReadFrom(row, chunks, cursor, end) ==
                   Prepend(chunk[within..within + take], ReadFrom(row, chunks, cursor + take, end))
  {
  }

  lemma NothingToRead(row: Row, chunks: map<Address, Bytes>, cursor: nat, end: nat, out: Bytes)
    requires cursor >= end
    ensures Prepend(out, ReadFrom(row, chunks, cursor, end)) == Some(out)
  {
    assert out + [] == out;
  }

  /** The loop of a read: a moving cursor and a growing answer. */
  method ReadRange(row: Row, store: Store, offset: nat, end: nat) returns (r: Option<Bytes>)
    ensures r == ReadFrom(row, store.chunks, offset, end)
  {
    hide ReadFrom;
    var out: Bytes := [];
    var cursor := offset;
    PrependNothing(ReadFrom(row, store.chunks, offset, end));
    while cursor < end
      invariant ReadFrom(row, store.chunks, offset, end) == Prepend(out, ReadFrom(row, store.chunks, cursor, end))
    {
      OneRead(row, store.chunks, cursor, end);
      var position := cursor / CHUNK;
      if position >= |row.leaves| || row.leaves[position] !in store.chunks {
        return None;
      }
      var chunk := store.chunks[row.leaves[position]];
      var within := cursor - RangeStart(position);
      var take := Min(end - cursor, if |chunk| < within then 0 else |chunk| - within);
      if take == 0 {
        return None;
      }
      PrependStep(out, chunk[within..within + take], ReadFrom(row, store.chunks, cursor + take, end));
      out := out + chunk[within..within + take];
      cursor := cursor + take;
    }
    NothingToRead(row, store.chunks, cursor, end, out);
    return Some(out);
  }

  ghost function Prepend(out: Bytes, rest: Option<Bytes>): Option<Bytes> {
    match rest
    case None => None
    case Some(bytes) => Some(out + bytes)
  }

  lemma PrependNothing(rest: Option<Bytes>)
    ensures Prepend([], rest) == rest
  {
    if rest.Some? {
      assert [] + rest.value == rest.value;
    }
  }

  lemma PrependStep(out: Bytes, piece: Bytes, rest: Option<Bytes>)
    ensures Prepend(out, Prepend(piece, rest)) == Prepend(out + piece, rest)
  {
    if rest.Some? {
      assert out + (piece + rest.value) == out + piece + rest.value;
    }
  }

  /** Every row's root and leaves, in whatever order the rows come. */
  method BuildTables(rows: map<nat, Row>) returns (slotOfRoot: map<Root, nat>, inScope: set<Address>)
    ensures Exact(State([], rows, slotOfRoot, inScope))
    ensures forall r :: r in slotOfRoot ==> slotOfRoot[r] in rows && Root(rows[slotOfRoot[r]]) == r
  {
    slotOfRoot, inScope := map[], {};
    var todo := rows.Keys;
    while todo != {}
      invariant todo <= rows.Keys
      invariant forall a :: a in inScope <==> exists i :: i in rows && i !in todo && a in rows[i].leaves
      invariant forall r :: r in slotOfRoot <==> exists i :: i in rows && i !in todo && Root(rows[i]) == r
      invariant forall r :: r in slotOfRoot ==> slotOfRoot[r] in rows && Root(rows[slotOfRoot[r]]) == r
    {
      var index :| index in todo;
      slotOfRoot := slotOfRoot[Root(rows[index]) := index];
      inScope := inScope + Leaves(rows[index]);
      todo := todo - {index};
    }
  }
}
