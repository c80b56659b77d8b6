/**
 Fetching the missing chunks of one file from a swarm nobody has reason to trust.

 A peer is an arbitrary function from what it is asked to what it answers; so is
 the home connection. Queues run concurrently in the program, but share nothing
 until every one of them has ended, so they are run here one after another.
 */
module Fetch {
  import opened Wrappers
  import opened Codec
  import opened Chunks
  import Swarm

  /** An answer to "give me this chunk": bytes, a refusal, or a broken connection. */
  datatype Reply = Bytes(bytes: Bytes) | Refused | Failed

  /** A swarm peer: the length and bitmap it claims for the root, if it answers at
      all, and what it says to each chunk request. */
  datatype Peer = Peer(have: Option<(nat, set<nat>)>, chunk: nat -> Reply)

  /** The home peer's connection: chunk requests, and byte-range reads that may
      stop anywhere or fail. */
  datatype Home = Home(chunk: nat -> Reply, read: (nat, nat) -> Option<Bytes>)

  datatype Error = HomeFailed | StoppedShort | Mismatch

  type Chunk = (Address, Bytes)

  /** A claim about another number of chunks than the row has is no claim. */
  function Usable(peer: Peer, row: Row): Option<Swarm.Coverage> {
    match peer.have
    case None => None
    case Some((claimed, bits)) =>
      if claimed != |row.leaves| then None
      else Some(set i | i in bits && i < |row.leaves|)
  }

  predicate Distinct(xs: seq<nat>) {
    forall i, j :: 0 <= i < j < |xs| ==> xs[i] != xs[j]
  }

  /** What follows the first occurrence of `x`. */
  function After(xs: seq<nat>, x: nat): seq<nat> {
    if xs == [] then [] else if xs[0] == x then xs[1..] else After(xs[1..], x)
  }

  lemma {:induction false} AfterIsTheRest(xs: seq<nat>, i: nat)
    requires Distinct(xs) && i < |xs|
    ensures After(xs, xs[i]) == xs[i + 1..]
  {
    if i > 0 {
      AfterIsTheRest(xs[1..], i - 1);
      assert xs[1..][i - 1] == xs[i] && xs[1..][i..] == xs[i + 1..];
    }
  }

  /** Bytes that answer for a position of a row. */
  ghost predicate Verified(chunk: Chunk, position: nat, row: Row, hash: Bytes -> Address) {
    position < |row.leaves| && chunk.0 == row.leaves[position] && hash(chunk.1) == chunk.0
  }

  predicate Answers(peer: Peer, position: nat, row: Row, hash: Bytes -> Address) {
    && position < |row.leaves| && peer.chunk(position).Bytes?
    && hash(peer.chunk(position).bytes) == row.leaves[position]
  }

  /** What came of one queue: the positions got, their chunks, and what is missed. */
  datatype Haul = Haul(at: seq<nat>, chunks: seq<Chunk>, missed: seq<nat>)

  /** Every good answer up to the first broken request is kept; whatever follows
      a break is missed with it. */
  function Drained(peer: Peer, row: Row, positions: seq<nat>, hash: Bytes -> Address): Haul {
    if positions == [] then Haul([], [], [])
    else if positions[0] >= |row.leaves| then Drained(peer, row, positions[1..], hash)
    else if peer.chunk(positions[0]).Failed? then Haul([], [], positions)
    else
      var p, rest := positions[0], Drained(peer, row, positions[1..], hash);
      if Answers(peer, p, row, hash) then
        Haul([p] + rest.at, [(row.leaves[p], peer.chunk(p).bytes)] + rest.chunks, rest.missed)
      else Haul(rest.at, rest.chunks, [p] + rest.missed)
  }

  function Joined(a: Haul, b: Haul): Haul { Haul(a.at + b.at, a.chunks + b.chunks, a.missed + b.missed) }

  lemma DrainedStep(peer: Peer, row: Row, positions: seq<nat>, hash: Bytes -> Address, i: nat, so: Haul)
    requires i < |positions|
    ensures var p := positions[i];
            Joined(so, Drained(peer, row, positions[i..], hash)) ==
            if p >= |row.leaves| then Joined(so, Drained(peer, row, positions[i + 1..], hash))
            else if peer.chunk(p).Failed? then Haul(so.at, so.chunks, so.missed + positions[i..])
            else if Answers(peer, p, row, hash) then
              Joined(Haul(so.at + [p], so.chunks + [(row.leaves[p], peer.chunk(p).bytes)], so.missed),
                     Drained(peer, row, positions[i + 1..], hash))
            else Joined(Haul(so.at, so.chunks, so.missed + [p]), Drained(peer, row, positions[i + 1..], hash))
  {
    assert positions[i..][0] == positions[i] && positions[i..][1..] == positions[i + 1..];
    var rest := Drained(peer, row, positions[i + 1..], hash);
    assert so.at + ([positions[i]] + rest.at) == so.at + [positions[i]] + rest.at;
    assert so.missed + ([positions[i]] + rest.missed) == so.missed + [positions[i]] + rest.missed;
    if Answers(peer, positions[i], row, hash) {
      var chunk := (row.leaves[positions[i]], peer.chunk(positions[i]).bytes);
      assert so.chunks + ([chunk] + rest.chunks) == so.chunks + [chunk] + rest.chunks;
    }
  }

  /** Whatever a peer answers, each position of its queue is either got, with
      bytes that hash to its address, or missed, and never both or neither. */
  lemma {:induction false} DrainedSplits(peer: Peer, row: Row, positions: seq<nat>, hash: Bytes -> Address)
    requires forall i :: 0 <= i < |positions| ==> positions[i] < |row.leaves|
    ensures var haul := Drained(peer, row, positions, hash);
            multiset(haul.at) + multiset(haul.missed) == multiset(positions)
  {
    if positions != [] && !peer.chunk(positions[0]).Failed? {
      DrainedSplits(peer, row, positions[1..], hash);
      assert positions == [positions[0]] + positions[1..];
    }
  }

  /** What was got is verified; and a peer whose connection holds misses nothing
      it answers well. */
  lemma {:induction false} DrainedIsVerified(peer: Peer, row: Row, positions: seq<nat>, hash: Bytes -> Address)
    ensures var haul := Drained(peer, row, positions, hash);
            && |haul.at| == |haul.chunks|
            && (forall i :: 0 <= i < |haul.at| ==> Verified(haul.chunks[i], haul.at[i], row, hash))
    ensures (forall i :: 0 <= i < |positions| ==> peer.chunk(positions[i]) != Failed) ==>
              forall i :: 0 <= i < |Drained(peer, row, positions, hash).missed| ==>
                var p := Drained(peer, row, positions, hash).missed[i];
                p < |row.leaves| && (peer.chunk(p).Bytes? ==> hash(peer.chunk(p).bytes) != row.leaves[p])
  {
    if positions != [] {
      DrainedIsVerified(peer, row, positions[1..], hash);
      assert (forall i :: 0 <= i < |positions| ==> peer.chunk(positions[i]) != Failed) ==>
          && peer.chunk(positions[0]) != Failed
          && forall i :: 0 <= i < |positions[1..]| ==> peer.chunk(positions[1..][i]) != Failed;
    }
  }

  /** A break ends the queue: what came before it is kept as if the queue had
      ended there, and it and all that follows is missed. */
  lemma {:induction false} BreakEndsTheQueue(peer: Peer, row: Row, positions: seq<nat>, hash: Bytes -> Address, i: nat)
    requires i < |positions| && positions[i] < |row.leaves| && peer.chunk(positions[i]).Failed?
    requires forall j :: 0 <= j < i ==> !peer.chunk(positions[j]).Failed?
    ensures Drained(peer, row, positions, hash) ==
            Joined(Drained(peer, row, positions[..i], hash), Haul([], [], positions[i..]))
  {
    hide Drained, Joined, OneAnswer;
    DrainedHead(peer, row, positions, hash);
    if i == 0 {
      JoinedNothing(Haul([], [], positions));
      DrainedNone(peer, row, hash);
    } else {
      BreakEndsTheQueue(peer, row, positions[1..], hash, i - 1);
      DrainedHead(peer, row, positions[..i], hash);
      assert positions[..i][0] == positions[0] && positions[..i][1..] == positions[1..][..i - 1];
      assert positions[1..][i - 1..] == positions[i..];
      JoinedTwice(OneAnswer(peer, row, positions[0], hash), Drained(peer, row, positions[1..][..i - 1], hash),
                  Haul([], [], positions[i..]));
    }
  }

  /** What comes of one request that did not break. */
  function OneAnswer(peer: Peer, row: Row, p: nat, hash: Bytes -> Address): Haul {
    if p >= |row.leaves| then Haul([], [], [])
    else if Answers(peer, p, row, hash) then Haul([p], [(row.leaves[p], peer.chunk(p).bytes)], [])
    else Haul([], [], [p])
  }

  lemma DrainedHead(peer: Peer, row: Row, positions: seq<nat>, hash: Bytes -> Address)
    requires positions != []
    ensures Drained(peer, row, positions, hash) ==
            if positions[0] < |row.leaves| && peer.chunk(positions[0]).Failed? then Haul([], [], positions)
            else Joined(OneAnswer(peer, row, positions[0], hash), Drained(peer, row, positions[1..], hash))
  {
    hide Answers;
    var rest := Drained(peer, row, positions[1..], hash);
    assert [] + rest.at == rest.at && [] + rest.chunks == rest.chunks && [] + rest.missed == rest.missed;
  }

  lemma DrainedNone(peer: Peer, row: Row, hash: Bytes -> Address)
    ensures Drained(peer, row, [], hash) == Haul([], [], [])
  {
  }

  lemma JoinedTwice(a: Haul, b: Haul, c: Haul)
    ensures Joined(a, Joined(b, c)) == Joined(Joined(a, b), c)
  {
  }

  /** Pull one peer's positions in order. */
  method DrainQueue(peer: Peer, row: Row, positions: seq<nat>, hash: Bytes -> Address)
    returns (got: seq<Chunk>, missed: seq<nat>, ghost at: seq<nat>)
    requires Distinct(positions)
    ensures got == Drained(peer, row, positions, hash).chunks
    ensures missed == Drained(peer, row, positions, hash).missed
    ensures at == Drained(peer, row, positions, hash).at
  {
    hide Drained, Joined;
    got, missed, at := [], [], [];
    JoinedNothing(Drained(peer, row, positions, hash));
    assert positions[0..] == positions;
    for i := 0 to |positions|
      invariant Joined(Haul(at, got, missed), Drained(peer, row, positions[i..], hash))
                == Drained(peer, row, positions, hash)
    {
      DrainedStep(peer, row, positions, hash, i, Haul(at, got, missed));
      if positions[i] >= |row.leaves| {
        continue;
      }
      var address := row.leaves[positions[i]];
      match peer.chunk(positions[i]) {
        case Bytes(bytes) =>
          if hash(bytes) == address {
            got := got + [(address, bytes)];
            at := at + [positions[i]];
          } else {
            missed := missed + [positions[i]];
          }
        case Refused =>
          missed := missed + [positions[i]];
        case Failed =>
          AfterIsTheRest(positions, i);
          assert missed + [positions[i]] + positions[i + 1..] == missed + positions[i..];
          missed := missed + [positions[i]] + After(positions, positions[i]);
          return;
      }
    }
    DrainedNothing(peer, row, hash, Haul(at, got, missed));
    assert positions[|positions|..] == [];
  }

  lemma JoinedNothing(h: Haul)
    ensures Joined(Haul([], [], []), h) == h
  {
  }

  lemma DrainedNothing(peer: Peer, row: Row, hash: Bytes -> Address, so: Haul)
    ensures Joined(so, Drained(peer, row, [], hash)) == so
  {
  }

  /** A range read in as many pieces as it takes. */
  function ReadAll(home: Home, offset: nat, len: nat, out: Bytes): Result<Bytes, Error>
    decreases len - |out|
  {
    if |out| >= len then Ok(out)
    else match home.read(offset + |out|, len - |out|)
      case None => Err(HomeFailed)
      case Some(piece) => if piece == [] then Err(StoppedShort) else ReadAll(home, offset, len, out + piece)
  }

  /** One chunk from home: by address, else as a byte range; checked either way. */
  function FromHome(home: Home, row: Row, position: nat, hash: Bytes -> Address): Result<Bytes, Error>
    requires WellSized(row) && position < |row.leaves|
  {
    if home.chunk(position).Failed? then Err(HomeFailed)
    else if home.chunk(position).Bytes? && hash(home.chunk(position).bytes) == row.leaves[position] then
      Ok(home.chunk(position).bytes)
    else
      var read := ReadAll(home, RangeStart(position), RangeEnd(row, position) - RangeStart(position), []);
      if read.Ok? && hash(read.value) != row.leaves[position] then Err(Mismatch) else read
  }

  /** A chunk home answers well is taken as it is; only otherwise is it read as a
      range, and a connection that broke is not tried again. */
  lemma HomeAnswersFirst(home: Home, row: Row, position: nat, hash: Bytes -> Address)
    requires WellSized(row) && position < |row.leaves|
    ensures match home.chunk(position)
            case Failed => FromHome(home, row, position, hash) == Err(HomeFailed)
            case Bytes(bytes) =>
              hash(bytes) == row.leaves[position] ==> FromHome(home, row, position, hash) == Ok(bytes)
            case Refused => true
  {
    hide ReadAll;
  }

  /** A home that reads a file truthfully, in pieces of any size but none. */
  ghost predicate ReadsTruly(home: Home, file: Bytes) {
    forall offset: nat, len: nat :: len > 0 && offset + len <= |file| ==>
      PieceOf(home.read(offset, len), file, offset, len)
  }

  predicate PieceOf(piece: Option<Bytes>, file: Bytes, offset: nat, len: nat)
    requires offset + len <= |file|
  {
    piece.Some? && piece.value != [] && piece.value <= file[offset..offset + len]
  }

  lemma {:induction false} TrueReadsAddUp(home: Home, file: Bytes, offset: nat, len: nat, out: Bytes)
    requires ReadsTruly(home, file) && offset + len <= |file|
    requires |out| <= len && out == file[offset..offset + |out|]
    ensures ReadAll(home, offset, len, out) == Ok(file[offset..offset + len])
    decreases len - |out|
  {
    if |out| < len {
      var at, want := offset + |out|, len - |out|;
      assert PieceOf(home.read(at, want), file, at, want);
      var piece := home.read(at, want).value;
      assert piece == file[at..at + |piece|];
      assert out + piece == file[offset..offset + |out + piece|];
      TrueReadsAddUp(home, file, offset, len, out + piece);
    }
  }

  /** A home that is up and reads the file truthfully can always supply a chunk,
      whatever it answers to chunk requests. */
  lemma TrueHomeServes(home: Home, row: Row, file: Bytes, position: nat, hash: Bytes -> Address)
    requires Describes(row, file, hash) && position < |row.leaves| && !home.chunk(position).Failed?
    requires forall offset: nat, len: nat :: len > 0 && offset + len <= |file| ==>
               var piece := home.read(offset, len);
               piece.Some? && piece.value != [] && piece.value <= file[offset..offset + len]
    ensures FromHome(home, row, position, hash).Ok?
  {
    var start, end := RangeStart(position), RangeEnd(row, position);
    assert file[start..start] == [];
    TrueReadsAddUp(home, file, start, end - start, []);
  }

  method ReadExactRange(home: Home, offset: nat, len: nat) returns (r: Result<Bytes, Error>)
    ensures r == ReadAll(home, offset, len, [])
  {
    var out: Bytes := [];
    while |out| < len
      invariant ReadAll(home, offset, len, out) == ReadAll(home, offset, len, [])
      decreases len - |out|
    {
      var piece := home.read(offset + |out|, len - |out|);
      if piece.None? {
        return Err(HomeFailed);
      }
      if piece.value == [] {
        return Err(StoppedShort);
      }
      out := out + piece.value;
    }
    return Ok(out);
  }

  method FetchOrRead(home: Home, row: Row, position: nat, hash: Bytes -> Address)
    returns (r: Result<Bytes, Error>)
    requires WellSized(row) && position < |row.leaves|
    ensures r == FromHome(home, row, position, hash)
    ensures r.Ok? ==> hash(r.value) == row.leaves[position]
  {
    hide ReadAll;
    match home.chunk(position) {
      case Failed => return Err(HomeFailed);
      case Bytes(bytes) =>
        if hash(bytes) == row.leaves[position] {
          return Ok(bytes);
        }
      case Refused =>
    }
    var read := ReadExactRange(home, RangeStart(position), RangeEnd(row, position) - RangeStart(position));
    if read.Err? {
      return read;
    }
    if hash(read.value) != row.leaves[position] {
      return Err(Mismatch);
    }
    return read;
  }

  /** Every position was delivered or is still to be fetched. */
  ghost predicate Accounted(got: seq<Chunk>, left: seq<nat>, positions: seq<nat>, row: Row, hash: Bytes -> Address) {
    forall p :: p in positions ==> p in left || Delivered(got, p, row, hash)
  }

  /** The store after a run of puts. */
  function Stored(store: Store, puts: seq<Chunk>): Store {
    if puts == [] then store else
    var before := Stored(store, puts[..|puts| - 1]);
    before.(chunks := before.chunks[puts[|puts| - 1].0 := puts[|puts| - 1].1])
  }

  function TotalLength(puts: seq<Chunk>): nat {
    if puts == [] then 0 else TotalLength(puts[..|puts| - 1]) + |puts[|puts| - 1].1|
  }

  /** Every put answers for a wanted position. */
  ghost predicate Wanted(puts: seq<Chunk>, missing: seq<nat>, row: Row, hash: Bytes -> Address) {
    forall i :: 0 <= i < |puts| ==> IsWanted(puts[i], missing, row, hash)
  }

  ghost predicate IsWanted(chunk: Chunk, missing: seq<nat>, row: Row, hash: Bytes -> Address) {
    exists p :: p in missing && Verified(chunk, p, row, hash)
  }

  ghost predicate Delivered(got: seq<Chunk>, p: nat, row: Row, hash: Bytes -> Address) {
    exists i :: 0 <= i < |got| && Verified(got[i], p, row, hash)
  }

  lemma {:induction false} StoredIsSound(store: Store, puts: seq<Chunk>, missing: seq<nat>, row: Row,
                                         hash: Bytes -> Address)
    requires store.Sound(hash) && Wanted(puts, missing, row, hash)
    ensures Stored(store, puts).Sound(hash)
    ensures Stored(store, puts).maps == store.maps
    ensures forall a :: a in store.chunks ==> a in Stored(store, puts).chunks
    ensures forall i :: 0 <= i < |puts| ==> puts[i].0 in Stored(store, puts).chunks
    decreases |puts|
  {
    if puts != [] {
      StoredIsSound(store, puts[..|puts| - 1], missing, row, hash);
      assert IsWanted(puts[|puts| - 1], missing, row, hash);
    }
  }

  lemma PutOne(store: Store, puts: seq<Chunk>, chunk: Chunk)
    ensures Stored(store, puts + [chunk]) ==
            Stored(store, puts).(chunks := Stored(store, puts).chunks[chunk.0 := chunk.1])
    ensures TotalLength(puts + [chunk]) == TotalLength(puts) + |chunk.1|
  {
    assert (puts + [chunk])[..|puts|] == puts;
  }

  lemma {:induction false} AssignedIsQueued(peers: seq<Swarm.PeerPlan>, x: nat)
    requires x in Swarm.Assigned(peers)
    ensures exists k :: 0 <= k < |peers| && x in peers[k].positions
    decreases |peers|
  {
    if x !in peers[|peers| - 1].positions {
      AssignedIsQueued(peers[..|peers| - 1], x);
      var k :| 0 <= k < |peers| - 1 && x in peers[..|peers| - 1][k].positions;
      assert x in peers[k].positions;
    }
  }

  lemma QueueIsDistinct(missing: seq<nat>, holders: seq<Swarm.Coverage>, k: nat)
    requires Distinct(missing) && k < |Swarm.PlanOf(missing, holders).peers|
    ensures Swarm.PlanOf(missing, holders).peers[k].peer < |holders|
    ensures Distinct(Swarm.PlanOf(missing, holders).peers[k].positions)
    ensures forall i :: 0 <= i < |Swarm.PlanOf(missing, holders).peers[k].positions| ==>
              && Swarm.PlanOf(missing, holders).peers[k].positions[i] in missing
              && exists h :: h in holders && Swarm.PlanOf(missing, holders).peers[k].positions[i] in h
  {
    hide Swarm.PlanOf, Swarm.Rarity;
    var order := Swarm.PlanIsRarestFirst(missing, holders, k);
    var plan := Swarm.PlanOf(missing, holders).peers[k];
    assert Swarm.HeldBy(plan.positions[0], holders, plan.peer);
    forall i | 0 <= i < |plan.positions|
      ensures plan.positions[i] in missing && exists h :: h in holders && plan.positions[i] in h
    {
      assert Swarm.HeldBy(plan.positions[i], holders, plan.peer);
      assert holders[plan.peer] in holders;
    }
  }

  /** The peers that answered for this row, in order. */
  function UsableOf(peers: seq<Peer>, row: Row): seq<Peer> {
    if peers == [] then []
    else (if Usable(peers[0], row).Some? then [peers[0]] else []) + UsableOf(peers[1..], row)
  }

  function CoveragesOf(peers: seq<Peer>, row: Row): (holders: seq<Swarm.Coverage>)
    ensures |holders| == |UsableOf(peers, row)|
  {
    if peers == [] then []
    else (if Usable(peers[0], row).Some? then [Usable(peers[0], row).value] else []) + CoveragesOf(peers[1..], row)
  }

  lemma {:induction false} CoveragesAreInRange(peers: seq<Peer>, row: Row)
    ensures forall h, x :: h in CoveragesOf(peers, row) && x in h ==> x < |row.leaves|
  {
    if peers != [] {
      CoveragesAreInRange(peers[1..], row);
    }
  }

  lemma UsableStep(peers: seq<Peer>, row: Row, i: nat)
    requires i <= |peers|
    ensures if i == |peers| then UsableOf(peers[i..], row) == [] && CoveragesOf(peers[i..], row) == []
            else
              var coverage := Usable(peers[i], row);
              if coverage.Some? then
                UsableOf(peers[i..], row) == [peers[i]] + UsableOf(peers[i + 1..], row)
                && CoveragesOf(peers[i..], row) == [coverage.value] + CoveragesOf(peers[i + 1..], row)
              else
                UsableOf(peers[i..], row) == UsableOf(peers[i + 1..], row)
                && CoveragesOf(peers[i..], row) == CoveragesOf(peers[i + 1..], row)
  {
    hide Usable;
    if i < |peers| {
      assert peers[i..][0] == peers[i] && peers[i..][1..] == peers[i + 1..];
      assert [] + UsableOf(peers[i + 1..], row) == UsableOf(peers[i + 1..], row);
      assert [] + CoveragesOf(peers[i + 1..], row) == CoveragesOf(peers[i + 1..], row);
    }
  }

  /** Peers are kept in the order they come. */
  lemma {:induction false} UsableInOrder(a: seq<Peer>, b: seq<Peer>, row: Row)
    ensures UsableOf(a + b, row) == UsableOf(a, row) + UsableOf(b, row)
    ensures CoveragesOf(a + b, row) == CoveragesOf(a, row) + CoveragesOf(b, row)
  {
    hide Usable, UsableOf, CoveragesOf;
    UsableStep(a, row, 0);
    assert a[0..] == a;
    if a == [] {
      assert a + b == b;
    } else {
      UsableInOrder(a[1..], b, row);
      UsableStep(a + b, row, 0);
      assert (a + b)[0..] == a + b && (a + b)[0] == a[0] && (a + b)[1..] == a[1..] + b;
    }
  }

  method UsablePeers(peers: seq<Peer>, row: Row) returns (usable: seq<Peer>, holders: seq<Swarm.Coverage>)
    ensures usable == UsableOf(peers, row) && holders == CoveragesOf(peers, row)
  {
    hide Usable, UsableOf, CoveragesOf;
    usable, holders := [], [];
    assert peers[0..] == peers;
    UsableStep(peers, row, |peers|);
    for i := 0 to |peers|
      invariant usable + UsableOf(peers[i..], row) == UsableOf(peers, row)
      invariant holders + CoveragesOf(peers[i..], row) == CoveragesOf(peers, row)
    {
      UsableStep(peers, row, i);
      var coverage := Usable(peers[i], row);
      if coverage.Some? {
        usable := usable + [peers[i]];
        holders := holders + [coverage.value];
      }
    }
  }

  predicate PlansFor(plans: seq<Swarm.PeerPlan>, peers: nat) {
    forall k :: 0 <= k < |plans| ==> plans[k].peer < peers
  }

  /** What every queue together delivers and misses. */
  function SwarmHaul(plans: seq<Swarm.PeerPlan>, usable: seq<Peer>, row: Row, hash: Bytes -> Address):
      (seq<Chunk>, seq<nat>)
    requires PlansFor(plans, |usable|)
  {
    if plans == [] then ([], [])
    else
      var front, last := plans[..|plans| - 1], plans[|plans| - 1];
      var (got, missed) := SwarmHaul(front, usable, row, hash);
      var haul := Drained(usable[last.peer], row, last.positions, hash);
      (got + haul.chunks, missed + haul.missed)
  }

  lemma PlanIsForUsable(peers: seq<Peer>, row: Row, missing: seq<nat>)
    requires Distinct(missing)
    ensures PlansFor(Swarm.PlanOf(missing, CoveragesOf(peers, row)).peers, |UsableOf(peers, row)|)
  {
    hide Swarm.PlanOf, CoveragesOf, UsableOf;
    var holders := CoveragesOf(peers, row);
    forall k | 0 <= k < |Swarm.PlanOf(missing, holders).peers|
      ensures Swarm.PlanOf(missing, holders).peers[k].peer < |UsableOf(peers, row)|
    {
      QueueIsDistinct(missing, holders, k);
    }
  }

  /** The swarm's half: what it delivers, and what is left for home. */
  function SwarmFetched(peers: seq<Peer>, row: Row, missing: seq<nat>, hash: Bytes -> Address): (seq<Chunk>, seq<nat>)
    requires Distinct(missing)
  {
    PlanIsForUsable(peers, row, missing);
    var plan := Swarm.PlanOf(missing, CoveragesOf(peers, row));
    var (got, missed) := SwarmHaul(plan.peers, UsableOf(peers, row), row, hash);
    (got, plan.unheld + missed)
  }

  lemma HaulSnoc(plans: seq<Swarm.PeerPlan>, usable: seq<Peer>, row: Row, hash: Bytes -> Address, k: nat)
    requires PlansFor(plans, |usable|) && k < |plans|
    ensures var haul := Drained(usable[plans[k].peer], row, plans[k].positions, hash);
            var (got, missed) := SwarmHaul(plans[..k], usable, row, hash);
            SwarmHaul(plans[..k + 1], usable, row, hash) == (got + haul.chunks, missed + haul.missed)
  {
    assert plans[..k + 1][..k] == plans[..k];
  }

  /** How far the queues have come: what the first `k` of them delivered and
      missed accounts for all they were given. */
  ghost predicate SoFar(got: seq<Chunk>, missed: seq<nat>, plan: Swarm.Plan, k: nat, usable: seq<Peer>,
                        missing: seq<nat>, row: Row, hash: Bytes -> Address) {
    && k <= |plan.peers| && PlansFor(plan.peers, |usable|)
    && (got, missed) == SwarmHaul(plan.peers[..k], usable, row, hash)
    && Wanted(got, missing, row, hash)
    && (forall p :: p in missed ==> p in missing)
    && (forall j :: 0 <= j < k ==> Accounted(got, plan.unheld + missed, plan.peers[j].positions, row, hash))
  }

  lemma OneMoreQueue(got: seq<Chunk>, missed: seq<nat>, plan: Swarm.Plan, k: nat, usable: seq<Peer>,
                     missing: seq<nat>, row: Row, hash: Bytes -> Address)
    requires SoFar(got, missed, plan, k, usable, missing, row, hash) && k < |plan.peers|
    requires forall i :: 0 <= i < |plan.peers[k].positions| ==>
               plan.peers[k].positions[i] in missing && plan.peers[k].positions[i] < |row.leaves|
    ensures var haul := Drained(usable[plan.peers[k].peer], row, plan.peers[k].positions, hash);
            SoFar(got + haul.chunks, missed + haul.missed, plan, k + 1, usable, missing, row, hash)
  {
    hide Verified, Delivered, Accounted, Wanted, Drained, SwarmHaul;
    var peer, positions := usable[plan.peers[k].peer], plan.peers[k].positions;
    var haul, left := Drained(peer, row, positions, hash), plan.unheld + missed;
    HaulSnoc(plan.peers, usable, row, hash, k);
    DrainedSplits(peer, row, positions, hash);
    DrainedIsVerified(peer, row, positions, hash);
    GotOrMissed(got, haul.chunks, haul.at, left, haul.missed, positions, missing, row, hash);
    assert left + haul.missed == plan.unheld + (missed + haul.missed);
    forall j | 0 <= j < k
      ensures Accounted(got + haul.chunks, plan.unheld + (missed + haul.missed), plan.peers[j].positions, row, hash)
    {
      StillAccounted(got, haul.chunks, left, haul.missed, plan.peers[j].positions, row, hash);
    }
  }

  /** What nobody holds is left for home ahead of what a peer missed. */
  predicate UnheldFirst(peers: seq<Peer>, row: Row, missing: seq<nat>, left: seq<nat>) {
    Swarm.PlanOf(missing, CoveragesOf(peers, row)).unheld <= left
  }

  method DrainSwarm(peers: seq<Peer>, row: Row, missing: seq<nat>, hash: Bytes -> Address)
    returns (got: seq<Chunk>, left: seq<nat>)
    requires Distinct(missing)
    ensures (got, left) == SwarmFetched(peers, row, missing, hash)
    ensures Wanted(got, missing, row, hash) && Accounted(got, left, missing, row, hash)
    ensures forall p :: p in left ==> p in missing
    ensures UnheldFirst(peers, row, missing, left)
  {
    hide Verified, Delivered, Accounted, Wanted, UsableOf, CoveragesOf, Drained, SwarmHaul, Distinct;
    hide Swarm.PlanOf, Swarm.Assigned, Swarm.Orphan, Swarm.Ascending;
    var usable, holders := UsablePeers(peers, row);
    var plan := Swarm.MakePlan(missing, holders);
    Swarm.PlanConserves(missing, holders);
    PlanIsForUsable(peers, row, missing);
    CoveragesAreInRange(peers, row);
    var missedAll: seq<nat> := [];
    got := [];
    NothingHauled(usable, row, hash);
    NothingWanted(missing, row, hash);
    assert plan.peers[..0] == [];
    for k := 0 to |plan.peers|
      invariant SoFar(got, missedAll, plan, k, usable, missing, row, hash)
    {
      QueueIsDistinct(missing, holders, k);
      OneMoreQueue(got, missedAll, plan, k, usable, missing, row, hash);
      var bytes, missed, at := DrainQueue(usable[plan.peers[k].peer], row, plan.peers[k].positions, hash);
      got, missedAll := got + bytes, missedAll + missed;
    }
    left := plan.unheld + missedAll;
    assert plan.peers[..|plan.peers|] == plan.peers;
    AllAccounted(got, left, plan, missing, row, hash);
  }

  lemma NothingHauled(usable: seq<Peer>, row: Row, hash: Bytes -> Address)
    ensures SwarmHaul([], usable, row, hash) == ([], [])
  {
  }

  lemma NothingWanted(missing: seq<nat>, row: Row, hash: Bytes -> Address)
    ensures Wanted([], missing, row, hash)
  {
  }

  lemma StillAccounted(got: seq<Chunk>, bytes: seq<Chunk>, left: seq<nat>, missed: seq<nat>,
                       positions: seq<nat>, row: Row, hash: Bytes -> Address)
    requires Accounted(got, left, positions, row, hash)
    ensures Accounted(got + bytes, left + missed, positions, row, hash)
  {
    forall p | p in positions && p !in left ensures Delivered(got + bytes, p, row, hash) {
      var i :| 0 <= i < |got| && Verified(got[i], p, row, hash);
      assert (got + bytes)[i] == got[i];
    }
  }

  /** What the plan assigned or reported unheld is all that was missing. */
  lemma AllAccounted(got: seq<Chunk>, left: seq<nat>, plan: Swarm.Plan, missing: seq<nat>, row: Row,
                     hash: Bytes -> Address)
    requires Swarm.Assigned(plan.peers) + multiset(plan.unheld) == multiset(missing)
    requires forall p :: p in plan.unheld ==> p in left
    requires forall j :: 0 <= j < |plan.peers| ==> Accounted(got, left, plan.peers[j].positions, row, hash)
    ensures Accounted(got, left, missing, row, hash)
  {
    forall p | p in missing ensures p in left || Delivered(got, p, row, hash) {
      assert p in Swarm.Assigned(plan.peers) + multiset(plan.unheld);
      if p !in plan.unheld {
        AssignedIsQueued(plan.peers, p);
        var k :| 0 <= k < |plan.peers| && p in plan.peers[k].positions;
        assert Accounted(got, left, plan.peers[k].positions, row, hash);
      }
    }
  }

  lemma GotOrMissed(got: seq<Chunk>, bytes: seq<Chunk>, at: seq<nat>, left: seq<nat>, missed: seq<nat>,
                    positions: seq<nat>, missing: seq<nat>, row: Row, hash: Bytes -> Address)
    requires Wanted(got, missing, row, hash)
    requires forall i :: 0 <= i < |positions| ==> positions[i] in missing
    requires |at| == |bytes| && forall i :: 0 <= i < |bytes| ==> Verified(bytes[i], at[i], row, hash)
    requires multiset(at) + multiset(missed) == multiset(positions)
    ensures Wanted(got + bytes, missing, row, hash)
    ensures forall p :: p in missed ==> p in missing
    ensures Accounted(got + bytes, left + missed, positions, row, hash)
  {
    var all := got + bytes;
    forall p | p in missed ensures p in missing {
      assert p in multiset(at) + multiset(missed);
      assert p in multiset(positions);
    }
    forall i | 0 <= i < |all| ensures IsWanted(all[i], missing, row, hash) {
      if i < |got| {
        assert all[i] == got[i];
      } else {
        var p := at[i - |got|];
        assert p in multiset(at) + multiset(missed);
        assert p in multiset(positions);
        assert all[i] == bytes[i - |got|] && Verified(all[i], p, row, hash);
      }
    }
    forall p | p in positions && p !in missed ensures Delivered(all, p, row, hash) {
      assert p in multiset(positions);
      var k :| 0 <= k < |at| && at[k] == p;
      assert all[|got| + k] == bytes[k];
    }
  }

  method StoreAll(store: Store, got: seq<Chunk>) returns (after: Store, fetched: nat)
    ensures after == Stored(store, got) && fetched == TotalLength(got)
  {
    after, fetched := store, 0;
    for i := 0 to |got|
      invariant after == Stored(store, got[..i]) && fetched == TotalLength(got[..i])
    {
      assert got[..i + 1] == got[..i] + [got[i]];
      PutOne(store, got[..i], got[i]);
      after := after.(chunks := after.chunks[got[i].0 := got[i].1]);
      fetched := fetched + |got[i].1|;
    }
    assert got[..|got|] == got;
  }

  /** Home's half: what is still not stored, one position after another. */
  function HomeFetched(home: Home, row: Row, left: seq<nat>, store: Store, hash: Bytes -> Address):
      (Result<nat, Error>, Store)
    requires WellSized(row)
    decreases |left|
  {
    if left == [] then (Ok(0), store)
    else if left[0] >= |row.leaves| || row.leaves[left[0]] in store.chunks then
      HomeFetched(home, row, left[1..], store, hash)
    else
      var chunk := FromHome(home, row, left[0], hash);
      if chunk.Err? then (Err(chunk.error), store)
      else Tallied(|chunk.value|,
                   HomeFetched(home, row, left[1..], Put(store, (row.leaves[left[0]], chunk.value)), hash))
  }

  function Put(store: Store, chunk: Chunk): Store { store.(chunks := store.chunks[chunk.0 := chunk.1]) }

  function Tallied(n: nat, rest: (Result<nat, Error>, Store)): (Result<nat, Error>, Store) {
    (if rest.0.Ok? then Ok(n + rest.0.value) else rest.0, rest.1)
  }

  lemma HomeStep(home: Home, row: Row, left: seq<nat>, i: nat, store: Store, hash: Bytes -> Address)
    requires WellSized(row) && i < |left|
    ensures HomeFetched(home, row, left[i..], store, hash) ==
            if left[i] >= |row.leaves| || row.leaves[left[i]] in store.chunks then
              HomeFetched(home, row, left[i + 1..], store, hash)
            else
              var chunk := FromHome(home, row, left[i], hash);
              if chunk.Err? then (Err(chunk.error), store)
              else Tallied(|chunk.value|,
                           HomeFetched(home, row, left[i + 1..], Put(store, (row.leaves[left[i]], chunk.value)), hash))
  {
    assert left[i..][0] == left[i] && left[i..][1..] == left[i + 1..];
  }

  lemma TalliedTwice(a: nat, b: nat, rest: (Result<nat, Error>, Store))
    ensures Tallied(a, Tallied(b, rest)) == Tallied(a + b, rest)
    ensures Tallied(0, rest) == rest
  {
  }

  /** The store has every one of these positions the row has. */
  predicate Stocked(store: Store, positions: seq<nat>, row: Row) {
    forall p :: p in positions && p < |row.leaves| ==> row.leaves[p] in store.chunks
  }

  /** Home failed on a position whose chunk the store does not have. */
  ghost predicate HomeFailedAt(home: Home, row: Row, left: seq<nat>, after: Store, hash: Bytes -> Address, why: Error)
    requires WellSized(row)
  {
    exists p :: p in left && p < |row.leaves| && row.leaves[p] !in after.chunks
                && FromHome(home, row, p, hash) == Err(why)
  }

  /** The second half: home is asked for what is left. */
  method FetchLeft(home: Home, row: Row, left: seq<nat>, missing: seq<nat>, store: Store,
                   hash: Bytes -> Address)
    returns (r: Result<nat, Error>, after: Store, ghost puts: seq<Chunk>)
    requires WellSized(row) && forall p :: p in left ==> p in missing
    ensures (r, after) == HomeFetched(home, row, left, store, hash)
    ensures after == Stored(store, puts) && Wanted(puts, missing, row, hash)
    ensures r.Ok? ==> r.value == TotalLength(puts)
    ensures r.Ok? ==> Stocked(after, left, row)
    ensures r.Err? ==> HomeFailedAt(home, row, left, after, hash, r.error)
  {
    hide Verified, Wanted, HomeFetched, FromHome, Stored, TotalLength;
    NothingWanted(missing, row, hash);
    NothingStored(store);
    var fetched: nat := 0;
    after, puts := store, [];
    assert left[0..] == left;
    TalliedTwice(0, 0, HomeFetched(home, row, left, store, hash));
    for i := 0 to |left|
      invariant Tallied(fetched, HomeFetched(home, row, left[i..], after, hash)) ==
                HomeFetched(home, row, left, store, hash)
      invariant after == Stored(store, puts) && fetched == TotalLength(puts)
      invariant Wanted(puts, missing, row, hash)
      invariant forall j :: 0 <= j < i && left[j] < |row.leaves| ==> row.leaves[left[j]] in after.chunks
    {
      HomeStep(home, row, left, i, after, hash);
      assert left[i] in left;
      if left[i] < |row.leaves| && row.leaves[left[i]] !in after.chunks {
        var chunk := FetchOrRead(home, row, left[i], hash);
        if chunk.Err? {
          r := Err(chunk.error);
          return;
        }
        var put := (row.leaves[left[i]], chunk.value);
        PutOne(store, puts, put);
        WantedSnoc(puts, put, left[i], missing, row, hash);
        TalliedTwice(fetched, |chunk.value|, HomeFetched(home, row, left[i + 1..], Put(after, put), hash));
        after := Put(after, put);
        fetched := fetched + |chunk.value|;
        puts := puts + [put];
      }
    }
    assert left[|left|..] == [];
    HomeNothing(home, row, after, hash);
    r := Ok(fetched);
  }

  lemma HomeNothing(home: Home, row: Row, store: Store, hash: Bytes -> Address)
    requires WellSized(row)
    ensures HomeFetched(home, row, [], store, hash) == (Ok(0), store)
  {
  }

  lemma WantedSnoc(puts: seq<Chunk>, put: Chunk, p: nat, missing: seq<nat>, row: Row, hash: Bytes -> Address)
    requires Wanted(puts, missing, row, hash) && p in missing
    requires p < |row.leaves| && put.0 == row.leaves[p] && hash(put.1) == put.0
    ensures Wanted(puts + [put], missing, row, hash)
  {
    assert Verified(put, p, row, hash);
  }

  lemma {:induction false} StoredInTwo(store: Store, first: seq<Chunk>, second: seq<Chunk>)
    ensures Stored(store, first + second) == Stored(Stored(store, first), second)
    ensures TotalLength(first + second) == TotalLength(first) + TotalLength(second)
    decreases |second|
  {
    if second == [] {
      assert first + second == first;
    } else {
      var front, last := second[..|second| - 1], second[|second| - 1];
      StoredInTwo(store, first, front);
      assert first + second == first + front + [last];
      PutOne(store, first + front, last);
      PutOne(Stored(store, first), front, last);
      assert second == front + [last];
    }
  }

  /** What a fetch returns and what it leaves in the store. */
  function Fetched(peers: seq<Peer>, home: Home, row: Row, missing: seq<nat>, store: Store, hash: Bytes -> Address):
      (Result<nat, Error>, Store)
    requires WellSized(row) && Distinct(missing)
  {
    if missing == [] then (Ok(0), store)
    else
      var (got, left) := SwarmFetched(peers, row, missing, hash);
      Tallied(TotalLength(got), HomeFetched(home, row, left, Stored(store, got), hash))
  }

  // --------------------------------------------------- what the swarm can do alone

  /** A peer that answered for a row of this length and says it holds a position. */
  predicate Claims(peer: Peer, p: nat, row: Row) {
    peer.have.Some? && peer.have.value.0 == |row.leaves| && p in peer.have.value.1
  }

  /** A peer that delivers whatever it claims of this row. */
  ghost predicate KeepsItsWord(peer: Peer, row: Row, hash: Bytes -> Address) {
    forall p :: 0 <= p < |row.leaves| && Claims(peer, p, row) ==>
      peer.chunk(p).Bytes? && hash(peer.chunk(p).bytes) == row.leaves[p]
  }

  ghost predicate Claimed(peers: seq<Peer>, p: nat, row: Row) {
    exists k :: 0 <= k < |peers| && Claims(peers[k], p, row)
  }

  /** Every missing position is claimed by some peer, and claims can be trusted. */
  ghost predicate Covered(peers: seq<Peer>, row: Row, missing: seq<nat>, hash: Bytes -> Address) {
    && (forall k :: 0 <= k < |peers| ==> KeepsItsWord(peers[k], row, hash))
    && (forall p :: p in missing && p < |row.leaves| ==> Claimed(peers, p, row))
  }

  /** A coverage is what its peer claims, for a row of the right length only. */
  lemma {:induction false} CoveragesAreClaims(peers: seq<Peer>, row: Row, i: nat)
    requires i < |UsableOf(peers, row)|
    ensures UsableOf(peers, row)[i] in peers
    ensures forall p: nat ::
              p in CoveragesOf(peers, row)[i] <==> p < |row.leaves| && Claims(UsableOf(peers, row)[i], p, row)
  {
    if Usable(peers[0], row).None? {
      CoveragesAreClaims(peers[1..], row, i);
    } else if i > 0 {
      CoveragesAreClaims(peers[1..], row, i - 1);
    }
  }

  lemma {:induction false} ClaimsAreCovered(peers: seq<Peer>, row: Row, p: nat)
    requires p < |row.leaves| && Claimed(peers, p, row)
    ensures exists i :: 0 <= i < |CoveragesOf(peers, row)| && p in CoveragesOf(peers, row)[i]
  {
    if Claims(peers[0], p, row) {
      assert p in CoveragesOf(peers, row)[0];
    } else {
      var k :| 0 <= k < |peers| && Claims(peers[k], p, row);
      assert peers[1..][k - 1] == peers[k];
      ClaimsAreCovered(peers[1..], row, p);
      var rest, all := CoveragesOf(peers[1..], row), CoveragesOf(peers, row);
      var i :| 0 <= i < |rest| && p in rest[i];
      assert all[|all| - |rest| + i] == rest[i];
    }
  }

  /** A queue a peer can answer in full leaves nothing. */
  lemma {:induction false} AnsweredInFull(peer: Peer, row: Row, positions: seq<nat>, hash: Bytes -> Address)
    requires forall i :: 0 <= i < |positions| ==> Answers(peer, positions[i], row, hash)
    ensures Drained(peer, row, positions, hash).missed == []
  {
    if positions != [] {
      AnsweredInFull(peer, row, positions[1..], hash);
    }
  }

  ghost predicate Answerable(plans: seq<Swarm.PeerPlan>, usable: seq<Peer>, row: Row, hash: Bytes -> Address)
    requires PlansFor(plans, |usable|)
  {
    forall k, i :: 0 <= k < |plans| && 0 <= i < |plans[k].positions| ==>
      Answers(usable[plans[k].peer], plans[k].positions[i], row, hash)
  }

  lemma {:induction false} NothingMissed(plans: seq<Swarm.PeerPlan>, usable: seq<Peer>, row: Row,
                                         hash: Bytes -> Address)
    requires PlansFor(plans, |usable|) && Answerable(plans, usable, row, hash)
    ensures SwarmHaul(plans, usable, row, hash).1 == []
    decreases |plans|
  {
    hide Answers, Drained;
    if plans != [] {
      NothingMissed(plans[..|plans| - 1], usable, row, hash);
      AnsweredInFull(usable[plans[|plans| - 1].peer], row, plans[|plans| - 1].positions, hash);
    }
  }

  lemma QueueIsAnswered(peers: seq<Peer>, row: Row, missing: seq<nat>, hash: Bytes -> Address, k: nat)
    requires Distinct(missing) && Covered(peers, row, missing, hash)
    requires k < |Swarm.PlanOf(missing, CoveragesOf(peers, row)).peers|
    ensures var plan := Swarm.PlanOf(missing, CoveragesOf(peers, row)).peers[k];
            && plan.peer < |UsableOf(peers, row)|
            && forall i :: 0 <= i < |plan.positions| ==>
                 Answers(UsableOf(peers, row)[plan.peer], plan.positions[i], row, hash)
  {
    hide Swarm.PlanOf, Swarm.RarestFirst, CoveragesOf, UsableOf, Claims;
    var holders := CoveragesOf(peers, row);
    var plan := Swarm.PlanOf(missing, holders).peers[k];
    var order := Swarm.PlanIsRarestFirst(missing, holders, k);
    assert Swarm.HeldBy(plan.positions[0], holders, plan.peer);
    CoveragesAreClaims(peers, row, plan.peer);
    var peer := UsableOf(peers, row)[plan.peer];
    assert KeepsItsWord(peer, row, hash);
    forall i | 0 <= i < |plan.positions| ensures Answers(peer, plan.positions[i], row, hash) {
      assert Swarm.HeldBy(plan.positions[i], holders, plan.peer);
    }
  }

  /** A swarm that covers what is missing leaves home only what the row does not
      have. */
  lemma SwarmSuffices(peers: seq<Peer>, row: Row, missing: seq<nat>, hash: Bytes -> Address)
    requires Distinct(missing) && Covered(peers, row, missing, hash)
    ensures forall p :: p in SwarmFetched(peers, row, missing, hash).1 ==> p >= |row.leaves|
  {
    hide Swarm.PlanOf, CoveragesOf, UsableOf, Claims, Answers, SwarmHaul, Distinct, KeepsItsWord;
    var holders := CoveragesOf(peers, row);
    var plan := Swarm.PlanOf(missing, holders);
    PlanIsForUsable(peers, row, missing);
    forall k | 0 <= k < |plan.peers|
      ensures forall i :: 0 <= i < |plan.peers[k].positions| ==>
                Answers(UsableOf(peers, row)[plan.peers[k].peer], plan.peers[k].positions[i], row, hash)
    {
      QueueIsAnswered(peers, row, missing, hash, k);
    }
    NothingMissed(plan.peers, UsableOf(peers, row), row, hash);
    Swarm.PlanConserves(missing, holders);
    forall p | p in missing && p < |row.leaves| ensures !Swarm.Orphan(p, holders) {
      ClaimsAreCovered(peers, row, p);
      var i :| 0 <= i < |holders| && p in holders[i];
      assert Swarm.HeldBy(p, holders, i);
    }
  }

  lemma {:induction false} HomeNotAsked(home: Home, row: Row, left: seq<nat>, store: Store, hash: Bytes -> Address)
    requires WellSized(row) && forall p :: p in left ==> p >= |row.leaves|
    ensures HomeFetched(home, row, left, store, hash) == (Ok(0), store)
  {
    if left != [] {
      assert left[0] in left && forall p :: p in left[1..] ==> p in left;
      HomeNotAsked(home, row, left[1..], store, hash);
    }
  }

  /** **A swarm that holds everything needs no home**: if every missing chunk of
      the row is claimed by a peer that answered for a row of this length, and
      peers deliver what they claim, the fetch succeeds with what they deliver,
      whatever home does. */
  lemma HomeIsNotNeeded(peers: seq<Peer>, home: Home, row: Row, missing: seq<nat>, store: Store,
                        hash: Bytes -> Address)
    requires WellSized(row) && Distinct(missing) && Covered(peers, row, missing, hash)
    ensures var got := if missing == [] then [] else SwarmFetched(peers, row, missing, hash).0;
            Fetched(peers, home, row, missing, store, hash) == (Ok(TotalLength(got)), Stored(store, got))
  {
    hide SwarmFetched, HomeFetched, Covered;
    SwarmSuffices(peers, row, missing, hash);
    HomeNotAsked(home, row, SwarmFetched(peers, row, missing, hash).1,
                 Stored(store, SwarmFetched(peers, row, missing, hash).0), hash);
  }

  /** So one seeder of the whole file is enough. */
  lemma OneSeederSuffices(peer: Peer, home: Home, row: Row, file: Bytes, missing: seq<nat>, store: Store,
                          hash: Bytes -> Address)
    requires Describes(row, file, hash) && Distinct(missing)
    requires peer.have.Some? && peer.have.value.0 == |row.leaves|
    requires forall p :: 0 <= p < |row.leaves| ==> p in peer.have.value.1
    requires forall p :: 0 <= p < |row.leaves| ==>
               peer.chunk(p) == Reply.Bytes(file[RangeStart(p)..RangeEnd(row, p)])
    ensures Fetched([peer], home, row, missing, store, hash).0.Ok?
  {
    hide Fetched;
    assert KeepsItsWord(peer, row, hash);
    forall p | p in missing && p < |row.leaves| ensures Claimed([peer], p, row) {
      assert Claims([peer][0], p, row);
    }
    HomeIsNotNeeded([peer], home, row, missing, store, hash);
  }

  lemma {:induction false} MisfitIsSkipped(peers: seq<Peer>, k: nat, row: Row)
    requires k < |peers| && (peers[k].have.None? || peers[k].have.value.0 != |row.leaves|)
    ensures UsableOf(peers, row) == UsableOf(peers[..k] + peers[k + 1..], row)
    ensures CoveragesOf(peers, row) == CoveragesOf(peers[..k] + peers[k + 1..], row)
  {
    var others := peers[..k] + peers[k + 1..];
    if k == 0 {
      assert others == peers[1..];
    } else {
      MisfitIsSkipped(peers[1..], k - 1, row);
      assert others[0] == peers[0] && others[1..] == peers[1..][..k - 1] + peers[1..][k..];
    }
  }

  /** A peer that did not answer, or answered for a row of another length, changes
      nothing: the fetch goes as it would without it. */
  lemma MisfitsAreIgnored(peers: seq<Peer>, k: nat, home: Home, row: Row, missing: seq<nat>, store: Store,
                          hash: Bytes -> Address)
    requires WellSized(row) && Distinct(missing)
    requires k < |peers| && (peers[k].have.None? || peers[k].have.value.0 != |row.leaves|)
    ensures Fetched(peers, home, row, missing, store, hash) ==
            Fetched(peers[..k] + peers[k + 1..], home, row, missing, store, hash)
  {
    hide UsableOf, CoveragesOf, Swarm.PlanOf, HomeFetched, SwarmHaul;
    MisfitIsSkipped(peers, k, row);
  }

  /** **Fetching is right whatever the peers answer.** Only wanted chunks are ever
      stored, each one hashes to its address, the tally is what was stored, and a
      fetch that succeeds leaves every missing chunk of the row in the store. One
      that fails failed at home, on a chunk that is not stored, and none fails
      when the swarm covers what is missing. */
  method FetchMissing(peers: seq<Peer>, home: Home, row: Row, missing: seq<nat>, store: Store,
                      hash: Bytes -> Address)
    returns (r: Result<nat, Error>, after: Store, ghost puts: seq<Chunk>)
    requires WellSized(row) && Distinct(missing) && store.Sound(hash)
    ensures after == Stored(store, puts) && Wanted(puts, missing, row, hash)
    ensures after.Sound(hash) && after.maps == store.maps
    ensures forall a :: a in store.chunks ==> a in after.chunks
    ensures r.Ok? ==> r.value == TotalLength(puts)
    ensures r.Ok? ==> forall p :: p in missing && p < |row.leaves| ==> row.leaves[p] in after.chunks
    ensures r.Err? ==> exists p :: p in missing && p < |row.leaves| && row.leaves[p] !in after.chunks
                                   && FromHome(home, row, p, hash) == Err(r.error)
    ensures (r, after) == Fetched(peers, home, row, missing, store, hash)
    ensures Covered(peers, row, missing, hash) ==> r.Ok?
  {
    hide Stored, TotalLength, SwarmFetched, HomeFetched, FromHome, Covered, Fetched, Verified, Delivered, Wanted;
    hide Distinct, Store.Sound, WellSized, SwarmHaul, Accounted;
    hide UnheldFirst, Swarm.PlanOf, CoveragesOf, UsableOf;
    if Covered(peers, row, missing, hash) {
      HomeIsNotNeeded(peers, home, row, missing, store, hash);
    }
    if missing == [] {
      r, after, puts := Ok(0), store, [];
      NothingStored(store);
      NothingWanted(missing, row, hash);
      NothingToStock(store, row);
      NothingFetched(peers, home, row, store, hash);
    } else {
      var got, left := DrainSwarm(peers, row, missing, hash);
      var stored, fetched := StoreAll(store, got);
      var rest, all, more := FetchLeft(home, row, left, missing, stored, hash);
      after, puts := all, got + more;
      r := if rest.Ok? then Ok(fetched + rest.value) else rest;
      TwoHalves(home, row, missing, store, hash, got, left, rest, more);
      FetchedIs(peers, home, row, missing, store, hash, rest, all);
    }
  }

  /** What the two halves of a fetch amount to together. */
  lemma TwoHalves(home: Home, row: Row, missing: seq<nat>, store: Store, hash: Bytes -> Address, got: seq<Chunk>,
                  left: seq<nat>, rest: Result<nat, Error>, more: seq<Chunk>)
    requires WellSized(row) && store.Sound(hash) && forall p :: p in left ==> p in missing
    requires Wanted(got, missing, row, hash) && Wanted(more, missing, row, hash)
    requires Accounted(got, left, missing, row, hash)
    requires var after := Stored(Stored(store, got), more);
             && (rest.Ok? ==> Stocked(after, left, row))
             && (rest.Err? ==> HomeFailedAt(home, row, left, after, hash, rest.error))
    ensures var after := Stored(Stored(store, got), more);
            && after == Stored(store, got + more) && after.Sound(hash) && after.maps == store.maps
            && (forall a :: a in store.chunks ==> a in after.chunks)
            && (rest.Ok? ==> Stocked(after, missing, row))
            && (rest.Err? ==> HomeFailedAt(home, row, missing, after, hash, rest.error))
    ensures Wanted(got + more, missing, row, hash)
    ensures TotalLength(got + more) == TotalLength(got) + TotalLength(more)
  {
    hide Stored, TotalLength, FromHome, Verified, Delivered, Wanted, HomeFailedAt, Store.Sound, Accounted;
    hide Stocked;
    var stored := Stored(store, got);
    StoredInTwo(store, got, more);
    StoredIsSound(store, got, missing, row, hash);
    StoredIsSound(stored, more, missing, row, hash);
    WantedTogether(got, more, missing, row, hash);
    if rest.Ok? {
      AllStored(got, stored, Stored(stored, more), left, missing, row, hash);
    } else {
      FailedAmong(home, row, left, missing, Stored(stored, more), hash, rest.error);
    }
  }

  lemma NothingToStock(store: Store, row: Row)
    ensures Stocked(store, [], row)
  {
  }

  lemma FetchedIs(peers: seq<Peer>, home: Home, row: Row, missing: seq<nat>, store: Store, hash: Bytes -> Address,
                  rest: Result<nat, Error>, after: Store)
    requires WellSized(row) && Distinct(missing) && missing != []
    requires var (got, left) := SwarmFetched(peers, row, missing, hash);
             (rest, after) == HomeFetched(home, row, left, Stored(store, got), hash)
    ensures var got := SwarmFetched(peers, row, missing, hash).0;
            Fetched(peers, home, row, missing, store, hash) ==
            (if rest.Ok? then Ok(TotalLength(got) + rest.value) else rest, after)
  {
    hide SwarmFetched, HomeFetched, Stored, TotalLength;
  }

  lemma NothingFetched(peers: seq<Peer>, home: Home, row: Row, store: Store, hash: Bytes -> Address)
    requires WellSized(row)
    ensures Fetched(peers, home, row, [], store, hash) == (Ok(0), store)
  {
  }

  lemma WantedTogether(a: seq<Chunk>, b: seq<Chunk>, missing: seq<nat>, row: Row, hash: Bytes -> Address)
    requires Wanted(a, missing, row, hash) && Wanted(b, missing, row, hash)
    ensures Wanted(a + b, missing, row, hash)
  {
    hide IsWanted;
  }

  lemma FailedAmong(home: Home, row: Row, left: seq<nat>, missing: seq<nat>, after: Store, hash: Bytes -> Address,
                    why: Error)
    requires WellSized(row) && HomeFailedAt(home, row, left, after, hash, why)
    requires forall p :: p in left ==> p in missing
    ensures HomeFailedAt(home, row, missing, after, hash, why)
  {
    hide FromHome;
  }

  /** What the swarm delivered and home fetched is all that was missing. */
  lemma AllStored(got: seq<Chunk>, stored: Store, after: Store, left: seq<nat>, missing: seq<nat>,
                  row: Row, hash: Bytes -> Address)
    requires Accounted(got, left, missing, row, hash)
    requires forall i :: 0 <= i < |got| ==> got[i].0 in stored.chunks
    requires forall a :: a in stored.chunks ==> a in after.chunks
    requires Stocked(after, left, row)
    ensures Stocked(after, missing, row)
  {
    forall p | p in missing && p !in left && p < |row.leaves| ensures row.leaves[p] in after.chunks {
      assert Delivered(got, p, row, hash);
      var i :| 0 <= i < |got| && Verified(got[i], p, row, hash);
    }
  }

  lemma NothingStored(store: Store)
    ensures Stored(store, []) == store && TotalLength([]) == 0
  {
  }
}
