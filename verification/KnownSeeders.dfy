/** The roster of seeders a tab remembers between connects: newest vote first,
    capped, expiring, and spent only by evidence about the peer. */
module KnownSeeders {
  import opened Wrappers

  const KNOWN_SEEDERS_CAP: nat := 4
  const KNOWN_SEEDER_TTL_MS: int := 24 * 60 * 60 * 1000
  const KNOWN_SEEDER_STRIKE_LIMIT: nat := 3

  datatype Seeder = Seeder(endpoint: string, tree: string, seen: int, strikes: nat)

  datatype Refusal = Refusal(endpoint: string, unreached: bool)

  // -------------------------------------------------------------- operations

  function Kept(list: seq<Seeder>, keep: Seeder -> bool): seq<Seeder> {
    if list == [] then []
    else (if keep(list[0]) then [list[0]] else []) + Kept(list[1..], keep)
  }

  function Unexpired(now: int): Seeder -> bool { (s: Seeder) => now - s.seen < KNOWN_SEEDER_TTL_MS }

  function OtherThan(endpoints: seq<string>): Seeder -> bool { (s: Seeder) => s.endpoint !in endpoints }

  function Capped(list: seq<Seeder>): seq<Seeder> {
    if |list| <= KNOWN_SEEDERS_CAP then list else list[..KNOWN_SEEDERS_CAP]
  }

  /** Reading the stored roster drops what has expired and what is past the cap. */
  function Loaded(stored: seq<Seeder>, now: int): seq<Seeder> {
    Capped(Kept(stored, Unexpired(now)))
  }

  function Upserted(list: seq<Seeder>, entry: Seeder): seq<Seeder> {
    Capped([entry] + Kept(list, OtherThan([entry.endpoint])))
  }

  /** The first refusal of an endpoint, if it refused at all. */
  function FirstRefusal(refusals: seq<Refusal>, endpoint: string): Option<Refusal> {
    if refusals == [] then None
    else if refusals[0].endpoint == endpoint then Some(refusals[0])
    else FirstRefusal(refusals[1..], endpoint)
  }

  function Judged(entry: Seeder, refusals: seq<Refusal>): Option<Seeder> {
    match FirstRefusal(refusals, entry.endpoint)
    case None => Some(entry)
    case Some(refusal) =>
      if !refusal.unreached then Some(entry.(strikes := 0))
      else if entry.strikes + 1 < KNOWN_SEEDER_STRIKE_LIMIT then Some(entry.(strikes := entry.strikes + 1))
      else None
  }

  function RosterAfterFailedLane(list: seq<Seeder>, refusals: seq<Refusal>): seq<Seeder> {
    if list == [] then []
    else
      (match Judged(list[0], refusals) case None => [] case Some(s) => [s])
      + RosterAfterFailedLane(list[1..], refusals)
  }

  datatype Event =
    | Vote(endpoint: string, tree: string)
    | LaneFailed(refusals: seq<Refusal>)
    | LaneWon(winner: string)
    | Forget(endpoints: seq<string>)

  type History = seq<(int, Event)>

  /** What the roster holds after an event at `now`. */
  function Stepped(stored: seq<Seeder>, now: int, event: Event): seq<Seeder> {
    var list := Loaded(stored, now);
    match event
    case Vote(endpoint, tree) => Upserted(list, Seeder(endpoint, tree, now, 0))
    case LaneFailed(refusals) => RosterAfterFailedLane(list, refusals)
    case LaneWon(winner) => RosterAfterFailedLane(list, [Refusal(winner, false)])
    case Forget(endpoints) => Kept(list, OtherThan(endpoints))
  }

  function Roster(h: History): seq<Seeder> {
    if h == [] then []
    else Stepped(Roster(h[..|h| - 1]), h[|h| - 1].0, h[|h| - 1].1)
  }

  // ----------------------------------------- what the history says of a peer

  /** When the mesh last voted for an endpoint, as a place in the history. */
  function LastVote(h: History, endpoint: string): (at: int)
    ensures -1 <= at < |h|
    ensures at >= 0 ==> h[at].1.Vote? && h[at].1.endpoint == endpoint
  {
    if h == [] then -1
    else
      var event := h[|h| - 1].1;
      if event.Vote? && event.endpoint == endpoint then |h| - 1 else LastVote(h[..|h| - 1], endpoint)
  }

  /** What an event is, seen from one endpoint. */
  datatype Evidence = Alive | Missed | Silent

  function EvidenceOf(event: Event, endpoint: string): Evidence {
    match event
    case Vote(voted, _) => if voted == endpoint then Alive else Silent
    case LaneWon(winner) => if winner == endpoint then Alive else Silent
    case Forget(_) => Silent
    case LaneFailed(refusals) =>
      match FirstRefusal(refusals, endpoint)
      case None => Silent
      case Some(refusal) => if refusal.unreached then Missed else Alive
  }

  /** Misses in a row: attempts that reached nobody since the peer last answered
      or was voted for. */
  function Misses(h: History, endpoint: string): nat {
    if h == [] then 0
    else match EvidenceOf(h[|h| - 1].1, endpoint)
      case Alive => 0
      case Missed => Misses(h[..|h| - 1], endpoint) + 1
      case Silent => Misses(h[..|h| - 1], endpoint)
  }

  // --------------------------------------------------------------- invariant

  /** A record says what the history says. */
  predicate Truthful(h: History, s: Seeder) {
    var at := LastVote(h, s.endpoint);
    at >= 0 && h[at] == (s.seen, Vote(s.endpoint, s.tree))
    && s.strikes == Misses(h, s.endpoint) < KNOWN_SEEDER_STRIKE_LIMIT
  }

  /** Most recently voted for first, so no endpoint twice. */
  predicate NewestFirst(h: History, list: seq<Seeder>) {
    forall i, j :: 0 <= i < j < |list| ==> LastVote(h, list[i].endpoint) > LastVote(h, list[j].endpoint)
  }

  predicate AllTruthful(h: History, list: seq<Seeder>) {
    forall i :: 0 <= i < |list| ==> Truthful(h, list[i])
  }

  predicate Good(h: History, list: seq<Seeder>) { NewestFirst(h, list) && AllTruthful(h, list) }

  lemma GoodTail(h: History, list: seq<Seeder>)
    requires Good(h, list) && list != []
    ensures Good(h, list[1..]) && Truthful(h, list[0])
    ensures forall i :: 0 <= i < |list[1..]| ==> LastVote(h, list[0].endpoint) > LastVote(h, list[1..][i].endpoint)
  {
  }

  predicate Before(h: History, at: int, list: seq<Seeder>) {
    forall i :: 0 <= i < |list| ==> at > LastVote(h, list[i].endpoint)
  }

  lemma GoodCons(h: History, first: Seeder, rest: seq<Seeder>)
    requires Good(h, rest) && Truthful(h, first) && Before(h, LastVote(h, first.endpoint), rest)
    ensures Good(h, [first] + rest)
  {
  }

  lemma {:induction false} KeptIsGood(h: History, list: seq<Seeder>, keep: Seeder -> bool, at: int)
    requires Good(h, list) && Before(h, at, list)
    ensures Good(h, Kept(list, keep)) && Before(h, at, Kept(list, keep))
    ensures forall s :: s in Kept(list, keep) <==> s in list && keep(s)
  {
    hide Good, Truthful;
    if list != [] {
      GoodTail(h, list);
      KeptIsGood(h, list[1..], keep, LastVote(h, list[0].endpoint));
      KeptIsGood(h, list[1..], keep, at);
      if keep(list[0]) {
        GoodCons(h, list[0], Kept(list[1..], keep));
      } else {
        assert [] + Kept(list[1..], keep) == Kept(list[1..], keep);
      }
    }
  }

  /** Nobody was voted for after the end of the history. */
  lemma LoadedIsGood(h: History, list: seq<Seeder>, now: int)
    requires Good(h, list)
    ensures Good(h, Loaded(list, now)) && |Loaded(list, now)| <= KNOWN_SEEDERS_CAP
  {
    KeptIsGood(h, list, Unexpired(now), |h|);
  }

  lemma SnocVotes(h: History, now: int, event: Event, endpoint: string)
    ensures var t := h + [(now, event)];
            && LastVote(t, endpoint) ==
               (if event.Vote? && event.endpoint == endpoint then |h| else LastVote(h, endpoint))
            && Misses(t, endpoint) ==
               match EvidenceOf(event, endpoint)
               case Alive => 0
               case Missed => Misses(h, endpoint) + 1
               case Silent => Misses(h, endpoint)
  {
    assert (h + [(now, event)])[..|h|] == h;
  }

  /** A record judged by a lane keeps its place, and counts what it saw. */
  lemma JudgedIsTruthful(h: History, now: int, event: Event, s: Seeder, refusals: seq<Refusal>)
    requires Truthful(h, s) && !event.Vote?
    requires EvidenceOf(event, s.endpoint) ==
             match FirstRefusal(refusals, s.endpoint)
             case None => Silent
             case Some(r) => if r.unreached then Missed else Alive
    ensures var t := h + [(now, event)];
            match Judged(s, refusals)
            case None => Misses(t, s.endpoint) >= KNOWN_SEEDER_STRIKE_LIMIT
            case Some(kept) => Truthful(t, kept) && kept.endpoint == s.endpoint
  {
    SnocVotes(h, now, event, s.endpoint);
  }

  predicate Judges(event: Event, refusals: seq<Refusal>) {
    (event.LaneFailed? && event.refusals == refusals)
    || (event.LaneWon? && refusals == [Refusal(event.winner, false)])
  }

  lemma JudgesEvidence(event: Event, refusals: seq<Refusal>, endpoint: string)
    requires Judges(event, refusals)
    ensures EvidenceOf(event, endpoint) ==
            match FirstRefusal(refusals, endpoint)
            case None => Silent
            case Some(r) => if r.unreached then Missed else Alive
  {
    if event.LaneWon? {
      assert refusals[1..] == [];
    }
  }

  lemma {:induction false} LaneIsGood(h: History, now: int, event: Event, list: seq<Seeder>,
                                      refusals: seq<Refusal>, at: int)
    requires Good(h, list) && Judges(event, refusals) && Before(h, at, list)
    ensures var t, after := h + [(now, event)], RosterAfterFailedLane(list, refusals);
            Good(t, after) && Before(t, at, after) && |after| <= |list|
  {
    hide Truthful, Good, Judged, FirstRefusal;
    var t := h + [(now, event)];
    if list == [] {
      NothingIsGood(t);
    } else {
      GoodTail(h, list);
      var s, rest := list[0], RosterAfterFailedLane(list[1..], refusals);
      LaneIsGood(h, now, event, list[1..], refusals, LastVote(h, s.endpoint));
      LaneIsGood(h, now, event, list[1..], refusals, at);
      JudgesEvidence(event, refusals, s.endpoint);
      JudgedIsTruthful(h, now, event, s, refusals);
      SnocVotes(h, now, event, s.endpoint);
      if Judged(s, refusals).Some? {
        GoodCons(t, Judged(s, refusals).value, rest);
      } else {
        assert [] + rest == rest;
      }
    }
  }

  lemma NothingIsGood(h: History)
    ensures Good(h, [])
  {
  }

  lemma {:induction false} UntouchedIsGood(h: History, now: int, event: Event, list: seq<Seeder>, at: int)
    requires Good(h, list) && Before(h, at, list)
    requires forall i :: 0 <= i < |list| ==> EvidenceOf(event, list[i].endpoint).Silent?
    ensures Good(h + [(now, event)], list) && Before(h + [(now, event)], at, list)
  {
    var t := h + [(now, event)];
    forall i | 0 <= i < |list| ensures LastVote(t, list[i].endpoint) == LastVote(h, list[i].endpoint)
                                    && Truthful(t, list[i]) {
      SnocVotes(h, now, event, list[i].endpoint);
    }
  }

  lemma VoteIsGood(h: History, now: int, event: Event, list: seq<Seeder>)
    requires Good(h, list) && event.Vote?
    ensures Good(h + [(now, event)], Upserted(list, Seeder(event.endpoint, event.tree, now, 0)))
  {
    hide Truthful;
    var entry, t := Seeder(event.endpoint, event.tree, now, 0), h + [(now, event)];
    var others := Kept(list, OtherThan([entry.endpoint]));
    KeptIsGood(h, list, OtherThan([entry.endpoint]), |h|);
    assert forall i :: 0 <= i < |others| ==> others[i] in others;
    UntouchedIsGood(h, now, event, others, |h|);
    SnocVotes(h, now, event, entry.endpoint);
    VotedIsTruthful(h, now, event);
    GoodCons(t, entry, others);
  }

  lemma VotedIsTruthful(h: History, now: int, event: Event)
    requires event.Vote?
    ensures Truthful(h + [(now, event)], Seeder(event.endpoint, event.tree, now, 0))
  {
    SnocVotes(h, now, event, event.endpoint);
  }

  lemma StepIsGood(h: History, now: int, event: Event, list: seq<Seeder>)
    requires Good(h, list) && |list| <= KNOWN_SEEDERS_CAP
    ensures Good(h + [(now, event)], Stepped(list, now, event))
    ensures |Stepped(list, now, event)| <= KNOWN_SEEDERS_CAP
  {
    hide Good, Truthful, Loaded;
    var loaded := Loaded(list, now);
    LoadedIsGood(h, list, now);
    match event {
      case Vote(_, _) => VoteIsGood(h, now, event, loaded);
      case LaneFailed(refusals) => LaneIsGood(h, now, event, loaded, refusals, |h|);
      case LaneWon(winner) => LaneIsGood(h, now, event, loaded, [Refusal(winner, false)], |h|);
      case Forget(endpoints) =>
        KeptIsGood(h, loaded, OtherThan(endpoints), |h|);
        KeptIsShorter(loaded, OtherThan(endpoints));
        UntouchedIsGood(h, now, event, Kept(loaded, OtherThan(endpoints)), |h|);
    }
  }

  lemma {:induction false} KeptIsShorter(list: seq<Seeder>, keep: Seeder -> bool)
    ensures |Kept(list, keep)| <= |list|
  {
    if list != [] {
      KeptIsShorter(list[1..], keep);
    }
  }

  // --------------------------------------------------------------- main laws

  /** Over every run: at most four records, no endpoint twice, most recently
      voted first; each record's clock is the time of its last vote, its tree
      the one voted for, and its strikes the misses since it last answered or
      was voted for, always below the limit. */
  lemma {:induction false} RosterTellsItsHistory(h: History)
    ensures Good(h, Roster(h)) && |Roster(h)| <= KNOWN_SEEDERS_CAP
  {
    if h != [] {
      var front, last := h[..|h| - 1], h[|h| - 1];
      RosterTellsItsHistory(front);
      StepIsGood(front, last.0, last.1, Roster(front));
      assert front + [(last.0, last.1)] == h;
    }
  }

  lemma GoodIsDistinct(h: History, list: seq<Seeder>, i: nat, j: nat)
    requires Good(h, list) && i < |list| && j < |list|
    ensures list[i].endpoint == list[j].endpoint ==> i == j
  {
  }

  /** No endpoint appears twice. */
  lemma EndpointsAreDistinct(h: History, i: nat, j: nat)
    requires i < j < |Roster(h)|
    ensures Roster(h)[i].endpoint != Roster(h)[j].endpoint
  {
    RosterTellsItsHistory(h);
    GoodIsDistinct(h, Roster(h), i, j);
  }

  predicate Lists(list: seq<Seeder>, endpoint: string) {
    exists i :: 0 <= i < |list| && list[i].endpoint == endpoint
  }

  lemma {:induction false} LaneKeeps(list: seq<Seeder>, refusals: seq<Refusal>, endpoint: string)
    ensures Lists(RosterAfterFailedLane(list, refusals), endpoint) <==>
            exists i :: 0 <= i < |list| && list[i].endpoint == endpoint && Judged(list[i], refusals).Some?
  {
    if list != [] {
      var rest := RosterAfterFailedLane(list[1..], refusals);
      LaneKeeps(list[1..], refusals, endpoint);
      if Lists(rest, endpoint) {
        var i :| 0 <= i < |list[1..]| && list[1..][i].endpoint == endpoint && Judged(list[1..][i], refusals).Some?;
        assert list[i + 1] == list[1..][i];
        var k :| 0 <= k < |rest| && rest[k].endpoint == endpoint;
        var n := |RosterAfterFailedLane(list, refusals)| - |rest|;
        assert RosterAfterFailedLane(list, refusals)[n + k] == rest[k];
      }
      if Judged(list[0], refusals).Some? && list[0].endpoint == endpoint {
        assert RosterAfterFailedLane(list, refusals)[0].endpoint == endpoint;
      }
      forall i | 0 < i < |list| && list[i].endpoint == endpoint && Judged(list[i], refusals).Some?
        ensures Lists(rest, endpoint) {
        assert list[1..][i - 1] == list[i];
      }
    }
  }

  /** A failed lane drops a record it could read exactly when that is the third
      miss in a row. */
  lemma ThirdMissDrops(h: History, now: int, refusals: seq<Refusal>, s: Seeder)
    requires s in Loaded(Roster(h), now)
    ensures var t := h + [(now, LaneFailed(refusals))];
            Lists(Roster(t), s.endpoint) <==> Misses(t, s.endpoint) < 3
  {
    hide Loaded, Judged, FirstRefusal, Truthful;
    var event := LaneFailed(refusals);
    var t, loaded := h + [(now, event)], Loaded(Roster(h), now);
    assert t[..|h|] == h;
    RosterTellsItsHistory(h);
    LoadedIsGood(h, Roster(h), now);
    var k :| 0 <= k < |loaded| && loaded[k] == s;
    JudgedIsTruthful(h, now, event, s, refusals);
    LaneKeeps(loaded, refusals, s.endpoint);
    forall i | 0 <= i < |loaded| && loaded[i].endpoint == s.endpoint ensures i == k {
      GoodIsDistinct(h, loaded, i, k);
    }
  }

  // ------------------------------------------------------- who stays on the roster

  lemma {:induction false} KeptAre(list: seq<Seeder>, keep: Seeder -> bool, s: Seeder)
    ensures s in Kept(list, keep) <==> s in list && keep(s)
  {
    if list != [] {
      KeptAre(list[1..], keep, s);
      assert list == [list[0]] + list[1..];
    }
  }

  lemma {:induction false} AllKept(list: seq<Seeder>, keep: Seeder -> bool)
    ensures |Kept(list, keep)| == |list| <==> Kept(list, keep) == list
    ensures |Kept(list, keep)| == |list| <==> forall i :: 0 <= i < |list| ==> keep(list[i])
    ensures |Kept(list, keep)| <= |list|
  {
    if list != [] {
      AllKept(list[1..], keep);
      assert (forall i :: 0 <= i < |list| ==> keep(list[i])) <==>
             keep(list[0]) && forall i :: 0 <= i < |list[1..]| ==> keep(list[1..][i]);
      if keep(list[0]) && Kept(list[1..], keep) == list[1..] {
        assert Kept(list, keep) == [list[0]] + list[1..] == list;
      }
    }
  }

  /** A record is read back for a day after the vote that made it, and no longer. */
  lemma LoadedIff(h: History, now: int, s: Seeder)
    ensures s in Loaded(Roster(h), now) <==> s in Roster(h) && now - s.seen < 86_400_000
  {
    RosterTellsItsHistory(h);
    KeptAre(Roster(h), Unexpired(now), s);
    AllKept(Roster(h), Unexpired(now));
  }

  /** A full roster without the endpoint voted for loses its oldest record. */
  predicate PushedOut(list: seq<Seeder>, voted: string, s: Seeder) {
    |list| == 4 && !Lists(list, voted) && s == list[3]
  }

  /** A vote comes first and replaces the record of its own endpoint; every other
      record stays, but for the oldest of a full roster that has to make room. */
  lemma VoteKeepsTheOthers(h: History, now: int, endpoint: string, tree: string, s: Seeder)
    ensures var before, after := Loaded(Roster(h), now), Roster(h + [(now, Vote(endpoint, tree))]);
            && after != [] && after[0] == Seeder(endpoint, tree, now, 0)
            && (s in after <==>
                s == after[0] || (s in before && s.endpoint != endpoint && !PushedOut(before, endpoint, s)))
  {
    hide Loaded, Good, Kept;
    var t := h + [(now, Vote(endpoint, tree))];
    assert t[..|h|] == h;
    RosterTellsItsHistory(h);
    LoadedIsGood(h, Roster(h), now);
    var before, keep := Loaded(Roster(h), now), OtherThan([endpoint]);
    KeptAre(before, keep, s);
    AllKept(before, keep);
    if |Kept(before, keep)| == 4 {
      assert !Lists(before, endpoint);
      LastIsPushedOut(h, before, s);
      var entry := Seeder(endpoint, tree, now, 0);
      assert Upserted(before, entry) == [entry] + before[..3];
    } else {
      assert |before| == 4 ==> Lists(before, endpoint);
    }
  }

  lemma LastIsPushedOut(h: History, list: seq<Seeder>, s: Seeder)
    requires Good(h, list) && |list| == 4
    ensures s in list[..3] <==> s in list && s != list[3]
  {
    forall i | 0 <= i < 3 ensures list[i].endpoint != list[3].endpoint {
      GoodIsDistinct(h, list, i, 3);
    }
    assert list == list[..3] + [list[3]];
  }

  /** Forgetting takes those endpoints off and leaves the rest as they are. */
  lemma ForgetKeepsTheRest(h: History, now: int, endpoints: seq<string>, s: Seeder)
    ensures s in Roster(h + [(now, Forget(endpoints))]) <==>
            s in Loaded(Roster(h), now) && s.endpoint !in endpoints
  {
    var t := h + [(now, Forget(endpoints))];
    assert t[..|h|] == h;
    KeptAre(Loaded(Roster(h), now), OtherThan(endpoints), s);
  }

  /** A lane somebody won takes nobody off. */
  lemma WinKeepsEverybody(h: History, now: int, winner: string, endpoint: string)
    ensures Lists(Roster(h + [(now, LaneWon(winner))]), endpoint) <==> Lists(Loaded(Roster(h), now), endpoint)
  {
    hide Loaded;
    var t := h + [(now, LaneWon(winner))];
    assert t[..|h|] == h;
    var refusals := [Refusal(winner, false)];
    assert refusals[1..] == [];
    forall s: Seeder ensures Judged(s, refusals).Some? {
      assert FirstRefusal(refusals[1..], s.endpoint) == None;
    }
    LaneKeeps(Loaded(Roster(h), now), refusals, endpoint);
  }
}
