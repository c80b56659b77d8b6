/**
 The memberships a tab keeps alive across connection attempts.

 A dead-origin attempt mints a membership, claims its share's place in a
 registry, and lends it to the clients it stands up. Endpoint clones share one
 socket, so retiring a membership cuts off everyone holding it: reference counts
 decide when that is safe. Steps of different attempts and clients interleave
 freely; the page's own shutdown is not modelled.
 */
module WaitingMesh {
  import opened Wrappers

  type Key = nat
  type Peer = nat

  /** Who can hold a reference, and for which share: an attempt in flight, a
      client homed on a membership, or a clone some task keeps for a moment. */
  datatype Holder = Attempt(id: nat, key: Key) | Client(id: nat, key: Key) | Pin(id: nat, key: Key)

  datatype State = State(
    registry: map<Key, Peer>,
    holds: map<Holder, Peer>,
    marked: set<Peer>,
    minted: map<Peer, Key>,
    owed: map<Peer, Holder>,
    retired: set<Peer>,
    gone: set<Holder>,
    used: set<Peer>)

  const EMPTY := State(map[], map[], {}, map[], map[], {}, {}, {})

  function Holding(holds: map<Holder, Peer>, p: Peer): set<Holder> { set h | h in holds && holds[h] == p }

  function HoldersOf(s: State, p: Peer): set<Holder> { Holding(s.holds, p) }

  predicate Registered(s: State, key: Key, p: Peer) { key in s.registry && s.registry[key] == p }

  /** The strong count of a membership: everyone who holds it, and the registry. */
  function Count(holds: map<Holder, Peer>, registry: map<Key, Peer>, p: Peer): nat {
    |Holding(holds, p)| + if p in registry.Values then 1 else 0
  }

  function Refs(s: State, p: Peer): nat { Count(s.holds, s.registry, p) }

  const REGISTRY_ONLY_PEER_REFS := 1

  predicate SafeToRetire(refs: nat) { refs <= REGISTRY_ONLY_PEER_REFS }

  predicate CollectDuplicateNow(marked: bool, refs: nat) { marked && SafeToRetire(refs) }

  // ------------------------------------------------------------------- steps

  datatype Step =
    | Find(a: Holder)                    // an attempt looks its share up
    | Claim(a: Holder, mine: Peer)       // an attempt has minted a membership
    | Farewell(mine: Peer)               // the loser of a claim retires its own
    | Adopt(a: Holder, c: Holder)        // an attempt's winner becomes a client
    | Join(c: Holder, own: Peer)         // an origin client's own mesh join lands
    | OriginWon(key: Key)                // ... and finds what earlier attempts left
    | LetGo(h: Holder)                   // an attempt or a pin ends
    | Borrow(h: Holder, from: Peer)      // a task clones a reference
    | Leave(c: Holder)                   // a client is released

  function Held(s: State, h: Holder, p: Peer): State { s.(holds := s.holds[h := p]) }

  function Dropped(s: State, h: Holder): State { s.(holds := s.holds - {h}) }

  function Removed(s: State, key: Key): State
    requires key in s.registry
  {
    s.(registry := s.registry - {key}, retired := s.retired + {s.registry[key]})
  }

  predicate Reachable(s: State, key: Key, p: Peer) {
    Registered(s, key, p) || exists g :: g in s.holds && s.holds[g] == p && g.key == key
  }

  predicate Enabled(s: State, step: Step) {
    match step
    case Find(a) => a.Attempt? && a !in s.holds
    case Claim(a, mine) => a.Attempt? && a !in s.holds && mine !in s.used
    case Farewell(mine) => mine in s.owed
    case Adopt(a, c) => a.Attempt? && a in s.holds && c.Client? && c !in s.holds && c !in s.gone && c.key == a.key
    case Join(c, own) => c.Client? && c !in s.holds && own !in s.used
    case OriginWon(_) => true
    case LetGo(h) => !h.Client? && h in s.holds
    case Borrow(h, from) => h.Pin? && h !in s.holds && Reachable(s, h.key, from)
    case Leave(c) => c.Client?
  }

  function Claimed(s: State, a: Holder, mine: Peer): State {
    var t := s.(minted := s.minted[mine := a.key], used := s.used + {mine});
    if a.key in s.registry then Held(t, a, s.registry[a.key]).(owed := s.owed[mine := a])
    else Held(t, a, mine).(registry := s.registry[a.key := mine])
  }

  function Won(s: State, key: Key): State {
    if key !in s.registry then s
    else if SafeToRetire(Refs(s, s.registry[key])) then Removed(s, key)
    else s.(marked := s.marked + {s.registry[key]})
  }

  /** A join that lands after its client was released says goodbye at once. */
  function Joined(s: State, c: Holder, own: Peer): State {
    var t := s.(used := s.used + {own});
    if c in s.gone then t.(retired := s.retired + {own}) else Held(t, c, own)
  }

  function Left(s: State, c: Holder): State {
    if c !in s.holds then s.(gone := s.gone + {c}) else
    var p := s.holds[c];
    var t := Dropped(s, c).(gone := s.gone + {c});
    if !Registered(s, c.key, p) then t.(retired := s.retired + {p})
    else if CollectDuplicateNow(p in s.marked, Refs(t, p)) then Removed(t, c.key)
    else t
  }

  function Next(s: State, step: Step): State
    requires Enabled(s, step)
  {
    match step
    case Find(a) => if a.key in s.registry then Held(s, a, s.registry[a.key]) else s
    case Claim(a, mine) => Claimed(s, a, mine)
    case Farewell(mine) => s.(owed := s.owed - {mine}, retired := s.retired + {mine})
    case Adopt(a, c) => Held(s, c, s.holds[a])
    case Join(c, own) => Joined(s, c, own)
    case OriginWon(key) => Won(s, key)
    case LetGo(h) => Dropped(s, h)
    case Borrow(h, from) => Held(s, h, from)
    case Leave(c) => Left(s, c)
  }

  ghost predicate Run(s: State, steps: seq<Step>, t: State)
    decreases |steps|
  {
    if steps == [] then s == t
    else Enabled(s, steps[0]) && Run(Next(s, steps[0]), steps[1..], t)
  }

  // --------------------------------------------------------------- invariant

  /** The registry names live minted memberships, each under its own share. */
  ghost predicate RegistryIsLive(s: State) {
    forall k :: k in s.registry ==>
      var p := s.registry[k];
      p in s.minted && s.minted[p] == k && p !in s.retired && p !in s.owed
  }

  /** Whoever holds a minted membership holds the registered one of its share;
      attempts hold nothing else. */
  ghost predicate MintedIsShared(s: State) {
    forall h :: h in s.holds ==>
      && s.holds[h] in s.used
      && (h.Attempt? || s.holds[h] in s.minted ==> Registered(s, h.key, s.holds[h]))
  }

  /** An origin client's own membership is held by no other client. */
  ghost predicate OwnIsOwn(s: State) {
    forall g, h :: g in s.holds && h in s.holds && g.Client? && h.Client? && s.holds[g] == s.holds[h] ==>
      g == h || s.holds[g] in s.minted
  }

  /** No client or attempt holds a retired membership. */
  ghost predicate NothingHeldIsRetired(s: State) {
    forall h :: h in s.holds && !h.Pin? ==> s.holds[h] !in s.retired
  }

  /** Every minted membership is registered, or owed a farewell by the attempt
      that minted it, or retired. */
  ghost predicate Accounted(s: State) {
    forall p :: p in s.minted ==> Registered(s, s.minted[p], p) || p in s.owed || p in s.retired
  }

  ghost predicate NothingFromNowhere(s: State) {
    && (forall p :: p in s.minted ==> p in s.used)
    && (forall p :: p in s.retired ==> p in s.used)
    && (forall p :: p in s.owed ==> p in s.minted && s.owed[p].Attempt? && s.owed[p].key == s.minted[p])
  }

  ghost predicate Safe(s: State) {
    RegistryIsLive(s) && MintedIsShared(s) && OwnIsOwn(s) && NothingHeldIsRetired(s)
    && Accounted(s) && NothingFromNowhere(s)
  }

  /** The count guards exactly what it should. */
  lemma SafeMeansUnheld(s: State, key: Key)
    requires key in s.registry
    ensures SafeToRetire(Refs(s, s.registry[key])) <==> HoldersOf(s, s.registry[key]) == {}
  {
    assert s.registry[key] in s.registry.Values;
  }

  lemma RemovedKeepsSafe(s: State, key: Key)
    requires Safe(s) && key in s.registry && HoldersOf(s, s.registry[key]) == {}
    ensures Safe(Removed(s, key))
  {
    forall h | h in s.holds ensures s.holds[h] != s.registry[key] {
      assert h in HoldersOf(s, s.holds[h]);
    }
  }

  lemma DroppedKeepsSafe(s: State, h: Holder, gone: set<Holder>)
    requires Safe(s)
    ensures Safe(Dropped(s, h).(gone := gone))
  {
  }

  lemma WonKeepsSafe(s: State, key: Key)
    requires Safe(s)
    ensures Safe(Won(s, key))
  {
    hide Refs, SafeToRetire, HoldersOf;
    if key in s.registry {
      SafeMeansUnheld(s, key);
      if SafeToRetire(Refs(s, s.registry[key])) {
        RemovedKeepsSafe(s, key);
      }
    }
  }

  lemma OwnRetiredKeepsSafe(s: State, c: Holder)
    requires Safe(s) && c.Client? && c in s.holds && !Registered(s, c.key, s.holds[c])
    ensures var t := Dropped(s, c).(gone := s.gone + {c});
            Safe(t.(retired := t.retired + {s.holds[c]}))
  {
    DroppedKeepsSafe(s, c, s.gone + {c});
  }

  lemma LeftKeepsSafe(s: State, c: Holder)
    requires Safe(s) && c.Client?
    ensures Safe(Left(s, c))
  {
    hide Refs, SafeToRetire, HoldersOf, Safe;
    if c !in s.holds {
      DroppedKeepsSafe(s, c, s.gone + {c});
      assert Dropped(s, c).holds == s.holds;
    } else if !Registered(s, c.key, s.holds[c]) {
      OwnRetiredKeepsSafe(s, c);
    } else {
      var p, t := s.holds[c], Dropped(s, c).(gone := s.gone + {c});
      DroppedKeepsSafe(s, c, s.gone + {c});
      SafeMeansUnheld(t, c.key);
      if CollectDuplicateNow(p in s.marked, Refs(t, p)) {
        RemovedKeepsSafe(t, c.key);
      }
    }
  }

  /** The loser of a claim holds the winner's, and owes its own a farewell. */
  lemma LostClaimKeepsSafe(s: State, a: Holder, mine: Peer)
    requires Safe(s) && Enabled(s, Claim(a, mine)) && a.key in s.registry
    ensures Safe(Claimed(s, a, mine))
  {
    var t := Claimed(s, a, mine);
    assert RegistryIsLive(t) && MintedIsShared(t);
    assert OwnIsOwn(t) && NothingHeldIsRetired(t);
  }

  lemma WonClaimKeepsSafe(s: State, a: Holder, mine: Peer)
    requires Safe(s) && Enabled(s, Claim(a, mine)) && a.key !in s.registry
    ensures Safe(Claimed(s, a, mine))
  {
    var t := Claimed(s, a, mine);
    assert RegistryIsLive(t) && MintedIsShared(t);
    assert OwnIsOwn(t) && NothingHeldIsRetired(t);
  }

  lemma JoinedKeepsSafe(s: State, c: Holder, own: Peer)
    requires Safe(s) && Enabled(s, Join(c, own))
    ensures Safe(Joined(s, c, own))
  {
  }

  /** Holding what is reachable for one's share: a lookup, an adoption, a clone. */
  lemma HeldKeepsSafe(s: State, h: Holder, p: Peer)
    requires Safe(s) && h !in s.holds && p in s.used
    requires !h.Pin? ==> Registered(s, h.key, p)
    requires p in s.minted ==> Registered(s, h.key, p)
    ensures Safe(Held(s, h, p))
  {
  }

  lemma StepKeepsSafe(s: State, step: Step)
    requires Safe(s) && Enabled(s, step)
    ensures Safe(Next(s, step))
  {
    hide Won, Left, Claimed, Joined, Held;
    match step {
      case OriginWon(key) => WonKeepsSafe(s, key);
      case Leave(c) => LeftKeepsSafe(s, c);
      case Claim(a, mine) =>
        if a.key in s.registry {
          LostClaimKeepsSafe(s, a, mine);
        } else {
          WonClaimKeepsSafe(s, a, mine);
        }
      case Join(c, own) => JoinedKeepsSafe(s, c, own);
      case Find(a) =>
        if a.key in s.registry {
          HeldKeepsSafe(s, a, s.registry[a.key]);
        }
      case Adopt(a, c) => HeldKeepsSafe(s, c, s.holds[a]);
      case Borrow(h, from) => HeldKeepsSafe(s, h, from);
      case _ =>
    }
  }

  /** Nothing has to wait for anything else: whatever the state, attempts may look,
      mint, say an owed farewell, hand over and end, tasks may clone what is
      registered or held for their share, and clients may join and leave. */
  lemma StepsAreOpen(s: State, id: nat, key: Key, p: Peer, other: Holder)
    ensures Attempt(id, key) !in s.holds ==> Enabled(s, Find(Attempt(id, key)))
    ensures Attempt(id, key) !in s.holds && p !in s.used ==> Enabled(s, Claim(Attempt(id, key), p))
    ensures p in s.owed ==> Enabled(s, Farewell(p))
    ensures Attempt(id, key) in s.holds ==> Enabled(s, LetGo(Attempt(id, key)))
    ensures Pin(id, key) in s.holds ==> Enabled(s, LetGo(Pin(id, key)))
    ensures other.Attempt? && other.key == key && other in s.holds
            && Client(id, key) !in s.holds && Client(id, key) !in s.gone ==>
              Enabled(s, Adopt(other, Client(id, key)))
    ensures Pin(id, key) !in s.holds && key in s.registry ==> Enabled(s, Borrow(Pin(id, key), s.registry[key]))
    ensures Pin(id, key) !in s.holds && other in s.holds && other.key == key ==>
              Enabled(s, Borrow(Pin(id, key), s.holds[other]))
    ensures Client(id, key) !in s.holds && p !in s.used ==> Enabled(s, Join(Client(id, key), p))
    ensures Enabled(s, Leave(Client(id, key))) && Enabled(s, OriginWon(key))
  {
  }

  /** Over every interleaving: nothing is retired under a holder, and nothing
      minted is lost. */
  lemma {:induction false} RunsAreSafe(s: State, steps: seq<Step>, t: State)
    requires Safe(s) && Run(s, steps, t)
    ensures Safe(t)
    decreases |steps|
  {
    hide Safe, Next;
    if steps != [] {
      StepKeepsSafe(s, steps[0]);
      RunsAreSafe(Next(s, steps[0]), steps[1..], t);
    }
  }

  lemma RunsFromEmpty(steps: seq<Step>, t: State)
    requires Run(EMPTY, steps, t)
    ensures Safe(t)
  {
    RunsAreSafe(EMPTY, steps, t);
  }

  /** **Nobody is cut off and nothing is lost.** After any run a membership held by
      a client or an attempt is not retired, what the registry names is live, and
      whatever was minted is registered, owed a farewell, or retired. */
  lemma NobodyIsCutOff(steps: seq<Step>, t: State)
    requires Run(EMPTY, steps, t)
    ensures forall h :: h in t.holds && (h.Client? || h.Attempt?) ==> t.holds[h] !in t.retired
    ensures forall key :: key in t.registry ==> t.registry[key] in t.minted && t.registry[key] !in t.retired
    ensures forall p :: p in t.minted ==>
              || (t.minted[p] in t.registry && t.registry[t.minted[p]] == p)
              || p in t.owed || p in t.retired
  {
    hide Run;
    RunsFromEmpty(steps, t);
  }

  /** However many attempts minted for a share, at most one membership is live
      and not on its way out. */
  lemma OneLiveMembershipPerShare(steps: seq<Step>, t: State, p: Peer, q: Peer)
    requires Run(EMPTY, steps, t)
    requires p in t.minted && p !in t.owed && p !in t.retired
    requires q in t.minted && q !in t.owed && q !in t.retired
    requires t.minted[p] == t.minted[q]
    ensures p == q
  {
    hide Run;
    RunsFromEmpty(steps, t);
  }

  /** When the last holder of a marked duplicate lets go, the duplicate is
      retired exactly when that holder is a client. An attempt or a pin that
      goes last leaves it registered. */
  lemma LastHolderCollectsIff(s: State, h: Holder)
    requires Safe(s) && h in s.holds && s.holds[h] in s.marked && s.holds[h] in s.minted
    requires s.holds[h] !in s.retired && HoldersOf(s, s.holds[h]) == {h}
    ensures var p := s.holds[h];
            var t := Next(s, if h.Client? then Leave(h) else LetGo(h));
            && HoldersOf(t, p) == {}
            && (p in t.retired <==> h.Client?)
            && (Registered(t, h.key, p) <==> !h.Client?)
  {
    hide Refs, SafeToRetire;
    var p, t := s.holds[h], Dropped(s, h);
    assert Registered(s, h.key, p);
    forall g | g in t.holds ensures t.holds[g] != p {
      assert g in HoldersOf(s, s.holds[g]);
    }
    if h.Client? {
      var left := t.(gone := s.gone + {h});
      assert HoldersOf(left, p) == {};
      SafeMeansUnheld(left, h.key);
    }
  }

  /** The stranded duplicate waits for the next origin win of its share. */
  lemma NextOriginWinCollects(s: State, key: Key)
    requires Safe(s) && key in s.registry && HoldersOf(s, s.registry[key]) == {}
    ensures var t := Next(s, OriginWon(key));
            s.registry[key] in t.retired && key !in t.registry
  {
    SafeMeansUnheld(s, key);
  }

  /** Leaving an unmarked membership retires nothing: the tab goes on serving
      from it. */
  lemma UnmarkedOutlivesItsClients(s: State, c: Holder)
    requires Safe(s) && c.Client? && c in s.holds && s.holds[c] in s.minted && s.holds[c] !in s.marked
    ensures var t := Next(s, Leave(c));
            t.retired == s.retired && Registered(t, c.key, s.holds[c])
  {
  }

  /** **What a departure leaves behind.** The client holds nothing and everybody
      else what they held. A membership of its own is retired with it; a shared
      one exactly when it was marked and the client was its last holder. */
  lemma LeavingRetires(s: State, c: Holder)
    requires Safe(s) && c.Client?
    ensures var t := Next(s, Leave(c));
            && c in t.gone && t.holds == s.holds - {c}
            && (c !in s.holds ==> t.retired == s.retired && t.registry == s.registry)
            && (c in s.holds ==>
                  var p := s.holds[c];
                  var goes := p !in s.minted || (p in s.marked && HoldersOf(t, p) == {});
                  && t.retired == s.retired + (if goes then {p} else {})
                  && t.registry == s.registry - (if goes && p in s.minted then {c.key} else {}))
  {
    hide Refs, SafeToRetire, HoldersOf;
    if c in s.holds && Registered(s, c.key, s.holds[c]) {
      var left := Dropped(s, c).(gone := s.gone + {c});
      SafeMeansUnheld(left, c.key);
      assert HoldersOf(Next(s, Leave(c)), s.holds[c]) == HoldersOf(left, s.holds[c]) by { SameHolders(s, c); }
    } else if c !in s.holds {
      assert s.holds - {c} == s.holds;
    }
  }

  lemma SameHolders(s: State, c: Holder)
    requires c.Client? && c in s.holds
    ensures forall p :: HoldersOf(Next(s, Leave(c)), p) == HoldersOf(Dropped(s, c).(gone := s.gone + {c}), p)
  {
    hide Refs, SafeToRetire;
  }

  /** **What an origin win leaves behind**: nothing of the share if nobody held its
      membership, which is retired, and otherwise a mark on it. */
  lemma OriginWinRetiresOrMarks(s: State, key: Key)
    requires Safe(s)
    ensures var t := Next(s, OriginWon(key));
            && t.holds == s.holds
            && (key !in s.registry ==> t == s)
            && (key in s.registry ==>
                  var p := s.registry[key];
                  if HoldersOf(s, p) == {} then
                    t.retired == s.retired + {p} && t.registry == s.registry - {key} && t.marked == s.marked
                  else t.marked == s.marked + {p} && t.registry == s.registry && t.retired == s.retired)
  {
    hide Refs, SafeToRetire, HoldersOf;
    if key in s.registry {
      SafeMeansUnheld(s, key);
    }
  }

  /** A mesh join lands on its own client, and on nobody else. */
  lemma JoinIsHeld(s: State, c: Holder, own: Peer)
    requires Enabled(s, Join(c, own)) && c !in s.gone
    ensures var t := Next(s, Join(c, own)); t.holds == s.holds[c := own] && t.retired == s.retired
  {
  }

  /** One that lands after its client was released is retired at once, and never
      held. */
  lemma LateJoinIsRetired(s: State, c: Holder, own: Peer)
    requires Safe(s) && Enabled(s, Leave(c)) && c !in s.holds
    requires Enabled(Next(s, Leave(c)), Join(c, own))
    ensures var t := Next(Next(s, Leave(c)), Join(c, own));
            c !in t.holds && own in t.retired
  {
  }

  lemma RunFrom(s: State, step: Step, rest: seq<Step>, t: State)
    requires Enabled(s, step) && Run(Next(s, step), rest, t)
    ensures Run(s, [step] + rest, t)
  {
    assert ([step] + rest)[1..] == rest;
  }

  /** A tab with one membership, registered and minted for share 7. */
  function Tab(holds: map<Holder, Peer>, marked: set<Peer>, gone: set<Holder>): State {
    State(map[7 := 1], holds, marked, map[1 := 7], map[], {}, gone, {1})
  }

  lemma StrandingMint(a: Holder)
    requires a.key == 7
    ensures Claimed(EMPTY, a, 1) == Tab(map[a := 1], {}, {})
  {
    var s := Claimed(EMPTY, a, 1);
    assert s.registry == map[7 := 1] && s.holds == map[a := 1] && s.minted == map[1 := 7] && s.used == {1};
  }

  lemma StrandingMark(a: Holder, c: Holder)
    requires a != c
    ensures Next(Tab(map[a := 1, c := 1], {}, {}), OriginWon(7)) == Tab(map[a := 1, c := 1], {1}, {})
  {
    var s := Tab(map[a := 1, c := 1], {}, {});
    assert a in HoldersOf(s, 1);
    assert s.registry[7] in s.registry.Values;
    assert HoldersOf(s, 1) != {};
  }

  lemma StrandingLeave(a: Holder, c: Holder)
    requires a.Attempt? && c.Client? && c.key == 7
    ensures Next(Tab(map[a := 1, c := 1], {1}, {}), Leave(c)) == Tab(map[a := 1], {1}, {c})
  {
    var s := Tab(map[a := 1, c := 1], {1}, {});
    var t := Dropped(s, c).(gone := {c});
    assert t.holds == map[a := 1];
    assert a in HoldersOf(t, 1);
    assert t.registry[7] in t.registry.Values;
    assert HoldersOf(t, 1) != {};
  }

  /** One concrete run: an attempt mints, is adopted and ends; a second attempt
      finds the membership; the origin wins, the client leaves, and the second
      attempt ends last. The duplicate stays. */
  lemma StrandedDuplicate() returns (steps: seq<Step>, t: State)
    ensures Run(EMPTY, steps, t) && HoldersOf(t, 1) == {} && 1 in t.marked
    ensures Registered(t, 7, 1) && 1 !in t.retired
  {
    hide Left, Won, Claimed;
    var a, b, c := Attempt(0, 7), Attempt(1, 7), Client(0, 7);
    t := Tab(map[], {1}, {c});
    var s6 := Tab(map[b := 1], {1}, {c});
    assert Dropped(s6, b) == t;
    steps := [];
    RunFrom(s6, LetGo(b), steps, t);
    steps := [LetGo(b)] + steps;
    var s5 := Tab(map[b := 1, c := 1], {1}, {});
    StrandingLeave(b, c);
    RunFrom(s5, Leave(c), steps, t);
    steps := [Leave(c)] + steps;
    var s4 := Tab(map[b := 1, c := 1], {}, {});
    StrandingMark(b, c);
    RunFrom(s4, OriginWon(7), steps, t);
    steps := [OriginWon(7)] + steps;
    var s3 := Tab(map[c := 1], {}, {});
    assert Held(s3, b, 1) == s4;
    RunFrom(s3, Find(b), steps, t);
    steps := [Find(b)] + steps;
    var s2 := Tab(map[a := 1, c := 1], {}, {});
    assert Dropped(s2, a) == s3;
    RunFrom(s2, LetGo(a), steps, t);
    steps := [LetGo(a)] + steps;
    var s1 := Tab(map[a := 1], {}, {});
    assert Held(s1, c, 1) == s2;
    RunFrom(s1, Adopt(a, c), steps, t);
    steps := [Adopt(a, c)] + steps;
    StrandingMint(a);
    RunFrom(EMPTY, Claim(a, 1), steps, t);
    steps := [Claim(a, 1)] + steps;
  }

  // ------------------------------------------------------------ strong counts

  function Of(strong: map<Peer, nat>, p: Peer): nat { if p in strong then strong[p] else 0 }

  /** The counts a tab keeps are the references there are. */
  ghost predicate Counted(strong: map<Peer, nat>, holds: map<Holder, Peer>, registry: map<Key, Peer>) {
    forall p :: Of(strong, p) == Count(holds, registry, p)
  }

  function Raised(strong: map<Peer, nat>, p: Peer): map<Peer, nat> { strong[p := Of(strong, p) + 1] }

  function Lowered(strong: map<Peer, nat>, p: Peer): map<Peer, nat>
    requires Of(strong, p) > 0
  {
    strong[p := Of(strong, p) - 1]
  }

  lemma OneMoreHolder(holds: map<Holder, Peer>, h: Holder, p: Peer, q: Peer)
    requires h !in holds
    ensures |Holding(holds[h := p], q)| == |Holding(holds, q)| + if q == p then 1 else 0
  {
    assert Holding(holds[h := p], q) == Holding(holds, q) + if q == p then {h} else {};
  }

  lemma OneHolderLess(holds: map<Holder, Peer>, h: Holder, q: Peer)
    requires h in holds
    ensures |Holding(holds - {h}, q)| == |Holding(holds, q)| - if q == holds[h] then 1 else 0
  {
    assert Holding(holds - {h}, q) == Holding(holds, q) - if q == holds[h] then {h} else {};
    assert q == holds[h] ==> h in Holding(holds, q);
  }

  lemma HoldCounts(strong: map<Peer, nat>, holds: map<Holder, Peer>, registry: map<Key, Peer>, h: Holder, p: Peer)
    requires Counted(strong, holds, registry) && h !in holds
    ensures Counted(Raised(strong, p), holds[h := p], registry)
  {
    hide Holding;
    forall q ensures Of(Raised(strong, p), q) == Count(holds[h := p], registry, q) {
      OneMoreHolder(holds, h, p, q);
      assert Of(strong, q) == Count(holds, registry, q);
    }
  }

  lemma DropCounts(strong: map<Peer, nat>, holds: map<Holder, Peer>, registry: map<Key, Peer>, h: Holder)
    requires Counted(strong, holds, registry) && h in holds
    ensures Of(strong, holds[h]) > 0
    ensures Counted(Lowered(strong, holds[h]), holds - {h}, registry)
  {
    hide Holding;
    OneHolderLess(holds, h, holds[h]);
    assert Of(strong, holds[h]) == Count(holds, registry, holds[h]);
    forall q ensures Of(Lowered(strong, holds[h]), q) == Count(holds - {h}, registry, q) {
      OneHolderLess(holds, h, q);
      assert Of(strong, q) == Count(holds, registry, q);
    }
  }

  lemma RegisterCounts(strong: map<Peer, nat>, holds: map<Holder, Peer>, registry: map<Key, Peer>, key: Key, p: Peer)
    requires Counted(strong, holds, registry) && key !in registry && p !in registry.Values
    ensures Counted(Raised(strong, p), holds, registry[key := p])
  {
    hide Holding;
    var after := registry[key := p];
    assert after[key] == p;
    forall q ensures Of(Raised(strong, p), q) == Count(holds, after, q) {
      assert Of(strong, q) == Count(holds, registry, q);
      assert q in after.Values <==> q in registry.Values || q == p by {
        if q in registry.Values {
          var k :| k in registry && registry[k] == q;
          assert after[k] == q;
        }
      }
    }
  }

  lemma UnregisterCounts(strong: map<Peer, nat>, holds: map<Holder, Peer>, registry: map<Key, Peer>, key: Key)
    requires Counted(strong, holds, registry)
    requires key in registry && forall k :: k in registry && registry[k] == registry[key] ==> k == key
    ensures Of(strong, registry[key]) > 0
    ensures Counted(Lowered(strong, registry[key]), holds, registry - {key})
  {
    hide Holding;
    var p, after := registry[key], registry - {key};
    assert p in registry.Values;
    assert Of(strong, p) == Count(holds, registry, p);
    forall q ensures Of(Lowered(strong, p), q) == Count(holds, after, q) {
      assert Of(strong, q) == Count(holds, registry, q);
      assert q in after.Values <==> q in registry.Values && q != p by {
        if q in registry.Values && q != p {
          var k :| k in registry && registry[k] == q;
          assert after[k] == q;
        }
      }
    }
  }

  lemma FreshIsUnregistered(s: State, p: Peer)
    requires Safe(s) && p !in s.used
    ensures p !in s.registry.Values
  {
  }

  /** A membership is registered under one share only. */
  lemma RegisteredOnce(s: State, key: Key)
    requires Safe(s) && key in s.registry
    ensures forall k :: k in s.registry && s.registry[k] == s.registry[key] ==> k == key
  {
  }

  // --------------------------------------------------------------------- tab

  /** The tab: a registry, duplicate marks, and a strong count per membership
      that every clone raises and every drop lowers. */
  class Page {
    var registry: map<Key, Peer>
    var duplicate: set<Peer>
    var strong: map<Peer, nat>
    ghost var state: State

    ghost predicate Valid()
      reads this
    {
      && Safe(state)
      && registry == state.registry && duplicate == state.marked
      && Counted(strong, state.holds, registry)
    }

    constructor ()
      ensures Valid() && state == EMPTY
    {
      registry, duplicate, strong, state := map[], {}, map[], EMPTY;
    }

    method Clone(p: Peer)
      modifies this`strong
      ensures strong == Raised(old(strong), p)
    {
      strong := strong[p := Of(strong, p) + 1];
    }

    method Drop(p: Peer)
      requires Of(strong, p) > 0
      modifies this`strong
      ensures strong == Lowered(old(strong), p)
    {
      strong := strong[p := Of(strong, p) - 1];
    }

    /** An attempt's first look: a clone of the share's entry, if there is one. */
    method Lookup(a: Holder) returns (waiting: Option<Peer>)
      requires Valid() && Enabled(state, Find(a))
      modifies this
      ensures Valid() && state == Next(old(state), Find(a))
      ensures waiting == if a.key in registry then Some(registry[a.key]) else None
      ensures state.holds == if waiting.Some? then old(state).holds[a := waiting.value] else old(state).holds
    {
      hide Safe, Counted;
      StepKeepsSafe(state, Find(a));
      if a.key !in registry {
        return None;
      }
      var p := registry[a.key];
      HoldCounts(strong, state.holds, registry, a, p);
      Clone(p);
      state := Held(state, a, p);
      waiting := Some(p);
    }

    /** Register a freshly minted membership, or take whoever got there first. */
    method ClaimWaitingMesh(a: Holder, mine: Peer) returns (winner: Option<Peer>)
      requires Valid() && Enabled(state, Claim(a, mine))
      modifies this
      ensures Valid() && state == Next(old(state), Claim(a, mine))
      ensures winner == if a.key in old(registry) then Some(old(registry)[a.key]) else None
      ensures state.holds == old(state).holds[a := if winner.Some? then winner.value else mine]
      ensures registry == if winner.Some? then old(registry) else old(registry)[a.key := mine]
    {
      hide Safe, Counted;
      StepKeepsSafe(state, Claim(a, mine));
      FreshIsUnregistered(state, mine);
      ghost var holds := state.holds;
      state := Claimed(state, a, mine);
      if a.key in registry {
        var p := registry[a.key];
        HoldCounts(strong, holds, registry, a, p);
        Clone(p);
        winner := Some(p);
      } else {
        HoldCounts(strong, holds, registry, a, mine);
        Clone(mine);
        RegisterCounts(strong, state.holds, registry, a.key, mine);
        registry := registry[a.key := mine];
        Clone(mine);
        winner := None;
      }
    }

    method AdoptVetted(a: Holder, c: Holder, waiting: Peer)
      requires Valid() && Enabled(state, Adopt(a, c)) && state.holds[a] == waiting
      modifies this
      ensures Valid() && state == Next(old(state), Adopt(a, c))
      ensures state.holds == old(state).holds[c := waiting] && registry == old(registry)
    {
      hide Safe, Counted;
      StepKeepsSafe(state, Adopt(a, c));
      HoldCounts(strong, state.holds, registry, c, waiting);
      Clone(waiting);
      state := Held(state, c, waiting);
    }

    method End(h: Holder, held: Peer)
      requires Valid() && Enabled(state, LetGo(h)) && state.holds[h] == held
      modifies this
      ensures Valid() && state == Next(old(state), LetGo(h))
      ensures state.holds == old(state).holds - {h} && registry == old(registry)
    {
      hide Safe, Counted;
      StepKeepsSafe(state, LetGo(h));
      DropCounts(strong, state.holds, registry, h);
      Drop(held);
      state := Dropped(state, h);
    }

    /** The origin answered: what earlier attempts left waiting is retired, or
        marked if somebody still lives on it. */
    method OriginAnswered(key: Key) returns (retire: Option<Peer>)
      requires Valid()
      modifies this
      ensures Valid() && state == Next(old(state), OriginWon(key))
      ensures state.retired == old(state).retired + if retire.Some? then {retire.value} else {}
    {
      hide Safe, Counted, Count;
      StepKeepsSafe(state, OriginWon(key));
      retire := None;
      if key in registry {
        var p := registry[key];
        CountOf(strong, state, p);
        RegisteredOnce(state, key);
        state := Won(state, key);
        if !SafeToRetire(Of(strong, p)) {
          duplicate := duplicate + {p};
        } else {
          UnregisterCounts(strong, state.holds, registry, key);
          registry := registry - {key};
          Drop(p);
          retire := Some(p);
        }
      }
    }

    /** A client is released: `slot` is the membership it was homed on. */
    method LeaveMesh(c: Holder, slot: Option<Peer>) returns (retire: Option<Peer>)
      requires Valid() && c.Client?
      requires slot == if c in state.holds then Some(state.holds[c]) else None
      modifies this
      ensures Valid() && state == Next(old(state), Leave(c))
      ensures state.retired == old(state).retired + if retire.Some? then {retire.value} else {}
    {
      hide Safe, Counted, Count;
      StepKeepsSafe(state, Leave(c));
      retire := None;
      ghost var before := state;
      state := Left(before, c);
      if slot.None? {
        return;
      }
      var p := slot.value;
      var shared := c.key in registry && registry[c.key] == p;
      DropCounts(strong, before.holds, registry, c);
      Drop(p);
      if shared {
        ghost var t := Dropped(before, c).(gone := before.gone + {c});
        CountOf(strong, t, p);
        if CollectDuplicateNow(p in duplicate, Of(strong, p)) {
          RegisteredOnce(before, c.key);
          UnregisterCounts(strong, t.holds, registry, c.key);
          registry := registry - {c.key};
          Drop(p);
          retire := Some(p);
        }
      } else {
        retire := Some(p);
      }
    }
  }

  lemma CountOf(strong: map<Peer, nat>, s: State, p: Peer)
    requires Counted(strong, s.holds, s.registry)
    ensures Of(strong, p) == Refs(s, p)
  {
  }
}
