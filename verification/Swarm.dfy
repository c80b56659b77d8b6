/**
 Dividing missing chunks among peers: the rarest are handed out first, each to
 whichever of its holders has least to do.
 */
module Swarm {

  /** The positions a peer answered for; past its own end it holds nothing. */
  type Coverage = set<nat>

  /** A missing position, its place in the wanted order, and who holds it. */
  datatype Wanted = Wanted(order: nat, position: nat, who: seq<nat>)

  datatype PeerPlan = PeerPlan(peer: nat, positions: seq<nat>)

  datatype Plan = Plan(peers: seq<PeerPlan>, unheld: seq<nat>)

  // ---------------------------------------------------------------- ranking

  /** The first `n` peers that hold a position, in peer order. */
  function Holding(position: nat, holders: seq<Coverage>, n: nat): (who: seq<nat>)
    requires n <= |holders|
    ensures forall p :: p in who <==> 0 <= p < n && position in holders[p]
    ensures |who| <= n
  {
    if n == 0 then [] else
    Holding(position, holders, n - 1) + if position in holders[n - 1] then [n - 1] else []
  }

  function Who(position: nat, holders: seq<Coverage>): seq<nat> {
    Holding(position, holders, |holders|)
  }

  function Ranked(missing: seq<nat>, holders: seq<Coverage>): seq<Wanted> {
    seq(|missing|, i requires 0 <= i < |missing| =>
      Wanted(i, missing[i], Who(missing[i], holders)))
  }

  /** Rarer first; among equals, wanted first. */
  predicate Before(a: Wanted, b: Wanted) {
    |a.who| < |b.who| || (|a.who| == |b.who| && a.order < b.order)
  }

  predicate Ordered(ws: seq<Wanted>) {
    forall i, j :: 0 <= i < j < |ws| ==> Before(ws[i], ws[j])
  }

  /** Insert behind everything at most as common: what a stable sort does. */
  function Inserted(ws: seq<Wanted>, w: Wanted): seq<Wanted> {
    if ws != [] && |ws[|ws| - 1].who| > |w.who|
    then Inserted(ws[..|ws| - 1], w) + [ws[|ws| - 1]]
    else ws + [w]
  }

  function Sorted(ws: seq<Wanted>): seq<Wanted> {
    if ws == [] then [] else Inserted(Sorted(ws[..|ws| - 1]), ws[|ws| - 1])
  }

  function Positions(ws: seq<Wanted>): seq<nat> {
    seq(|ws|, i requires 0 <= i < |ws| => ws[i].position)
  }

  function Bag(ws: seq<Wanted>): multiset<nat> { multiset(Positions(ws)) }

  lemma BagSnoc(ws: seq<Wanted>, w: Wanted)
    ensures Bag(ws + [w]) == Bag(ws) + multiset{w.position}
  {
    assert Positions(ws + [w]) == Positions(ws) + [w.position];
  }

  lemma FrontAndLast<T>(xs: seq<T>)
    requires xs != []
    ensures xs == xs[..|xs| - 1] + [xs[|xs| - 1]]
  {
  }

  lemma {:induction false} InsertedIsOrdered(ws: seq<Wanted>, w: Wanted)
    requires Ordered(ws) && forall i :: 0 <= i < |ws| ==> ws[i].order < w.order
    ensures Ordered(Inserted(ws, w))
    ensures forall x :: x in Inserted(ws, w) ==> x == w || x in ws
    decreases |ws|
  {
    if ws != [] && |ws[|ws| - 1].who| > |w.who| {
      var front, last := ws[..|ws| - 1], ws[|ws| - 1];
      InsertedIsOrdered(front, w);
      forall x | x in Inserted(front, w) ensures Before(x, last) {
        if x != w {
          var i :| 0 <= i < |front| && front[i] == x;
          assert ws[i] == x;
        }
      }
      OrderedSnoc(Inserted(front, w), last);
    } else {
      forall x | x in ws ensures Before(x, w) {
        var i :| 0 <= i < |ws| && ws[i] == x;
        assert i < |ws| - 1 ==> Before(ws[i], ws[|ws| - 1]);
      }
      OrderedSnoc(ws, w);
    }
  }

  lemma OrderedSnoc(ws: seq<Wanted>, last: Wanted)
    requires Ordered(ws) && forall x :: x in ws ==> Before(x, last)
    ensures Ordered(ws + [last])
  {
  }

  lemma {:induction false} InsertedBag(ws: seq<Wanted>, w: Wanted)
    ensures Bag(Inserted(ws, w)) == Bag(ws) + multiset{w.position}
    decreases |ws|
  {
    if ws != [] && |ws[|ws| - 1].who| > |w.who| {
      var front, last := ws[..|ws| - 1], ws[|ws| - 1];
      InsertedBag(front, w);
      BagSnoc(Inserted(front, w), last);
      BagSnoc(front, last);
      FrontAndLast(ws);
    } else {
      BagSnoc(ws, w);
    }
  }

  /** The sort loses nothing, and orders by rarity and then by the wanted order. */
  lemma {:induction false} SortedIsOrdered(ws: seq<Wanted>)
    requires forall i :: 0 <= i < |ws| ==> ws[i].order == i
    ensures Ordered(Sorted(ws)) && Bag(Sorted(ws)) == Bag(ws)
    ensures forall x :: x in Sorted(ws) ==> x in ws
    decreases |ws|
  {
    if ws != [] {
      var front, last := ws[..|ws| - 1], ws[|ws| - 1];
      SortedIsOrdered(front);
      forall i | 0 <= i < |Sorted(front)| ensures Sorted(front)[i].order < last.order {
        assert Sorted(front)[i] in front;
      }
      InsertedIsOrdered(Sorted(front), last);
      InsertedBag(Sorted(front), last);
      FrontAndLast(ws);
      BagSnoc(front, last);
    }
  }

  // --------------------------------------------------------------- assigning

  /** Work handed out so far: each peer's queue, and what nobody holds. */
  datatype Shares = Shares(queues: seq<seq<Wanted>>, unheld: seq<Wanted>)

  function Load(s: Shares, peer: nat): nat
    requires peer < |s.queues|
  {
    |s.queues[peer]|
  }

  predicate Holders(who: seq<nat>, peers: nat) {
    forall i :: 0 <= i < |who| ==> who[i] < peers
  }

  function Loads(s: Shares): (load: seq<nat>)
    ensures |load| == |s.queues| && forall p :: 0 <= p < |load| ==> load[p] == |s.queues[p]|
  {
    seq(|s.queues|, p requires 0 <= p < |s.queues| => |s.queues[p]|)
  }

  /** The least-loaded holder, the lower index among equals. */
  function Best(who: seq<nat>, load: seq<nat>): (best: nat)
    requires who != [] && Holders(who, |load|)
    ensures best in who && best < |load|
    ensures forall q :: q in who ==> q < |load|
    ensures forall q :: q in who ==> load[best] < load[q] || (load[best] == load[q] && best <= q)
  {
    var last := who[|who| - 1];
    if |who| == 1 then last else
    var front := Best(who[..|who| - 1], load);
    if load[last] < load[front] || (load[last] == load[front] && last < front) then last else front
  }

  function Assign(s: Shares, w: Wanted): (r: Shares)
    requires Holders(w.who, |s.queues|)
    ensures |r.queues| == |s.queues|
  {
    if w.who == [] then s.(unheld := s.unheld + [w]) else
    var peer := Best(w.who, Loads(s));
    s.(queues := s.queues[peer := s.queues[peer] + [w]])
  }

  predicate Rankable(ranked: seq<Wanted>, peers: nat) {
    forall i :: 0 <= i < |ranked| ==> Holders(ranked[i].who, peers)
  }

  function AssignAll(ranked: seq<Wanted>, peers: nat): (r: Shares)
    requires Rankable(ranked, peers)
    ensures |r.queues| == peers
  {
    if ranked == [] then Shares(seq(peers, _ => []), []) else
    Assign(AssignAll(ranked[..|ranked| - 1], peers), ranked[|ranked| - 1])
  }

  /** The plan of the non-empty queues among the first `n`. */
  function Busy(queues: seq<seq<Wanted>>, n: nat): seq<PeerPlan>
    requires n <= |queues|
  {
    if n == 0 then [] else
    Busy(queues, n - 1) +
    if queues[n - 1] == [] then [] else [PeerPlan(n - 1, Positions(queues[n - 1]))]
  }

  /** Ascending, as an unstable sort of numbers leaves them. */
  function InsertedNumber(xs: seq<nat>, x: nat): seq<nat> {
    if xs != [] && xs[|xs| - 1] > x then InsertedNumber(xs[..|xs| - 1], x) + [xs[|xs| - 1]]
    else xs + [x]
  }

  function SortedNumbers(xs: seq<nat>): seq<nat> {
    if xs == [] then [] else InsertedNumber(SortedNumbers(xs[..|xs| - 1]), xs[|xs| - 1])
  }

  function SharesOf(missing: seq<nat>, holders: seq<Coverage>): (s: Shares)
    ensures |s.queues| == |holders|
  {
    RankedIsRankable(missing, holders);
    AssignAll(Sorted(Ranked(missing, holders)), |holders|)
  }

  function PlanOf(missing: seq<nat>, holders: seq<Coverage>): Plan {
    var s := SharesOf(missing, holders);
    Plan(Busy(s.queues, |s.queues|), SortedNumbers(Positions(s.unheld)))
  }

  lemma RankedIsRankable(missing: seq<nat>, holders: seq<Coverage>)
    ensures Rankable(Sorted(Ranked(missing, holders)), |holders|)
  {
    var ranked := Ranked(missing, holders);
    SortedIsOrdered(ranked);
    forall i | 0 <= i < |Sorted(ranked)| ensures Holders(Sorted(ranked)[i].who, |holders|) {
      assert Sorted(ranked)[i] in ranked;
      var k :| 0 <= k < |ranked| && ranked[k] == Sorted(ranked)[i];
      assert forall j :: 0 <= j < |ranked[k].who| ==> ranked[k].who[j] in Who(missing[k], holders);
    }
  }

  // ---------------------------------------------- what every assignment keeps

  /** Everything in the first `n` queues. */
  function Queued(queues: seq<seq<Wanted>>, n: nat): multiset<nat>
    requires n <= |queues|
  {
    if n == 0 then multiset{} else Queued(queues, n - 1) + Bag(queues[n - 1])
  }

  lemma {:induction false} QueuedUpdate(queues: seq<seq<Wanted>>, n: nat, peer: nat, w: Wanted)
    requires n <= |queues| && peer < |queues|
    ensures Queued(queues[peer := queues[peer] + [w]], n) ==
            Queued(queues, n) + if peer < n then multiset{w.position} else multiset{}
    decreases n
  {
    hide Bag;
    if n > 0 {
      QueuedUpdate(queues, n - 1, peer, w);
      BagSnoc(queues[peer], w);
      var next := queues[peer := queues[peer] + [w]];
      assert next[n - 1] == if peer == n - 1 then queues[peer] + [w] else queues[n - 1];
    }
  }

  lemma {:induction false} QueuedNothing(queues: seq<seq<Wanted>>, n: nat)
    requires n <= |queues| && forall p :: 0 <= p < |queues| ==> queues[p] == []
    ensures Queued(queues, n) == multiset{}
  {
    if n > 0 {
      QueuedNothing(queues, n - 1);
    }
  }

  /** Nothing is lost and nothing is invented. */
  lemma {:induction false} AssignmentConserves(ranked: seq<Wanted>, peers: nat)
    requires Rankable(ranked, peers)
    ensures var s := AssignAll(ranked, peers);
            Queued(s.queues, peers) + Bag(s.unheld) == Bag(ranked)
    decreases |ranked|
  {
    if ranked == [] {
      QueuedNothing(AssignAll([], peers).queues, peers);
    } else {
      var front, w := ranked[..|ranked| - 1], ranked[|ranked| - 1];
      AssignmentConserves(front, peers);
      var s := AssignAll(front, peers);
      FrontAndLast(ranked);
      BagSnoc(front, w);
      if w.who == [] {
        BagSnoc(s.unheld, w);
      } else {
        QueuedUpdate(s.queues, peers, Best(w.who, Loads(s)), w);
      }
    }
  }

  /** Where a queue's entries came from, and in what order. */
  ghost predicate Drawn(queue: seq<Wanted>, ranked: seq<Wanted>, peer: nat) {
    && Ordered(queue)
    && forall i :: 0 <= i < |queue| ==> queue[i] in ranked && peer in queue[i].who
  }

  ghost predicate AllDrawn(s: Shares, ranked: seq<Wanted>) {
    && (forall p :: 0 <= p < |s.queues| ==> Drawn(s.queues[p], ranked, p))
    && (forall i :: 0 <= i < |s.unheld| ==> s.unheld[i] in ranked && s.unheld[i].who == [])
  }

  lemma DrawnSnoc(queue: seq<Wanted>, front: seq<Wanted>, peer: nat, w: Wanted)
    requires Drawn(queue, front, peer) && Ordered(front + [w])
    ensures Drawn(queue, front + [w], peer)
    ensures peer in w.who ==> Drawn(queue + [w], front + [w], peer)
  {
    forall i | 0 <= i < |queue| ensures Before(queue[i], w) {
      var k :| 0 <= k < |front| && front[k] == queue[i];
      assert (front + [w])[k] == queue[i] && (front + [w])[|front|] == w;
    }
  }

  lemma DrawnStep(s: Shares, front: seq<Wanted>, w: Wanted)
    requires AllDrawn(s, front) && Ordered(front + [w]) && Holders(w.who, |s.queues|)
    ensures AllDrawn(Assign(s, w), front + [w])
  {
    var r := Assign(s, w);
    forall p | 0 <= p < |r.queues| ensures Drawn(r.queues[p], front + [w], p) {
      assert Drawn(s.queues[p], front, p);
      DrawnSnoc(s.queues[p], front, p, w);
    }
  }

  /** A peer is given only what it holds, rarest first; what is left unheld is
      held by nobody. */
  lemma {:induction false} AssignmentsAreDrawn(ranked: seq<Wanted>, peers: nat)
    requires Rankable(ranked, peers) && Ordered(ranked)
    ensures AllDrawn(AssignAll(ranked, peers), ranked)
    decreases |ranked|
  {
    if ranked != [] {
      var front, w := ranked[..|ranked| - 1], ranked[|ranked| - 1];
      AssignmentsAreDrawn(front, peers);
      FrontAndLast(ranked);
      DrawnStep(AssignAll(front, peers), front, w);
    }
  }

  ghost predicate FairTo(s: Shares, p: nat, q: nat)
    requires p < |s.queues| && q < |s.queues|
  {
    s.queues[p] != [] && q in s.queues[p][|s.queues[p]| - 1].who ==> Load(s, q) >= Load(s, p) - 1
  }

  /** No other holder of a peer's last chunk is more than one behind it. */
  ghost predicate Fair(s: Shares) {
    forall p, q :: 0 <= p < |s.queues| && 0 <= q < |s.queues| ==> FairTo(s, p, q)
  }

  lemma FairStep(s: Shares, w: Wanted)
    requires Fair(s) && Holders(w.who, |s.queues|)
    ensures Fair(Assign(s, w))
  {
    var r := Assign(s, w);
    forall p, q | 0 <= p < |r.queues| && 0 <= q < |r.queues| ensures FairTo(r, p, q) {
      assert FairTo(s, p, q);
      assert Load(r, q) >= Load(s, q);
      if w.who != [] && p == Best(w.who, Loads(s)) {
        assert r.queues[p][|r.queues[p]| - 1] == w;
      } else {
        assert r.queues[p] == s.queues[p];
      }
    }
  }

  lemma {:induction false} AssignmentIsFair(ranked: seq<Wanted>, peers: nat)
    requires Rankable(ranked, peers)
    ensures Fair(AssignAll(ranked, peers))
    decreases |ranked|
  {
    if ranked != [] {
      AssignmentIsFair(ranked[..|ranked| - 1], peers);
      FairStep(AssignAll(ranked[..|ranked| - 1], peers), ranked[|ranked| - 1]);
    }
  }

  // --------------------------------------------------------- the theorem of plan

  ghost predicate HeldBy(position: nat, holders: seq<Coverage>, peer: nat) {
    peer < |holders| && position in holders[peer]
  }

  ghost predicate Orphan(position: nat, holders: seq<Coverage>) {
    forall p: nat :: !HeldBy(position, holders, p)
  }

  function Rarity(position: nat, holders: seq<Coverage>): nat { |Who(position, holders)| }

  /** Rarest first, and in wanted order among the equally rare: `order` says
      which wanted positions these are. */
  ghost predicate RarestFirst(positions: seq<nat>, order: seq<nat>, missing: seq<nat>, holders: seq<Coverage>) {
    && |order| == |positions|
    && (forall i :: 0 <= i < |order| ==> order[i] < |missing| && missing[order[i]] == positions[i])
    && (forall i, j :: 0 <= i < j < |order| ==>
          || Rarity(positions[i], holders) < Rarity(positions[j], holders)
          || (Rarity(positions[i], holders) == Rarity(positions[j], holders) && order[i] < order[j]))
  }

  function Assigned(peers: seq<PeerPlan>): multiset<nat> {
    if peers == [] then multiset{}
    else Assigned(peers[..|peers| - 1]) + multiset(peers[|peers| - 1].positions)
  }

  /** What a plan hands one peer: its positions, or nothing when left out. */
  function WorkOf(peers: seq<PeerPlan>, peer: nat): seq<nat> {
    if peers == [] then []
    else if peers[|peers| - 1].peer == peer then peers[|peers| - 1].positions
    else WorkOf(peers[..|peers| - 1], peer)
  }

  lemma WorkSnoc(peers: seq<PeerPlan>, last: PeerPlan, peer: nat)
    ensures WorkOf(peers + [last], peer) == if last.peer == peer then last.positions else WorkOf(peers, peer)
    ensures Assigned(peers + [last]) == Assigned(peers) + multiset(last.positions)
  {
    assert (peers + [last])[..|peers|] == peers;
  }

  lemma BusySnoc(queues: seq<seq<Wanted>>, n: nat)
    requires 0 < n <= |queues|
    ensures Busy(queues, n) == if queues[n - 1] == [] then Busy(queues, n - 1)
                               else Busy(queues, n - 1) + [PeerPlan(n - 1, Positions(queues[n - 1]))]
  {
  }

  lemma {:induction false} BusyWork(queues: seq<seq<Wanted>>, n: nat, peer: nat)
    requires n <= |queues|
    ensures WorkOf(Busy(queues, n), peer) == if peer < n then Positions(queues[peer]) else []
  {
    hide Busy, WorkOf;
    if n == 0 {
      NoneBusy(queues);
      NoneAssigned(peer);
    } else {
      BusyWork(queues, n - 1, peer);
      BusySnoc(queues, n);
      WorkSnoc(Busy(queues, n - 1), PeerPlan(n - 1, Positions(queues[n - 1])), peer);
    }
  }

  lemma {:induction false} BusyAssigns(queues: seq<seq<Wanted>>, n: nat)
    requires n <= |queues|
    ensures Assigned(Busy(queues, n)) == Queued(queues, n)
  {
    hide Busy, Assigned;
    if n == 0 {
      assert Busy(queues, 0) == [] by { NoneBusy(queues); }
      NoneAssigned(0);
    } else {
      BusyAssigns(queues, n - 1);
      BusySnoc(queues, n);
      WorkSnoc(Busy(queues, n - 1), PeerPlan(n - 1, Positions(queues[n - 1])), 0);
      assert queues[n - 1] == [] ==> Bag(queues[n - 1]) == multiset{};
    }
  }

  lemma NoneBusy(queues: seq<seq<Wanted>>)
    ensures Busy(queues, 0) == []
  {
  }

  lemma NoneAssigned(peer: nat)
    ensures Assigned([]) == multiset{} && WorkOf([], peer) == []
  {
  }

  ghost predicate PlansQueue(plan: PeerPlan, queues: seq<seq<Wanted>>, n: nat)
  {
    && plan.peer < n <= |queues| && queues[plan.peer] != []
    && plan.positions == Positions(queues[plan.peer])
  }

  lemma {:induction false} BusyPeers(queues: seq<seq<Wanted>>, n: nat)
    requires n <= |queues|
    ensures forall k :: 0 <= k < |Busy(queues, n)| ==> PlansQueue(Busy(queues, n)[k], queues, n)
    ensures forall j, k :: 0 <= j < k < |Busy(queues, n)| ==> Busy(queues, n)[j].peer < Busy(queues, n)[k].peer
  {
    if n > 0 {
      BusyPeers(queues, n - 1);
      var front := Busy(queues, n - 1);
      assert forall k :: 0 <= k < |front| ==> PlansQueue(front[k], queues, n - 1);
    }
  }

  predicate Ascending(xs: seq<nat>) {
    forall i, j :: 0 <= i < j < |xs| ==> xs[i] <= xs[j]
  }

  lemma AscendingSnoc(xs: seq<nat>, last: nat)
    requires Ascending(xs) && forall y :: y in xs ==> y <= last
    ensures Ascending(xs + [last])
  {
    assert forall i :: 0 <= i < |xs| ==> xs[i] in xs;
  }

  lemma {:induction false} InsertedNumberSorts(xs: seq<nat>, x: nat)
    requires Ascending(xs)
    ensures Ascending(InsertedNumber(xs, x))
    ensures multiset(InsertedNumber(xs, x)) == multiset(xs) + multiset{x}
    ensures forall y :: y in InsertedNumber(xs, x) ==> y == x || y in xs
    decreases |xs|
  {
    if xs != [] && xs[|xs| - 1] > x {
      var front, last := xs[..|xs| - 1], xs[|xs| - 1];
      InsertedNumberSorts(front, x);
      FrontAndLast(xs);
      forall y | y in InsertedNumber(front, x) ensures y <= last {
        if y != x {
          var i :| 0 <= i < |front| && front[i] == y;
          assert xs[i] == y;
        }
      }
      AscendingSnoc(InsertedNumber(front, x), last);
    } else {
      forall y | y in xs ensures y <= x {
        var i :| 0 <= i < |xs| && xs[i] == y;
        assert i < |xs| - 1 ==> xs[i] <= xs[|xs| - 1];
      }
      AscendingSnoc(xs, x);
    }
  }

  lemma {:induction false} SortedNumbersSorts(xs: seq<nat>)
    ensures multiset(SortedNumbers(xs)) == multiset(xs) && Ascending(SortedNumbers(xs))
    decreases |xs|
  {
    if xs != [] {
      SortedNumbersSorts(xs[..|xs| - 1]);
      InsertedNumberSorts(SortedNumbers(xs[..|xs| - 1]), xs[|xs| - 1]);
      FrontAndLast(xs);
    }
  }

  /** The facts about the shares behind a plan, gathered once. */
  lemma SharesFacts(missing: seq<nat>, holders: seq<Coverage>)
    ensures var s := SharesOf(missing, holders);
            && |s.queues| == |holders|
            && AllDrawn(s, Sorted(Ranked(missing, holders))) && Fair(s)
            && Queued(s.queues, |holders|) + Bag(s.unheld) == multiset(missing)
    ensures forall w :: w in Sorted(Ranked(missing, holders)) ==>
              w.order < |missing| && w == Ranked(missing, holders)[w.order]
  {
    var given := Ranked(missing, holders);
    var ranked := Sorted(given);
    SortedIsOrdered(given);
    RankedIsRankable(missing, holders);
    AssignmentConserves(ranked, |holders|);
    AssignmentsAreDrawn(ranked, |holders|);
    AssignmentIsFair(ranked, |holders|);
    assert Positions(given) == missing;
  }

  /** **Conservation.** Every wanted position is assigned once or reported unheld,
      and unheld is exactly what nobody holds. */
  lemma PlanConserves(missing: seq<nat>, holders: seq<Coverage>)
    ensures var plan := PlanOf(missing, holders);
            && Assigned(plan.peers) + multiset(plan.unheld) == multiset(missing)
            && Ascending(plan.unheld)
            && (forall x :: x in plan.unheld <==> x in missing && Orphan(x, holders))
  {
    hide SharesOf, Orphan;
    var s, plan := SharesOf(missing, holders), PlanOf(missing, holders);
    SharesFacts(missing, holders);
    BusyAssigns(s.queues, |s.queues|);
    SortedNumbersSorts(Positions(s.unheld));
    forall x ensures x in plan.unheld <==> x in missing && Orphan(x, holders) {
      assert x in plan.unheld <==> x in Bag(s.unheld);
      assert x in missing <==> x in Queued(s.queues, |s.queues|) + Bag(s.unheld);
      if x in Bag(s.unheld) {
        UnheldIsOrphan(missing, holders, x);
      } else if x in Queued(s.queues, |s.queues|) {
        QueuedIsHeld(missing, holders, |s.queues|, x);
      }
    }
  }

  lemma UnheldIsOrphan(missing: seq<nat>, holders: seq<Coverage>, x: nat)
    requires x in Bag(SharesOf(missing, holders).unheld)
    ensures Orphan(x, holders)
  {
    hide SharesOf;
    var s := SharesOf(missing, holders);
    SharesFacts(missing, holders);
    var i :| 0 <= i < |s.unheld| && Positions(s.unheld)[i] == x;
    assert s.unheld[i] in Sorted(Ranked(missing, holders));
    forall p: nat ensures !HeldBy(x, holders, p) {
      assert p !in Who(x, holders);
    }
  }

  lemma {:induction false} QueuedIsHeld(missing: seq<nat>, holders: seq<Coverage>, n: nat, x: nat)
    requires n <= |SharesOf(missing, holders).queues|
    requires x in Queued(SharesOf(missing, holders).queues, n)
    ensures !Orphan(x, holders)
  {
    hide SharesOf;
    var s := SharesOf(missing, holders);
    if x in Bag(s.queues[n - 1]) {
      SharesFacts(missing, holders);
      var queue := s.queues[n - 1];
      var i :| 0 <= i < |queue| && Positions(queue)[i] == x;
      assert Drawn(queue, Sorted(Ranked(missing, holders)), n - 1);
      assert queue[i] in Sorted(Ranked(missing, holders));
      assert HeldBy(x, holders, n - 1);
    } else {
      QueuedIsHeld(missing, holders, n - 1, x);
    }
  }

  lemma WhoHolds(position: nat, holders: seq<Coverage>, p: nat)
    ensures p in Who(position, holders) <==> HeldBy(position, holders, p)
  {
  }

  /** What nobody holds, as it was wanted. */
  function Orphans(missing: seq<nat>, holders: seq<Coverage>): seq<nat> {
    if missing == [] then []
    else
      var last := missing[|missing| - 1];
      Orphans(missing[..|missing| - 1], holders) + if Who(last, holders) == [] then [last] else []
  }

  lemma NobodyIsOrphan(x: nat, holders: seq<Coverage>)
    ensures Who(x, holders) == [] <==> Orphan(x, holders)
  {
    if Who(x, holders) != [] {
      assert Who(x, holders)[0] in Who(x, holders);
      assert HeldBy(x, holders, Who(x, holders)[0]);
    } else {
      assert forall p: nat :: HeldBy(x, holders, p) ==> p in Who(x, holders);
    }
  }

  lemma {:induction false} OrphansCounted(missing: seq<nat>, holders: seq<Coverage>, x: nat)
    ensures multiset(Orphans(missing, holders))[x] == if Orphan(x, holders) then multiset(missing)[x] else 0
    ensures x in Orphans(missing, holders) ==> x in missing
    decreases |missing|
  {
    hide Orphan, Who;
    if missing != [] {
      OrphansCounted(missing[..|missing| - 1], holders, x);
      NobodyIsOrphan(missing[|missing| - 1], holders);
      FrontAndLast(missing);
    }
  }

  /** Unheld counts each position as the orphans do. */
  lemma UnheldCounted(missing: seq<nat>, holders: seq<Coverage>)
    ensures multiset(PlanOf(missing, holders).unheld) == multiset(Orphans(missing, holders))
  {
    hide SharesOf, Orphan, Orphans;
    var s, plan := SharesOf(missing, holders), PlanOf(missing, holders);
    SharesFacts(missing, holders);
    PlanConserves(missing, holders);
    BusyAssigns(s.queues, |s.queues|);
    forall x ensures multiset(plan.unheld)[x] == multiset(Orphans(missing, holders))[x] {
      OrphansCounted(missing, holders, x);
      assert multiset(missing)[x] == Assigned(plan.peers)[x] + multiset(plan.unheld)[x];
      if x in Queued(s.queues, |s.queues|) {
        QueuedIsHeld(missing, holders, |s.queues|, x);
      }
      assert x in plan.unheld <==> x in missing && Orphan(x, holders);
    }
  }

  lemma FrontBag(xs: seq<nat>)
    requires xs != []
    ensures multiset(xs[..|xs| - 1]) == multiset(xs) - multiset{xs[|xs| - 1]}
  {
    FrontAndLast(xs);
  }

  lemma EmptyBag(xs: seq<nat>)
    ensures multiset(xs) == multiset{} <==> xs == []
  {
    if xs != [] {
      assert xs[0] in multiset(xs);
    }
  }

  lemma {:induction false} AscendingIsUnique(xs: seq<nat>, ys: seq<nat>)
    requires Ascending(xs) && Ascending(ys) && multiset(xs) == multiset(ys)
    ensures xs == ys
    decreases |xs|
  {
    hide Ascending;
    EmptyBag(xs);
    EmptyBag(ys);
    if xs != [] && ys != [] {
      LastIsGreatest(xs, ys[|ys| - 1]);
      LastIsGreatest(ys, xs[|xs| - 1]);
      FrontBag(xs);
      FrontBag(ys);
      AscendingIsUnique(xs[..|xs| - 1], ys[..|ys| - 1]);
      FrontAndLast(xs);
      FrontAndLast(ys);
    }
  }

  lemma LastIsGreatest(xs: seq<nat>, y: nat)
    requires Ascending(xs) && xs != []
    ensures y in multiset(xs) ==> y <= xs[|xs| - 1]
    ensures xs[|xs| - 1] in multiset(xs) && Ascending(xs[..|xs| - 1])
  {
  }

  /** **Unheld is in wanted order exactly when the orphans were wanted in
      ascending order**, as they are whenever everything was. */
  lemma UnheldInWantedOrderIff(missing: seq<nat>, holders: seq<Coverage>)
    ensures PlanOf(missing, holders).unheld == Orphans(missing, holders) <==> Ascending(Orphans(missing, holders))
    ensures Ascending(missing) ==> Ascending(Orphans(missing, holders))
  {
    hide PlanOf, Orphans;
    UnheldCounted(missing, holders);
    PlanConserves(missing, holders);
    if Ascending(Orphans(missing, holders)) {
      AscendingIsUnique(PlanOf(missing, holders).unheld, Orphans(missing, holders));
    }
    if Ascending(missing) {
      OrphansAscend(missing, holders);
    }
  }

  lemma {:induction false} OrphansAscend(missing: seq<nat>, holders: seq<Coverage>)
    requires Ascending(missing)
    ensures Ascending(Orphans(missing, holders))
    ensures forall x :: x in Orphans(missing, holders) ==> x in missing
    decreases |missing|
  {
    hide Who;
    if missing != [] {
      var front, last := missing[..|missing| - 1], missing[|missing| - 1];
      OrphansAscend(front, holders);
      FrontAndLast(missing);
      forall y | y in Orphans(front, holders) ensures y <= last {
        var i :| 0 <= i < |front| && front[i] == y;
        assert missing[i] == y;
      }
      AscendingSnoc(Orphans(front, holders), last);
    }
  }

  /** Wanted as 1 then 0, with nobody to ask, the unheld come back as 0 then 1. */
  lemma UnheldCanLeaveWantedOrder()
    ensures PlanOf([1, 0], []).unheld == [0, 1]
    ensures Orphans([1, 0], []) == [1, 0]
  {
    hide PlanOf, Orphans;
    OrphansOfNobody([1, 0]);
    UnheldCounted([1, 0], []);
    PlanConserves([1, 0], []);
    assert multiset([1, 0]) == multiset([0, 1]);
    AscendingIsUnique(PlanOf([1, 0], []).unheld, [0, 1]);
  }

  lemma {:induction false} OrphansOfNobody(missing: seq<nat>)
    ensures Orphans(missing, []) == missing
    decreases |missing|
  {
    if missing != [] {
      OrphansOfNobody(missing[..|missing| - 1]);
      FrontAndLast(missing);
    }
  }

  /** The queue behind a planned peer. */
  lemma QueueFacts(missing: seq<nat>, holders: seq<Coverage>, peer: nat)
    requires peer < |holders|
    ensures var queue := SharesOf(missing, holders).queues[peer];
            Ordered(queue) && forall i :: 0 <= i < |queue| ==>
              && queue[i].order < |missing| && missing[queue[i].order] == queue[i].position
              && queue[i].who == Who(queue[i].position, holders) && peer in queue[i].who
  {
    hide SharesOf;
    SharesFacts(missing, holders);
    var ranked, queue := Sorted(Ranked(missing, holders)), SharesOf(missing, holders).queues[peer];
    assert Drawn(queue, ranked, peer);
    forall i | 0 <= i < |queue|
      ensures && queue[i].order < |missing| && missing[queue[i].order] == queue[i].position
              && queue[i].who == Who(queue[i].position, holders) && peer in queue[i].who
    {
      assert queue[i] in ranked;
    }
  }

  /** **Each queue.** A planned peer has work, only what it holds, rarest first;
      peers are listed once, in order. */
  lemma PlanIsRarestFirst(missing: seq<nat>, holders: seq<Coverage>, k: nat) returns (order: seq<nat>)
    requires k < |PlanOf(missing, holders).peers|
    ensures var peers := PlanOf(missing, holders).peers;
            var peer, positions := peers[k].peer, peers[k].positions;
            && positions != []
            && (forall i :: 0 <= i < |positions| ==> HeldBy(positions[i], holders, peer))
            && RarestFirst(positions, order, missing, holders)
            && (forall j :: 0 <= j < k ==> peers[j].peer < peer)
  {
    hide SharesOf, Who;
    var s, peers := SharesOf(missing, holders), PlanOf(missing, holders).peers;
    BusyPeers(s.queues, |s.queues|);
    PlannedQueue(missing, holders, k);
    var queue := s.queues[peers[k].peer];
    QueueFacts(missing, holders, peers[k].peer);
    order := seq(|queue|, i requires 0 <= i < |queue| => queue[i].order);
    forall i | 0 <= i < |queue| ensures HeldBy(queue[i].position, holders, peers[k].peer) {
      WhoHolds(queue[i].position, holders, peers[k].peer);
    }
  }

  lemma PlannedQueue(missing: seq<nat>, holders: seq<Coverage>, k: nat)
    requires k < |PlanOf(missing, holders).peers|
    ensures PlansQueue(PlanOf(missing, holders).peers[k], SharesOf(missing, holders).queues, |holders|)
  {
    hide SharesOf;
    BusyPeers(SharesOf(missing, holders).queues, |holders|);
  }

  lemma WorkIsLoad(missing: seq<nat>, holders: seq<Coverage>, q: nat)
    requires q < |holders|
    ensures |WorkOf(PlanOf(missing, holders).peers, q)| == Load(SharesOf(missing, holders), q)
  {
    hide SharesOf, WorkOf, Busy;
    BusyWork(SharesOf(missing, holders).queues, |holders|, q);
  }

  lemma SharesAreFair(missing: seq<nat>, holders: seq<Coverage>, p: nat, q: nat)
    requires p < |holders| && q < |holders|
    ensures FairTo(SharesOf(missing, holders), p, q)
  {
    hide SharesOf, FairTo;
    SharesFacts(missing, holders);
  }

  /** **Fairness.** Every other holder of a peer's last chunk ends with a load of
      at least that peer's minus one. */
  lemma PlanIsFair(missing: seq<nat>, holders: seq<Coverage>, k: nat, q: nat)
    requires k < |PlanOf(missing, holders).peers|
    requires var positions := PlanOf(missing, holders).peers[k].positions;
             positions != [] ==> HeldBy(positions[|positions| - 1], holders, q)
    ensures var peers := PlanOf(missing, holders).peers;
            |WorkOf(peers, q)| >= |peers[k].positions| - 1
  {
    hide PlanOf, SharesOf, Who, WorkOf;
    var peer := PlanOf(missing, holders).peers[k].peer;
    PlannedQueue(missing, holders, k);
    var queue := SharesOf(missing, holders).queues[peer];
    QueueFacts(missing, holders, peer);
    WhoHolds(queue[|queue| - 1].position, holders, q);
    WorkIsLoad(missing, holders, q);
    SharesAreFair(missing, holders, peer, q);
  }

  // ----------------------------------------------------------------- the planner

  method FindHolders(position: nat, holders: seq<Coverage>) returns (who: seq<nat>)
    ensures who == Who(position, holders)
  {
    who := [];
    for peer := 0 to |holders|
      invariant who == Holding(position, holders, peer)
    {
      if position in holders[peer] {
        who := who + [peer];
      } else {
        assert who + [] == who;
      }
    }
  }

  lemma InsertedStep(ws: seq<Wanted>, w: Wanted, at: nat)
    requires at <= |ws|
    ensures Inserted(ws[..at], w) + ws[at..] ==
            if at > 0 && |ws[at - 1].who| > |w.who| then Inserted(ws[..at - 1], w) + ws[at - 1..]
            else ws[..at] + [w] + ws[at..]
  {
    if at > 0 {
      assert ws[..at][..at - 1] == ws[..at - 1];
      assert ws[at - 1..] == [ws[at - 1]] + ws[at..];
    }
  }

  /** Put one entry behind everything at most as common. */
  method InsertByRarity(ws: seq<Wanted>, w: Wanted) returns (r: seq<Wanted>)
    ensures r == Inserted(ws, w)
  {
    hide Inserted;
    var at := |ws|;
    assert ws[..at] == ws && ws[at..] == [];
    while at > 0 && |ws[at - 1].who| > |w.who|
      invariant at <= |ws|
      invariant Inserted(ws[..at], w) + ws[at..] == Inserted(ws, w)
    {
      InsertedStep(ws, w, at);
      at := at - 1;
    }
    InsertedStep(ws, w, at);
    r := ws[..at] + [w] + ws[at..];
  }

  method SortByRarity(ws: seq<Wanted>) returns (r: seq<Wanted>)
    ensures r == Sorted(ws)
  {
    r := [];
    for i := 0 to |ws|
      invariant r == Sorted(ws[..i])
    {
      assert ws[..i + 1][..i] == ws[..i];
      r := InsertByRarity(r, ws[i]);
    }
    assert ws[..|ws|] == ws;
  }

  lemma BestStep(who: seq<nat>, load: seq<nat>, i: nat)
    requires 0 < i <= |who| && Holders(who, |load|)
    ensures Best(who[..i], load) ==
            if i == 1 then who[0]
            else
              var front, last := Best(who[..i - 1], load), who[i - 1];
              if load[last] < load[front] || (load[last] == load[front] && last < front) then last else front
  {
    assert who[..i][..i - 1] == who[..i - 1] && who[..i][i - 1] == who[i - 1];
  }

  method PickPeer(who: seq<nat>, load: seq<nat>) returns (peer: nat)
    requires who != [] && Holders(who, |load|)
    ensures peer == Best(who, load)
  {
    hide Best;
    BestStep(who, load, 1);
    peer := who[0];
    for i := 1 to |who|
      invariant peer == Best(who[..i], load)
    {
      BestStep(who, load, i + 1);
      if load[who[i]] < load[peer] || (load[who[i]] == load[peer] && who[i] < peer) {
        peer := who[i];
      }
    }
    assert who[..|who|] == who;
  }

  /** Rank, hand out, and collect the queues that got something. */
  method MakePlan(missing: seq<nat>, holders: seq<Coverage>) returns (plan: Plan)
    ensures plan == PlanOf(missing, holders)
  {
    var wanted: seq<Wanted> := [];
    for i := 0 to |missing|
      invariant wanted == Ranked(missing, holders)[..i]
    {
      var who := FindHolders(missing[i], holders);
      wanted := wanted + [Wanted(i, missing[i], who)];
    }
    assert wanted == Ranked(missing, holders);
    var ranked := SortByRarity(wanted);
    RankedIsRankable(missing, holders);
    var queues, unheld := HandOut(ranked, |holders|);
    plan := CollectPlan(queues, unheld, AssignAll(ranked, |holders|));
  }

  method HandOut(ranked: seq<Wanted>, peers: nat) returns (queues: seq<seq<nat>>, unheld: seq<nat>)
    requires Rankable(ranked, peers)
    ensures Carries(queues, unheld, AssignAll(ranked, peers))
  {
    hide Carries, Loads, Best, Assign;
    NothingHandedOut(peers);
    var load: seq<nat> := seq(peers, _ => 0);
    queues, unheld := seq(peers, _ => []), [];
    for i := 0 to |ranked|
      invariant Rankable(ranked[..i], peers) && |queues| == |load| == peers
      invariant Carries(queues, unheld, AssignAll(ranked[..i], peers))
      invariant load == Loads(AssignAll(ranked[..i], peers))
    {
      assert ranked[..i + 1][..i] == ranked[..i];
      HandOutStep(queues, unheld, AssignAll(ranked[..i], peers), ranked[i]);
      var w := ranked[i];
      if w.who == [] {
        unheld := unheld + [w.position];
      } else {
        var peer := PickPeer(w.who, load);
        load := load[peer := load[peer] + 1];
        queues := queues[peer := queues[peer] + [w.position]];
      }
    }
    assert ranked[..|ranked|] == ranked;
  }

  ghost predicate Carries(queues: seq<seq<nat>>, unheld: seq<nat>, s: Shares) {
    && |queues| == |s.queues| && unheld == Positions(s.unheld)
    && forall p :: 0 <= p < |queues| ==> queues[p] == Positions(s.queues[p])
  }

  lemma NothingHandedOut(peers: nat)
    ensures AssignAll([], peers) == Shares(seq(peers, _ => []), [])
    ensures Carries(seq(peers, _ => []), [], AssignAll([], peers))
    ensures Loads(AssignAll([], peers)) == seq(peers, _ => 0)
  {
  }

  lemma HandOutStep(queues: seq<seq<nat>>, unheld: seq<nat>, s: Shares, w: Wanted)
    requires Carries(queues, unheld, s) && Holders(w.who, |s.queues|)
    ensures w.who == [] ==>
              Carries(queues, unheld + [w.position], Assign(s, w)) && Loads(Assign(s, w)) == Loads(s)
    ensures w.who != [] ==>
              var peer := Best(w.who, Loads(s));
              && Carries(queues[peer := queues[peer] + [w.position]], unheld, Assign(s, w))
              && Loads(Assign(s, w)) == Loads(s)[peer := Loads(s)[peer] + 1]
  {
    if w.who == [] {
      assert Positions(s.unheld + [w]) == Positions(s.unheld) + [w.position];
    } else {
      var peer := Best(w.who, Loads(s));
      assert Positions(s.queues[peer] + [w]) == Positions(s.queues[peer]) + [w.position];
    }
  }

  method CollectPlan(queues: seq<seq<nat>>, unheld: seq<nat>, ghost s: Shares) returns (plan: Plan)
    requires Carries(queues, unheld, s)
    ensures plan == Plan(Busy(s.queues, |s.queues|), SortedNumbers(Positions(s.unheld)))
  {
    var peers: seq<PeerPlan> := [];
    for peer := 0 to |queues|
      invariant peers == Busy(s.queues, peer)
    {
      assert queues[peer] == Positions(s.queues[peer]);
      if queues[peer] != [] {
        peers := peers + [PeerPlan(peer, queues[peer])];
      } else {
        assert peers + [] == peers;
      }
    }
    plan := Plan(peers, SortedNumbers(unheld));
  }
}
