/** What a hello means to its receiver, and how the two-party handshake over hello_trans
    converges (vrr_input.c, vrr_core.c). */
module Handshake {
  import opened Types
  import opened PhysicalSet
  import opened Wire
  import opened NeighbourTable

  // ---- Reachable neighbour sets ----

  /** What can happen to a node's neighbour set. */
  datatype Event = Handled(u: Update) | Accepted(src: u32) | Ticked

  function After(ps: Pset, ev: Event): Pset {
    match ev
    case Handled(u) => ApplyUpdate(ps, u)
    case Accepted(src) => ResetFail(ps, src)
    case Ticked => Sweep(ps)
  }

  /** The neighbour set of a node that started empty, after these events. */
  function Reached(events: seq<Event>): Pset {
    if events == [] then [] else After(Reached(events[..|events| - 1]), events[|events| - 1])
  }

  lemma {:induction false} ReachedIsValid(events: seq<Event>)
    ensures Valid(Reached(events))
  {
    if events != [] {
      ReachedIsValid(events[..|events| - 1]);
      var ps := Reached(events[..|events| - 1]);
      match events[|events| - 1]
      case Handled(u) => UpdateKeepsValid(ps, u);
      case Accepted(src) => ResetKeepsValid(ps, src);
      case Ticked => SweepKeepsValid(ps);
    }
  }

  // ---- The meaning of a hello ----

  /** What a hello should tell a neighbour that the sender holds with this status. */
  function Meaning(st: Status): Trans {
    match st
    case Linked => SaysLinked
    case Pending => SaysPending
    case Failed => SaysMissing
    case Unknown => SaysMissing
  }

  /** The lists in a hello name its receiver exactly according to the sender's status for it. */
  lemma HelloSaysStatus(active: bool, ps: Pset, receiver: u32)
    requires Valid(ps)
    ensures Says(HelloOf(active, ps), receiver) == Meaning(StatusOf(ps, receiver))
  {
    ListedByStatus(ps, LinkedActive, receiver);
    ListedByStatus(ps, LinkedInactive, receiver);
    ListedByStatus(ps, PendingClass, receiver);
  }

  /** Which list of a hello names a node: the linked active, the linked inactive and the pending
      neighbours, each in its own. */
  lemma HelloListsExactly(active: bool, ps: Pset, n: u32)
    requires Valid(ps)
    ensures var x := HelloOf(active, ps);
            && (n in x.la <==> StatusOf(ps, n) == Linked && ActiveOf(ps, n) == 1)
            && (n in x.lna <==> StatusOf(ps, n) == Linked && ActiveOf(ps, n) == 0)
            && (n in x.pend <==> StatusOf(ps, n) == Pending)
  {
    ListedByStatus(ps, LinkedActive, n);
    ListedByStatus(ps, LinkedInactive, n);
    ListedByStatus(ps, PendingClass, n);
  }

  lemma FittingHelloIsReadable(active: bool, ps: Pset)
    ensures Fits(ps) <==> Readable(HelloOf(active, ps))
  {
    if Readable(HelloOf(active, ps)) {
      forall c: Class ensures |Listed(ps, c)| <= VRR_PSET_SIZE {
        match c
        case LinkedActive =>
        case LinkedInactive =>
        case PendingClass =>
      }
    }
  }

  /** Hello meaning, end to end, for every reachable sender state whose list sizes are words. If
      every class has at most twenty neighbours, the bytes of the hello decode, and the transition
      its receiver computes says linked, pending or missing exactly as the sender holds the receiver
      linked, pending or neither, and its active word is non-zero exactly if the sender is active.
      Otherwise the receiver drops it. */
  lemma HelloMeansStatus(events: seq<Event>, active: bool, receiver: u32)
    requires Countable(HelloOf(active, Reached(events)))
    ensures match ParseHello(WordsOf(Words(HelloWords(HelloOf(active, Reached(events))))))
            case None => !Fits(Reached(events))
            case Some(x) =>
              && Fits(Reached(events)) && Says(x, receiver) == Meaning(StatusOf(Reached(events), receiver))
              && (x.active != 0 <==> active)
  {
    ReachedIsValid(events);
    FittingHelloIsReadable(active, Reached(events));
    HelloRoundTrip(HelloOf(active, Reached(events)));
    HelloSaysStatus(active, Reached(events), receiver);
  }

  // ---- Which updates cause a setup request ----

  /** A handled update sends a setup request to its node exactly if this node is inactive and holds
      the other, afterwards, as linked and active. */
  lemma RequestsAreToLinkedActive(ps: Pset, u: Update, active: bool)
    requires Valid(ps)
    ensures var ps' := ApplyUpdate(ps, u);
            WantsRequest(ps, u, active) <==> !active && StatusOf(ps', u.node) == Linked && ActiveOf(ps', u.node) == 1
  {
    UpdateKeepsValid(ps, u);
    UpdateStoresFlag(ps, u);
  }

  /** Each further update adds at most one request, behind those before it: to its node, if it leaves
      that node linked and active. */
  lemma {:induction false} RequestsInOrder(ps: Pset, us: seq<Update>, u: Update, active: bool)
    requires Valid(ps)
    ensures var after := ApplyUpdates(ps, us + [u]);
            Requests(ps, us + [u], active) ==
            Requests(ps, us, active)
            + if !active && StatusOf(after, u.node) == Linked && ActiveOf(after, u.node) == 1 then [u.node] else []
    decreases |us|
  {
    hide StatusOf, ActiveOf, ApplyUpdate, WantsRequest, Valid;
    var all := us + [u];
    if us == [] {
      RequestsAreToLinkedActive(ps, u, active);
      assert all == [u] && [u][1..] == [];
    } else {
      var ps1, rest := ApplyUpdate(ps, us[0]), us[1..];
      assert all[1..] == rest + [u] && all[0] == us[0];
      UpdateKeepsValid(ps, us[0]);
      RequestsInOrder(ps1, rest, u, active);
      var first := if WantsRequest(ps, us[0], active) then [us[0].node] else [];
      assert Requests(ps, all, active) == first + Requests(ps1, rest + [u], active);
      assert Requests(ps, us, active) == first + Requests(ps1, rest, active);
    }
  }

  /** The i-th update of the queue is about x and leaves x linked and active. */
  ghost predicate LinksActive(ps: Pset, us: seq<Update>, i: nat, x: u32) {
    && i < |us| && us[i].node == x
    && StatusOf(ApplyUpdates(ps, us[..i + 1]), x) == Linked && ActiveOf(ApplyUpdates(ps, us[..i + 1]), x) == 1
  }

  lemma LinksActiveShift(ps: Pset, us: seq<Update>, i: nat, x: u32)
    requires us != []
    ensures LinksActive(ps, us, i + 1, x) == LinksActive(ApplyUpdate(ps, us[0]), us[1..], i, x)
  {
    if i + 1 < |us| {
      assert us[..i + 2][1..] == us[1..][..i + 1] && us[..i + 2][0] == us[0];
    }
  }

  /** Over a queue of updates: a node gets a request exactly if this node is inactive and one of the
      updates leaves the other linked and active. */
  lemma {:induction false} RequestsExactly(ps: Pset, us: seq<Update>, active: bool, x: u32)
    requires Valid(ps)
    ensures x in Requests(ps, us, active) <==> !active && exists i: nat :: LinksActive(ps, us, i, x)
    decreases |us|
  {
    if us != [] {
      var ps1 := ApplyUpdate(ps, us[0]);
      UpdateKeepsValid(ps, us[0]);
      RequestsAreToLinkedActive(ps, us[0], active);
      RequestsExactly(ps1, us[1..], active, x);
      assert us[..1] == [us[0]] && ApplyUpdates(ps, us[..1]) == ps1;
      assert !active ==> (LinksActive(ps, us, 0, x) <==> us[0].node == x && WantsRequest(ps, us[0], active));
      hide StatusOf, ActiveOf, ApplyUpdate, WantsRequest, Valid, LinksActive;
      if i: nat :| LinksActive(ps, us, i, x) {
        if i > 0 {
          LinksActiveShift(ps, us, i - 1, x);
        }
      }
      if i: nat :| LinksActive(ps1, us[1..], i, x) {
        LinksActiveShift(ps, us, i, x);
      }
    }
  }

  // ---- Convergence on status pairs ----

  /** How two nodes hold each other. */
  datatype Pair = Pair(a: Status, b: Status)

  datatype Direction = AtoB | BtoA

  /** One hello that carries the sender's current status. */
  function Exchange(p: Pair, d: Direction): Pair {
    match d
    case AtoB => p.(b := HelloTrans(p.b, Meaning(p.a)))
    case BtoA => p.(a := HelloTrans(p.a, Meaning(p.b)))
  }

  const CONVERGED := Pair(Linked, Linked)

  /** Rounds still needed, an upper bound; symmetric in the two nodes. */
  function Rank(p: Pair): nat {
    match p
    case Pair(Linked, Linked) => 0
    case Pair(Linked, Pending) => 1
    case Pair(Pending, Linked) => 1
    case Pair(Pending, Pending) => 2
    case Pair(Pending, Unknown) => 2
    case Pair(Unknown, Pending) => 2
    case Pair(Pending, Failed) => 3
    case Pair(Failed, Pending) => 3
    case Pair(Unknown, Unknown) => 3
    case Pair(Failed, Failed) => 4
    case Pair(Failed, Unknown) => 4
    case Pair(Unknown, Failed) => 4
    case Pair(Linked, Failed) => 5
    case Pair(Failed, Linked) => 5
    case Pair(Linked, Unknown) => 6
    case Pair(Unknown, Linked) => 6
  }

  /** A hello either changes nothing or lowers the rank; some direction changes every pair but
      linked/linked, which both directions keep. */
  lemma ExchangeLowersRank(p: Pair)
    ensures forall d :: Exchange(p, d) == p || Rank(Exchange(p, d)) < Rank(p)
    ensures p == CONVERGED <==> forall d :: Exchange(p, d) == p
    ensures Rank(p) == 0 <==> p == CONVERGED
  {
    if p != CONVERGED {
      assert Exchange(p, AtoB) != p || Exchange(p, BtoA) != p;
    }
  }

  function Exchanges(p: Pair, ds: seq<Direction>): Pair {
    if ds == [] then p else Exchange(Exchanges(p, ds[..|ds| - 1]), ds[|ds| - 1])
  }

  /** One node says hello, and then it is the other's turn: the pair as the other sees it. */
  function Turn(p: Pair): Pair {
    var q := Exchange(p, AtoB);
    Pair(q.b, q.a)
  }

  /** After k hellos in turn. */
  function Turns(p: Pair, k: nat): Pair
    decreases k
  {
    if k == 0 then p else Turns(Turn(p), k - 1)
  }

  /** How many hellos in turn it takes until both are linked. */
  function TurnsNeeded(p: Pair): nat {
    match p.a
    case Linked => (match p.b case Linked => 0 case Pending => 1 case Failed => 6 case Unknown => 6)
    case Pending => (match p.b case Linked => 2 case Pending => 2 case Failed => 3 case Unknown => 2)
    case Failed => (match p.b case Linked => 5 case Pending => 4 case Failed => 4 case Unknown => 4)
    case Unknown => (match p.b case Linked => 5 case Pending => 3 case Failed => 3 case Unknown => 3)
  }

  /** Taking turns, two nodes are linked to each other after exactly that many hellos and not before:
      after three from power-up, and never more than six. */
  lemma {:induction false} TurnsAreExact(p: Pair, k: nat)
    ensures Turns(p, k) == CONVERGED <==> k >= TurnsNeeded(p)
    ensures TurnsNeeded(Pair(Unknown, Unknown)) == 3 && TurnsNeeded(p) <= 6
    decreases k
  {
    if k > 0 {
      TurnsAreExact(Turn(p), k - 1);
    }
  }

  /** A round is any exchange sequence with both directions in it. */
  ghost predicate IsRound(ds: seq<Direction>) {
    AtoB in ds && BtoA in ds
  }

  lemma {:induction false} RunLowersRank(p: Pair, ds: seq<Direction>)
    ensures Rank(Exchanges(p, ds)) < Rank(p) || (Exchanges(p, ds) == p && forall d | d in ds :: Exchange(p, d) == p)
  {
    if ds != [] {
      var before, last := ds[..|ds| - 1], ds[|ds| - 1];
      assert ds == before + [last];
      RunLowersRank(p, before);
      ExchangeLowersRank(Exchanges(p, before));
    }
  }

  lemma RoundLowersRank(p: Pair, ds: seq<Direction>)
    requires IsRound(ds)
    ensures Rank(Exchanges(p, ds)) < Rank(p) || Exchanges(p, ds) == p == CONVERGED
  {
    RunLowersRank(p, ds);
    if Exchanges(p, ds) == p {
      ExchangeLowersRank(p);
      assert Exchange(p, AtoB) == p && Exchange(p, BtoA) == p;
    }
  }

  function Rounds(p: Pair, rounds: seq<seq<Direction>>): Pair {
    if rounds == [] then p else Exchanges(Rounds(p, rounds[..|rounds| - 1]), rounds[|rounds| - 1])
  }

  lemma {:induction false} RoundsLowerRank(p: Pair, rounds: seq<seq<Direction>>)
    requires forall i | 0 <= i < |rounds| :: IsRound(rounds[i])
    ensures Rounds(p, rounds) == CONVERGED || Rank(Rounds(p, rounds)) + |rounds| <= Rank(p)
  {
    if rounds != [] {
      RoundsLowerRank(p, rounds[..|rounds| - 1]);
      RoundLowersRank(Rounds(p, rounds[..|rounds| - 1]), rounds[|rounds| - 1]);
    }
  }

  /** Handshake convergence: from every pair of statuses, any schedule of six or more rounds ends
      with both nodes linked, and no later hello changes that. */
  lemma SixRoundsConverge(p: Pair, rounds: seq<seq<Direction>>, more: seq<Direction>)
    requires |rounds| >= 6 && forall i | 0 <= i < |rounds| :: IsRound(rounds[i])
    ensures Rounds(p, rounds) == CONVERGED
    ensures Exchanges(CONVERGED, more) == CONVERGED
  {
    RoundsLowerRank(p, rounds);
    RunLowersRank(CONVERGED, more);
  }
}
