/** The handshake with hellos that cross: each of two nodes may send whenever it likes, so the hello
    under way to it may say what the other no longer holds. Six rounds are enough all the same. */
module CrossingHellos {
  import opened Types
  import opened PhysicalSet
  import opened Handshake

  /** How the two hold each other, and what the hello under way in each direction says. */
  datatype Talk = Talk(p: Pair, ab: Option<Trans>, ba: Option<Trans>)

  function Back(d: Direction): Direction { if d == AtoB then BtoA else AtoB }

  function Under(t: Talk, d: Direction): Option<Trans> { if d == AtoB then t.ab else t.ba }

  /** A node sends a hello, which replaces one that was not received; or it handles one. */
  datatype Event = Send(d: Direction) | Handle(d: Direction)

  predicate Can(t: Talk, e: Event) {
    e.Handle? ==> Under(t, e.d).Some?
  }

  function Next(t: Talk, e: Event): Talk
    requires Can(t, e)
  {
    match e
    case Send(AtoB) => t.(ab := Some(Meaning(t.p.a)))
    case Send(BtoA) => t.(ba := Some(Meaning(t.p.b)))
    case Handle(AtoB) => t.(p := t.p.(b := HelloTrans(t.p.b, t.ab.value)), ab := None)
    case Handle(BtoA) => t.(p := t.p.(a := HelloTrans(t.p.a, t.ba.value)), ba := None)
  }

  // ---- Which states occur ----

  /** The hello says what its sender no longer holds. */
  predicate Stale(m: Option<Trans>, sender: Status) {
    m.Some? && m.value != Meaning(sender)
  }

  /** Stale hellos that occur, by the present statuses of sender and receiver. */
  predicate Late(m: Trans, sender: Status, receiver: Status) {
    match sender
    case Linked =>
      (m == SaysPending && (receiver == Linked || receiver == Pending)) || (m == SaysMissing && receiver == Pending)
    case Pending =>
      (m == SaysMissing && receiver != Linked) || (m == SaysLinked && (receiver == Failed || receiver == Unknown))
    case Failed => m == SaysLinked && (receiver == Failed || receiver == Unknown)
    case Unknown => false
  }

  /** At most one of the two hellos is stale, and only as listed. */
  predicate Possible(t: Talk) {
    && !(Stale(t.ab, t.p.a) && Stale(t.ba, t.p.b))
    && (Stale(t.ab, t.p.a) ==> Late(t.ab.value, t.p.a, t.p.b))
    && (Stale(t.ba, t.p.b) ==> Late(t.ba.value, t.p.b, t.p.a))
  }

  // ---- Rounds still needed ----

  /** With fresh hellos, at the beginning of a round. */
  function Fresh(p: Pair): nat {
    if p == CONVERGED then 0
    else if (p.a == Linked && p.b != Pending) || (p.b == Linked && p.a != Pending) then 6
    else if p.a == Failed || p.a == Unknown || p.b == Failed || p.b == Unknown then 4
    else 2
  }

  /** A stale hello costs one round more, unless it moves its receiver on. */
  function Cost(m: Option<Trans>, sender: Status, receiver: Status): nat {
    if !Stale(m, sender) then 0
    else if sender == Linked && m.value == SaysPending && receiver == Pending then 0
    else if sender == Pending && m.value == SaysMissing && receiver != Pending then 0
    else 1
  }

  /** The next progress is a hello in this direction. */
  predicate Awaits(t: Talk, d: Direction) {
    if Cost(t.ab, t.p.a, t.p.b) > 0 then d == AtoB
    else if Cost(t.ba, t.p.b, t.p.a) > 0 then d == BtoA
    else match t.p
      case Pair(Linked, Linked) => false
      case Pair(Linked, b) => d == if b == Pending then AtoB else BtoA
      case Pair(a, Linked) => d == if a == Pending then BtoA else AtoB
      case Pair(Pending, b) => b == Pending || d == AtoB
      case Pair(a, Pending) => d == BtoA
      case Pair(_, _) => true
  }

  /** In a round one direction may be done already; if it was the one to wait for, that costs. */
  function Owed(t: Talk, done: Option<Direction>): nat {
    Fresh(t.p) + Cost(t.ab, t.p.a, t.p.b) + Cost(t.ba, t.p.b, t.p.a)
    + if done.Some? && Awaits(t, done.value) then 1 else 0
  }

  /** The same seen from the other side. */
  function Swap(t: Talk): Talk { Talk(Pair(t.p.b, t.p.a), t.ba, t.ab) }

  function SwapDone(done: Option<Direction>): Option<Direction> {
    match done case None => None case Some(d) => Some(Back(d))
  }

  lemma SwapOwes(t: Talk, done: Option<Direction>)
    ensures Possible(Swap(t)) == Possible(t)
    ensures Possible(t) ==> Owed(Swap(t), SwapDone(done)) == Owed(t, done)
  {
  }

  /** A round ends when hellos were handled in both directions. */
  function DoneAfter(done: Option<Direction>, e: Event): Option<Direction> {
    if e.Send? then done else if EndsRound(done, e) then None else Some(e.d)
  }

  predicate EndsRound(done: Option<Direction>, e: Event) {
    e.Handle? && done == Some(Back(e.d))
  }

  lemma SendPays(t: Talk, done: Option<Direction>, d: Direction)
    requires Possible(t)
    ensures Possible(Next(t, Send(d))) && Owed(Next(t, Send(d)), done) <= Owed(t, done)
  {
  }

  lemma HandleStaysPossible(t: Talk, d: Direction)
    requires Possible(t) && Can(t, Handle(d))
    ensures Possible(Next(t, Handle(d)))
  {
  }

  lemma HandlePays(t: Talk, done: Option<Direction>, d: Direction)
    requires Possible(t) && Can(t, Handle(d))
    ensures var e := Handle(d); var owed := Owed(Next(t, e), DoneAfter(done, e));
            if Owed(t, done) == 0 then owed == 0 else owed + (if EndsRound(done, e) then 1 else 0) <= Owed(t, done)
  {
  }

  /** Each event keeps the states possible and the account in order; once nothing is owed, nothing
      ever is. */
  lemma StepPays(t: Talk, done: Option<Direction>, e: Event)
    requires Possible(t) && Can(t, e)
    ensures Possible(Next(t, e))
    ensures var owed := Owed(Next(t, e), DoneAfter(done, e));
            if Owed(t, done) == 0 then owed == 0 else owed + (if EndsRound(done, e) then 1 else 0) <= Owed(t, done)
  {
    hide Possible, Owed;
    match e
    case Send(d) =>
      SendPays(t, done, d);
    case Handle(d) =>
      HandleStaysPossible(t, d);
      HandlePays(t, done, d);
  }

  // ---- Runs ----

  ghost predicate CanAll(t: Talk, es: seq<Event>)
    decreases |es|, 0
  {
    es == [] || (CanAll(t, es[..|es| - 1]) && Can(After(t, es[..|es| - 1]), es[|es| - 1]))
  }

  ghost function After(t: Talk, es: seq<Event>): Talk
    requires CanAll(t, es)
    decreases |es|, 1
  {
    if es == [] then t else Next(After(t, es[..|es| - 1]), es[|es| - 1])
  }

  function DoneIn(es: seq<Event>): Option<Direction> {
    if es == [] then None else DoneAfter(DoneIn(es[..|es| - 1]), es[|es| - 1])
  }

  /** The number of rounds: stretches in which hellos were handled both ways. */
  function RoundsIn(es: seq<Event>): nat {
    if es == [] then 0
    else RoundsIn(es[..|es| - 1]) + if EndsRound(DoneIn(es[..|es| - 1]), es[|es| - 1]) then 1 else 0
  }

  lemma {:induction false} RunPays(p: Pair, es: seq<Event>)
    requires CanAll(Talk(p, None, None), es)
    ensures var t := After(Talk(p, None, None), es);
            Possible(t) && (Owed(t, DoneIn(es)) == 0 || RoundsIn(es) + Owed(t, DoneIn(es)) <= 6)
  {
    if es != [] {
      var before := es[..|es| - 1];
      RunPays(p, before);
      StepPays(After(Talk(p, None, None), before), DoneIn(before), es[|es| - 1]);
      hide Next, Owed, Possible, Can;
    }
  }

  /** From any statuses, with no hello under way: in whatever order the two send and handle, so that
      hellos cross, are late or are lost, six rounds make them linked to each other. */
  lemma CrossingHellosConverge(p: Pair, es: seq<Event>)
    requires CanAll(Talk(p, None, None), es) && RoundsIn(es) >= 6
    ensures After(Talk(p, None, None), es).p == CONVERGED
  {
    RunPays(p, es);
  }

  /** One stale hello under way at the beginning can keep the two apart for ever: three rounds lead
      from this state back to it. */
  lemma StaleHelloCanCycle()
    ensures var t := Talk(Pair(Linked, Failed), Some(SaysPending), None);
            var es := [Send(BtoA), Handle(AtoB), Send(AtoB), Handle(BtoA), Send(BtoA), Handle(AtoB),
                       Send(AtoB), Handle(BtoA), Send(BtoA), Handle(AtoB), Send(AtoB), Handle(BtoA)];
            CanAll(t, es) && After(t, es) == t && RoundsIn(es) == 3
  {
    var t := Talk(Pair(Linked, Failed), Some(SaysPending), None);
    var t1, es1 := OneTurn(t, [], t);
    var t2, es2 := OneTurn(t, es1, t1);
    var t3, es3 := OneTurn(t, es2, t2);
    assert es3 == [Send(BtoA), Handle(AtoB), Send(AtoB), Handle(BtoA), Send(BtoA), Handle(AtoB),
                   Send(AtoB), Handle(BtoA), Send(BtoA), Handle(AtoB), Send(AtoB), Handle(BtoA)];
  }

  /** Both send and handle once, the second before it has received. */
  lemma OneTurn(t0: Talk, es: seq<Event>, t: Talk) returns (t': Talk, es': seq<Event>)
    requires CanAll(t0, es) && After(t0, es) == t && DoneIn(es) == None && t.ab.Some?
    ensures es' == es + [Send(BtoA), Handle(AtoB), Send(AtoB), Handle(BtoA)]
    ensures CanAll(t0, es') && After(t0, es') == t' && DoneIn(es') == None && RoundsIn(es') == RoundsIn(es) + 1
    ensures t' == Next(Next(Next(Next(t, Send(BtoA)), Handle(AtoB)), Send(AtoB)), Handle(BtoA))
  {
    var e1 := es + [Send(BtoA)];
    var e2 := e1 + [Handle(AtoB)];
    var e3 := e2 + [Send(AtoB)];
    es' := e3 + [Handle(BtoA)];
    Append(t0, es, Send(BtoA));
    Append(t0, e1, Handle(AtoB));
    Append(t0, e2, Send(AtoB));
    Append(t0, e3, Handle(BtoA));
    t' := After(t0, es');
  }

  lemma Append(t0: Talk, es: seq<Event>, e: Event)
    requires CanAll(t0, es) && Can(After(t0, es), e)
    ensures CanAll(t0, es + [e]) && After(t0, es + [e]) == Next(After(t0, es), e)
    ensures DoneIn(es + [e]) == DoneAfter(DoneIn(es), e)
    ensures RoundsIn(es + [e]) == RoundsIn(es) + if EndsRound(DoneIn(es), e) then 1 else 0
  {
    assert (es + [e])[..|es|] == es;
  }
}
