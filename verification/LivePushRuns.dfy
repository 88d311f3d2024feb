/** What a live-segment server does in a run, told from the events alone. */
module LivePushRuns {
  import opened LivePush

  // The segment the client last said it has.
  function Claimed(client: int, events: seq<Event>): int {
    if events == [] then client
    else
      var last := events[|events| - 1];
      if last.Requested? then last.seg else Claimed(client, events[..|events| - 1])
  }

  // Segments made available: the ticks before the stream closed.
  function Ticks(events: seq<Event>): int {
    if events == [] then 0
    else
      var front := events[..|events| - 1];
      Ticks(front) + if events[|events| - 1] == Tick && Closed !in front then 1 else 0
  }

  // The segment the client is taken to have: one more with every completion, what it claims with a cancel.
  function Position(client: int, events: seq<Event>): int {
    if events == [] then 0
    else
      var front, last := events[..|events| - 1], events[|events| - 1];
      if last.PushClosed? && last.code == 0 then Position(client, front) + 1
      else if last.PushClosed? && last.code == 8 then Claimed(client, front)
      else Position(client, front)
  }

  // Where the client was last rewound to.
  function RewoundTo(client: int, events: seq<Event>): int {
    if events == [] then 0
    else
      var front, last := events[..|events| - 1], events[|events| - 1];
      if last.PushClosed? && last.code == 8 then Claimed(client, front) else RewoundTo(client, front)
  }

  // The push after a position: none at the end of the stream.
  function Following(position: int): seq<int> {
    if position + 1 >= 2001 then [] else [position + 1]
  }

  // The push in flight: a tick starts one if there is none, a closed push is followed up unless all is sent.
  function InFlight(client: int, events: seq<Event>): seq<int> {
    if events == [] then []
    else
      var front, last := events[..|events| - 1], events[|events| - 1];
      match last
      case Tick =>
        if InFlight(client, front) != [] || Closed in front then InFlight(client, front)
        else Following(Position(client, front))
      case PushClosed(_, _) =>
        if Position(client, events) == Ticks(events) then [] else Following(Position(client, events))
      case Requested(_) => InFlight(client, front)
      case Closed => InFlight(client, front)
  }

  // What the events of a run tell.
  datatype Account = Account(claimed: int, position: int, ticks: int, closed: bool, rewound: int, inFlight: seq<int>)

  function AccountOf(client: int, events: seq<Event>): Account {
    Account(Claimed(client, events), Position(client, events), Ticks(events), Closed in events,
            RewoundTo(client, events), InFlight(client, events))
  }

  // One event more.
  function After(a: Account, last: Event): Account {
    match last
    case Tick =>
      a.(ticks := a.ticks + if a.closed then 0 else 1,
         inFlight := if a.inFlight != [] || a.closed then a.inFlight else Following(a.position))
    case PushClosed(_, code) =>
      var to := if code == 0 then a.position + 1 else if code == 8 then a.claimed else a.position;
      a.(position := to, rewound := if code == 8 then a.claimed else a.rewound,
         inFlight := if to == a.ticks then [] else Following(to))
    case Requested(seg) => a.(claimed := seg)
    case Closed => a.(closed := true)
  }

  lemma AccountStep(client: int, front: seq<Event>, last: Event)
    ensures AccountOf(client, front + [last]) == After(AccountOf(client, front), last)
  {
    var events := front + [last];
    assert events[..|events| - 1] == front && events[|events| - 1] == last;
    assert Closed in events <==> Closed in front || last == Closed;
  }

  // The state agrees with the account; a server that takes itself to be pushing without a push is at the end.
  ghost predicate Tells(s: State, a: Account) {
    && s.client == a.claimed && s.server == a.position && s.avail == a.ticks && (s.closed <==> a.closed)
    && s.base == a.rewound && s.inFlight == a.inFlight
    && (s.pushing && a.inFlight == [] ==> a.position + 1 >= 2001) && (!s.pushing ==> a.inFlight == [])
    && (a.inFlight == [] || a.inFlight == [a.position + 1])
  }

  // Where the server is when a push has been counted.
  lemma CountedTo(s: State, a: Account, which: nat, code: nat)
    requires Tells(s, a) && which < |s.inFlight|
    ensures var c, a' := Counted(WithoutPush(s, which), s.inFlight[which], code), After(a, PushClosed(which, code));
      && c == s.(server := a'.position, base := a'.rewound, inFlight := [], sent := c.sent)
      && a' == a.(position := a'.position, rewound := a'.rewound,
                  inFlight := if a'.position == a.ticks then [] else Following(a'.position))
  {
    assert which == 0 && s.inFlight[..0] + s.inFlight[1..] == [];
    assert WithoutPush(s, which) == s.(inFlight := []);
    hide WithoutPush;
  }

  lemma TellsClose(s: State, a: Account, which: nat, code: nat)
    requires Tells(s, a) && which < |s.inFlight|
    ensures Tells(AfterPush(s, which, code), After(a, PushClosed(which, code)))
    ensures var next := After(a, PushClosed(which, code)).inFlight;
      AfterPush(s, which, code).pushed == s.pushed + (if next == [] then [] else [Push(next[0], a.ticks)])
  {
    hide WithoutPush, Counted, After, PushRemaining, Tells, Following;
    CountedTo(s, a, which, code);
    var c, a' := Counted(WithoutPush(s, which), s.inFlight[which], code), After(a, PushClosed(which, code));
    Agree(s, a);
    if c.server == c.avail {
      IdleTells(c.(periodic := true, pushing := false), a');
    } else {
      NextTells(c.(periodic := false, pushing := true), a');
    }
  }

  lemma Agree(s: State, a: Account)
    requires Tells(s, a)
    ensures s.client == a.claimed && s.server == a.position && s.avail == a.ticks && (s.closed <==> a.closed)
  {
  }

  // All is sent, or the next push follows.
  lemma IdleTells(c: State, a: Account)
    requires c.client == a.claimed && c.server == a.position == a.ticks == c.avail && (c.closed <==> a.closed)
    requires c.base == a.rewound && c.inFlight == a.inFlight == [] && !c.pushing
    ensures Tells(c, a)
  {
  }

  lemma NextTells(c: State, a: Account)
    requires c.client == a.claimed && c.server == a.position && c.avail == a.ticks && (c.closed <==> a.closed)
    requires c.base == a.rewound && c.inFlight == [] && a.inFlight == Following(a.position) && c.pushing
    ensures Tells(PushRemaining(c), a)
    ensures PushRemaining(c).pushed == c.pushed + (if a.inFlight == [] then [] else [Push(a.inFlight[0], a.ticks)])
  {
  }

  lemma TellsTick(s: State, a: Account)
    requires Tells(s, a)
    ensures Tells(AfterTick(s), After(a, Tick))
    ensures a.closed ==> AfterTick(s) == s
    ensures a.inFlight != [] ==> AfterTick(s).pushed == s.pushed
  {
  }

  lemma TellsStep(s: State, a: Account, last: Event)
    requires Tells(s, a) && Enabled(s, last)
    ensures Tells(Step(s, last), After(a, last))
  {
    hide AfterTick, AfterPush;
    match last
    case Tick => TellsTick(s, a);
    case PushClosed(which, code) => TellsClose(s, a, which, code);
    case Requested(_) =>
    case Closed =>
  }

  /** In every possible run the server is where its events put it, and the push in flight is the one they call
      for, whether or not its rewinds fit. */
  lemma {:induction false} RunTells(client: int, events: seq<Event>)
    requires Possible(client, events)
    ensures Tells(Run(client, events), AccountOf(client, events))
  {
    hide Tells, AccountOf, After, Step;
    if events == [] {
      StartTells(client);
    } else {
      var front, last := events[..|events| - 1], events[|events| - 1];
      assert events == front + [last];
      RunTells(client, front);
      TellsStep(Run(client, front), AccountOf(client, front), last);
      AccountStep(client, front, last);
    }
  }

  lemma StartTells(client: int)
    ensures Tells(Run(client, []), AccountOf(client, []))
  {
  }

  lemma OneStep(client: int, events: seq<Event>, last: Event)
    requires Enabled(Run(client, events), last)
    ensures Run(client, events + [last]) == Step(Run(client, events), last)
  {
    assert (events + [last])[..|events|] == events;
  }

  /** When the push in flight closes, the next one is: after a cancel that of the segment after the one the client
      last claimed; after a completion that of the segment after the one completed; after any other failure the
      same one. None follows when the newest segment is reached, or the end of the stream. */
  lemma NextPushAfter(client: int, events: seq<Event>, seg: int, code: nat)
    requires Possible(client, events) && Run(client, events).inFlight == [seg]
    ensures var from := if code == 8 then Claimed(client, events) else if code == 0 then seg else seg - 1;
      var s, s' := Run(client, events), Run(client, events + [PushClosed(0, code)]);
      && s'.inFlight == (if from == Ticks(events) || from + 1 >= 2001 then [] else [from + 1])
      && s'.pushed == s.pushed + (if s'.inFlight == [] then [] else [Push(s'.inFlight[0], Ticks(events))])
  {
    hide Run, AfterPush, Claimed, Ticks, Position;
    RunTells(client, events);
    OneStep(client, events, PushClosed(0, code));
    TellsClose(Run(client, events), AccountOf(client, events), 0, code);
  }

  /** A tick starts the push of the next segment exactly when none is in flight, the stream is open and not at
      its end; after the stream has closed it changes nothing. */
  lemma TickPushes(client: int, events: seq<Event>)
    requires Possible(client, events)
    ensures var s, s' := Run(client, events), Run(client, events + [Tick]);
      && (Closed in events ==> s' == s)
      && (Closed !in events ==> s'.avail == s.avail + 1)
      && (Closed !in events && s.inFlight == [] && Position(client, events) + 1 < 2001 ==>
            s'.inFlight == [Position(client, events) + 1])
      && (s.inFlight != [] ==> s'.inFlight == s.inFlight && s'.pushed == s.pushed)
  {
    hide Run, AfterTick, Claimed, Ticks, Position;
    RunTells(client, events);
    OneStep(client, events, Tick);
    TellsTick(Run(client, events), AccountOf(client, events));
  }

  /** A client that has segment 1 and cancels the push of segment 3 is sent segment 2. */
  lemma RewindExample()
    ensures var events := [Tick, PushClosed(0, 0), Tick, PushClosed(0, 0), Tick, Requested(1), PushClosed(0, 8)];
      Possible(0, events) && Run(0, events).inFlight == [2]
  {
    var e0: seq<Event> := [];
    var e1 := Extend(0, e0, Tick);
    var e2 := Extend(0, e1, PushClosed(0, 0));
    var e3 := Extend(0, e2, Tick);
    var e4 := Extend(0, e3, PushClosed(0, 0));
    var e5 := Extend(0, e4, Tick);
    var e6 := Extend(0, e5, Requested(1));
    var e7 := Extend(0, e6, PushClosed(0, 8));
    assert e7 == [Tick, PushClosed(0, 0), Tick, PushClosed(0, 0), Tick, Requested(1), PushClosed(0, 8)];
  }

  lemma Extend(client: int, events: seq<Event>, last: Event) returns (more: seq<Event>)
    requires Possible(client, events) && Enabled(Run(client, events), last)
    ensures more == events + [last] && Possible(client, more)
    ensures Run(client, more) == Step(Run(client, events), last)
  {
    more := events + [last];
    assert more[..|more| - 1] == events;
  }
}
