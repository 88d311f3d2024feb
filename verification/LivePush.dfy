/** The live-segment pusher of server_push.cpp: one connection, its timer, its pushes and the client's requests
    to rewind. */
module LivePush {
  const MAX_SEGMENTS: int := 2001

  const CANCEL: nat := 8

  // A push, and the newest segment available when it was made.
  datatype Push = Push(seg: int, avail: int)

  // inFlight and pushed list pushes, sent the segments completed since the last rewind to base.
  datatype State = State(
    avail: int, server: int, client: int, periodic: bool, pushing: bool, closed: bool, answered: bool,
    inFlight: seq<int>, pushed: seq<Push>, base: int, sent: seq<int>)

  // The client's last request stays from before the connection.
  function Connected(client: int): State {
    State(0, 0, client, true, false, false, false, [], [], 0, [])
  }

  datatype Event =
    | Tick                             // the segment timer fires
    | PushClosed(which: nat, code: nat)  // a push in flight completes, is cancelled or fails
    | Requested(seg: int)              // the client tells which segment it has
    | Closed                           // the stream the pushes belong to closes

  function PushRemaining(s: State): State {
    if s.server + 1 >= MAX_SEGMENTS then s.(answered := true)
    else s.(inFlight := s.inFlight + [s.server + 1], pushed := s.pushed + [Push(s.server + 1, s.avail)],
            pushing := true)
  }

  function AfterTick(s: State): State {
    if s.closed then s
    else
      var ticked := s.(avail := s.avail + 1);
      if ticked.pushing then ticked else PushRemaining(ticked)
  }

  function Counted(s: State, seg: int, code: nat): State {
    if code == 0 then s.(server := s.server + 1, sent := s.sent + [seg])
    else if code == CANCEL then s.(server := s.client, base := s.client, sent := [])
    else s
  }

  function WithoutPush(s: State, which: nat): State
    requires which < |s.inFlight|
  {
    s.(inFlight := s.inFlight[..which] + s.inFlight[which + 1..])
  }

  function AfterPush(s: State, which: nat, code: nat): State
    requires which < |s.inFlight|
  {
    var c := Counted(WithoutPush(s, which), s.inFlight[which], code);
    if c.server == c.avail then c.(periodic := true, pushing := false)
    else PushRemaining(c.(periodic := false, pushing := true))
  }

  predicate Enabled(s: State, event: Event) {
    event.PushClosed? ==> event.which < |s.inFlight|
  }

  function Step(s: State, event: Event): State
    requires Enabled(s, event)
  {
    match event
    case Tick => AfterTick(s)
    case PushClosed(which, code) => AfterPush(s, which, code)
    case Requested(seg) => s.(client := seg)
    case Closed => s.(closed := true)
  }

  predicate NeverEarly(pushed: seq<Push>) {
    forall i :: 0 <= i < |pushed| ==> pushed[i].seg <= pushed[i].avail
  }

  // Segments base + 1, base + 2 and so on up to server.
  predicate Consecutive(base: int, sent: seq<int>, server: int) {
    server == base + |sent| && forall i :: 0 <= i < |sent| ==> sent[i] == base + 1 + i
  }

  /** At most one push is in flight, that of the next segment, and it is available; an idle server has sent all
      there is; no push was ever early and completions are consecutive since the last rewind. Once the end of
      the stream is answered nothing is pushed any more. */
  predicate Safe(s: State) {
    && NeverEarly(s.pushed) && Consecutive(s.base, s.sent, s.server)
    && if s.answered then s.inFlight == [] && s.server + 1 >= MAX_SEGMENTS
       else if s.pushing then s.inFlight == [s.server + 1] && s.server < s.avail
       else s.inFlight == [] && s.server == s.avail
  }

  // A rewind goes to what is available, or ends the stream.
  predicate RewindFits(s: State, event: Event) {
    event.PushClosed? && event.code == CANCEL ==> s.client <= s.avail || s.client + 1 >= MAX_SEGMENTS
  }

  lemma NextPush(s: State)
    requires NeverEarly(s.pushed) && Consecutive(s.base, s.sent, s.server) && s.inFlight == []
    requires s.answered ==> s.server + 1 >= MAX_SEGMENTS
    ensures Safe(PushRemaining(s)) <==> s.server < s.avail || s.server + 1 >= MAX_SEGMENTS
    ensures Safe(PushRemaining(s)) <==> NeverEarly(PushRemaining(s).pushed)
  {
    var next := PushRemaining(s);
    if s.server + 1 < MAX_SEGMENTS {
      assert next.pushed[|s.pushed|] == Push(s.server + 1, s.avail);
    }
  }

  lemma CountedOn(s: State, code: nat)
    requires Consecutive(s.base, s.sent, s.server)
    ensures var c := Counted(s, s.server + 1, code); Consecutive(c.base, c.sent, c.server)
  {
  }

  lemma SafeTick(s: State)
    requires Safe(s)
    ensures Safe(AfterTick(s))
  {
  }

  lemma OnlyPush(s: State, which: nat)
    requires Safe(s) && which < |s.inFlight|
    ensures s.inFlight[which] == s.server + 1 && WithoutPush(s, which) == s.(inFlight := []) && !s.answered && s.pushing
  {
  }

  lemma SafeClose(s: State, which: nat, code: nat)
    requires Safe(s) && which < |s.inFlight|
    ensures Safe(AfterPush(s, which, code)) <==> RewindFits(s, PushClosed(which, code))
    ensures Safe(AfterPush(s, which, code)) <==> NeverEarly(AfterPush(s, which, code).pushed)
  {
    hide PushRemaining, Consecutive, NeverEarly, WithoutPush;
    OnlyPush(s, which);
    var alone := s.(inFlight := []);
    var c := Counted(alone, s.server + 1, code);
    CountedOn(alone, code);
    if c.server != c.avail {
      NextPush(c.(periodic := false, pushing := true));
    }
  }

  /** A step keeps a server safe exactly when a rewind fits; otherwise the step pushes a segment early. */
  lemma SafeStep(s: State, event: Event)
    requires Safe(s) && Enabled(s, event)
    ensures Safe(Step(s, event)) <==> RewindFits(s, event)
    ensures Safe(Step(s, event)) <==> NeverEarly(Step(s, event).pushed)
  {
    hide AfterTick, AfterPush;
    match event
    case Tick => SafeTick(s);
    case PushClosed(which, code) => SafeClose(s, which, code);
    case Requested(_) =>
    case Closed =>
  }

  ghost predicate Possible(client: int, events: seq<Event>) {
    events == [] ||
    var front := events[..|events| - 1];
    Possible(client, front) && Enabled(Run(client, front), events[|events| - 1])
  }

  function Run(client: int, events: seq<Event>): State {
    if events == [] then Connected(client)
    else
      var s := Run(client, events[..|events| - 1]);
      if Enabled(s, events[|events| - 1]) then Step(s, events[|events| - 1]) else s
  }

  ghost predicate SafeThroughout(client: int, events: seq<Event>) {
    forall n :: 0 <= n <= |events| ==> Safe(Run(client, events[..n]))
  }

  ghost predicate RewindsFit(client: int, events: seq<Event>) {
    forall n :: 0 <= n < |events| ==> RewindFits(Run(client, events[..n]), events[n])
  }

  lemma SafeOnceMore(client: int, front: seq<Event>, last: Event)
    ensures SafeThroughout(client, front + [last]) <==>
            SafeThroughout(client, front) && Safe(Run(client, front + [last]))
    ensures SafeThroughout(client, front) ==> Safe(Run(client, front))
  {
    hide Safe, Run;
    var events := front + [last];
    assert forall n :: 0 <= n <= |front| ==> events[..n] == front[..n];
    assert events[..|events|] == events && front[..|front|] == front;
  }

  lemma FitsOnceMore(client: int, front: seq<Event>, last: Event)
    ensures RewindsFit(client, front + [last]) <==>
            RewindsFit(client, front) && RewindFits(Run(client, front), last)
  {
    hide RewindFits, Run;
    var events := front + [last];
    assert forall n :: 0 <= n <= |front| ==> events[..n] == front[..n];
    assert front[..|front|] == front && events[|front|] == last;
    assert forall n :: 0 <= n < |front| ==> events[n] == front[n];
  }

  /** A run is safe throughout exactly when every rewind in it fits. */
  lemma {:induction false} SafeRun(client: int, events: seq<Event>)
    requires Possible(client, events)
    ensures SafeThroughout(client, events) <==> RewindsFit(client, events)
  {
    hide Safe, RewindFits, Step, Enabled;
    if events == [] {
      StartsSafe(client);
      assert events[..0] == [];
    } else {
      hide SafeThroughout, RewindsFit;
      var front, last := events[..|events| - 1], events[|events| - 1];
      assert events == front + [last];
      SafeRun(client, front);
      SafeOnceMore(client, front, last);
      FitsOnceMore(client, front, last);
      if Safe(Run(client, front)) {
        SafeStep(Run(client, front), last);
      }
    }
  }

  lemma StartsSafe(client: int)
    ensures Safe(Connected(client))
  {
  }

  /** A client that claims segment 5 while segment 1 is the newest, and cancels, is sent segment 6. */
  lemma EarlyExample()
    ensures var events := [Tick, Requested(5), PushClosed(0, CANCEL)];
      Possible(0, events) && Run(0, events).pushed == [Push(1, 1), Push(6, 1)] && !NeverEarly(Run(0, events).pushed)
  {
    var a, b, c := [Tick], [Tick, Requested(5)], [Tick, Requested(5), PushClosed(0, CANCEL)];
    assert a[..0] == [] && b[..1] == a && c[..2] == b;
    assert Run(0, a) == Step(Connected(0), Tick);
    assert Run(0, b) == Step(Run(0, a), Requested(5));
    assert Run(0, c) == Step(Run(0, b), PushClosed(0, CANCEL));
    assert Run(0, c).pushed[1] == Push(6, 1);
  }

  /** What the handlers of server_push.cpp update in place. */
  class Server {
    var availSeg: int
    var serverSeg: int
    var clientSeg: int
    var onPeriodicMode: bool
    var onPushingInPeriodicMode: bool
    var closed: bool

    // The response to the request for the file has been answered; pushes not closed yet.
    var answered: bool
    var inFlight: seq<int>

    ghost var pushed: seq<Push>
    ghost var base: int
    ghost var sent: seq<int>

    ghost function Contents(): State
      reads this
    {
      State(availSeg, serverSeg, clientSeg, onPeriodicMode, onPushingInPeriodicMode, closed, answered, inFlight,
            pushed, base, sent)
    }

    constructor (client: int)
      ensures Contents() == Connected(client) && Safe(Contents())
    {
      availSeg, serverSeg, clientSeg := 0, 0, client;
      onPeriodicMode, onPushingInPeriodicMode, closed, answered := true, false, false, false;
      inFlight, pushed, base, sent := [], [], 0, [];
    }

    method PushRemainingFiles()
      modifies this
      ensures Contents() == PushRemaining(old(Contents()))
    {
      if serverSeg + 1 >= MAX_SEGMENTS {
        answered := true;
        return;
      }
      inFlight := inFlight + [serverSeg + 1];
      pushed := pushed + [Push(serverSeg + 1, availSeg)];
      onPushingInPeriodicMode := true;
    }

    method PushFile()
      requires Safe(Contents())
      modifies this
      ensures Contents() == Step(old(Contents()), Tick) && Safe(Contents())
      ensures availSeg == if closed then old(availSeg) else old(availSeg) + 1
    {
      SafeStep(Contents(), Tick);
      if closed {
        return;
      }
      availSeg := availSeg + 1;
      if onPushingInPeriodicMode {
        return;
      }
      PushRemainingFiles();
    }

    method CountClosed(which: nat, errorCode: nat)
      requires which < |inFlight|
      modifies this
      ensures Contents() == Counted(WithoutPush(old(Contents()), which), old(inFlight[which]), errorCode)
      ensures serverSeg ==
        if errorCode == 0 then old(serverSeg) + 1 else if errorCode == 8 then old(clientSeg) else old(serverSeg)
      ensures inFlight == old(inFlight)[..which] + old(inFlight)[which + 1..] && availSeg == old(availSeg)
    {
      ghost var seg := inFlight[which];
      inFlight := inFlight[..which] + inFlight[which + 1..];
      if errorCode == 0 {
        serverSeg := serverSeg + 1;
        sent := sent + [seg];
      }
      if errorCode == CANCEL {
        serverSeg := clientSeg;
        base, sent := clientSeg, [];
      }
    }

    method OnClose(which: nat, errorCode: nat)
      requires Safe(Contents()) && which < |inFlight|
      modifies this
      ensures Contents() == Step(old(Contents()), PushClosed(which, errorCode))
      ensures serverSeg ==
        if errorCode == 0 then old(serverSeg) + 1 else if errorCode == 8 then old(clientSeg) else old(serverSeg)
      ensures inFlight == if serverSeg == availSeg || serverSeg + 1 >= 2001 then [] else [serverSeg + 1]
      ensures onPeriodicMode <==> serverSeg == availSeg
      ensures Safe(Contents()) <==>
        (errorCode == CANCEL ==> old(clientSeg) <= old(availSeg) || old(clientSeg) + 1 >= MAX_SEGMENTS)
    {
      OnlyPush(Contents(), which);
      hide Safe, Counted, WithoutPush;
      SafeClose(Contents(), which, errorCode);
      CountClosed(which, errorCode);
      if serverSeg == availSeg {
        onPeriodicMode := true;
        onPushingInPeriodicMode := false;
      } else {
        onPeriodicMode := false;
        onPushingInPeriodicMode := true;
        PushRemainingFiles();
      }
    }

    method OnRequest(seg: int)
      requires Safe(Contents())
      modifies `clientSeg
      ensures Contents() == Step(old(Contents()), Requested(seg)) && Safe(Contents())
    {
      clientSeg := seg;
    }

    method OnStreamClosed()
      requires Safe(Contents())
      modifies `closed
      ensures Contents() == Step(old(Contents()), Closed) && Safe(Contents())
    {
      closed := true;
    }
  }
}
