/** What becomes of a response's body, told from the calls alone. */
module ResponseRuns {
  import opened Wrappers
  import opened ResponseSpec

  // --- what the calls say ---

  // The place of the first end, or the number of calls.
  function FirstEnd(calls: seq<Call>): (i: nat)
    ensures i <= |calls| && (i < |calls| ==> calls[i].End?)
    ensures forall j :: 0 <= j < i ==> !calls[j].End?
  {
    if calls == [] || calls[0].End? then 0 else 1 + FirstEnd(calls[1..])
  }

  // The application has given a head and nothing holds it back.
  predicate HeadDue(pushed: bool, calls: seq<Call>) {
    FirstHead(calls).Some? && (pushed ==> Promised(calls))
  }

  // A head that was due says that there is no body: HEAD requests, and the statuses 1xx, 204 and 304.
  predicate Bodyless(method_: string, pushed: bool, calls: seq<Call>) {
    HeadDue(pushed, calls) && NoBodyFor(method_, FirstHead(calls).value.status)
  }

  predicate NoBodyFor(method_: string, status: int) {
    method_ == "HEAD" || 100 <= status <= 199 || status == 204 || status == 304
  }

  lemma ExpectsBodyIs(method_: string, status: int)
    ensures ExpectsBody(method_, status) <==> !NoBodyFor(method_, status)
  {
  }

  /** The body of the application: that of its first end, unless a head without body was due by then. */
  function Installed(method_: string, pushed: bool, calls: seq<Call>): Option<Generator> {
    var e := FirstEnd(calls);
    if e < |calls| && !Bodyless(method_, pushed, calls[..e]) then Some(calls[e].generator) else None
  }

  predicate Accepts(call: Call) {
    match call
    case WriteHead(_, accepted) => accepted
    case End(_, accepted) => accepted
    case PromiseSent(accepted) => accepted
    case Resume => false
    case Read => false
  }

  // The session's answer to the head: that of the call that made it due.
  function Submission(pushed: bool, calls: seq<Call>): Option<bool> {
    if calls == [] then None
    else
      var front := calls[..|calls| - 1];
      if HeadDue(pushed, front) then Submission(pushed, front)
      else if HeadDue(pushed, calls) then Some(Accepts(calls[|calls| - 1]))
      else None
  }

  // The session takes a body from the application.
  predicate Takes(method_: string, pushed: bool, calls: seq<Call>) {
    Submission(pushed, calls) == Some(true) && FirstHead(calls).Some? &&
    !NoBodyFor(method_, FirstHead(calls).value.status)
  }

  // The session has found nothing to read since it was last told to go on.
  function Waits(method_: string, pushed: bool, calls: seq<Call>): bool {
    if calls == [] then false
    else
      var front := calls[..|calls| - 1];
      match calls[|calls| - 1]
      case Read => Takes(method_, pushed, front) && Installed(method_, pushed, front) == None
      case Resume => false
      case End(_, _) => Waits(method_, pushed, front) && Installed(method_, pushed, calls) == None
      case WriteHead(_, _) => Waits(method_, pushed, front)
      case PromiseSent(_) => Waits(method_, pushed, front)
  }

  // --- one call more ---

  datatype Account = Account(
    first: Option<Head>, promised: bool, ended: bool, installed: Option<Generator>, submission: Option<bool>,
    waits: bool)

  function AccountOf(method_: string, pushed: bool, calls: seq<Call>): Account {
    Account(FirstHead(calls), Promised(calls), FirstEnd(calls) < |calls|, Installed(method_, pushed, calls),
            Submission(pushed, calls), Waits(method_, pushed, calls))
  }

  predicate Due(pushed: bool, a: Account) {
    a.first.Some? && (pushed ==> a.promised)
  }

  predicate Closed(method_: string, pushed: bool, a: Account) {
    Due(pushed, a) && NoBodyFor(method_, a.first.value.status)
  }

  function After(method_: string, pushed: bool, a: Account, call: Call): Account {
    var first := if a.first.Some? then a.first else FirstHead([call]);
    var promised := a.promised || call.PromiseSent?;
    var installed :=
      if a.ended || !call.End? || Closed(method_, pushed, a) then a.installed else Some(call.generator);
    var due := first.Some? && (pushed ==> promised);
    Account(first, promised, a.ended || call.End?, installed,
            if Due(pushed, a) then a.submission else if due then Some(Accepts(call)) else None,
            match call
            case Read =>
              a.submission == Some(true) && a.first.Some? && !NoBodyFor(method_, a.first.value.status) &&
              a.installed == None
            case Resume => false
            case End(_, _) => a.waits && installed == None
            case WriteHead(_, _) => a.waits
            case PromiseSent(_) => a.waits)
  }

  lemma {:induction false} FirstEndStep(front: seq<Call>, last: Call)
    ensures FirstEnd(front + [last]) ==
      if FirstEnd(front) < |front| then FirstEnd(front) else if last.End? then |front| else |front| + 1
  {
    if front == [] {
      assert front + [last] == [last];
    } else {
      assert (front + [last])[1..] == front[1..] + [last];
      FirstEndStep(front[1..], last);
    }
  }

  lemma AccountStep(method_: string, pushed: bool, front: seq<Call>, last: Call)
    ensures AccountOf(method_, pushed, front + [last]) ==
            After(method_, pushed, AccountOf(method_, pushed, front), last)
  {
    hide FirstHead, Promised, FirstEnd, NoBodyFor;
    var calls := front + [last];
    assert calls[..|front|] == front && calls[|front|] == last;
    FirstHeadExtends(front, last);
    PromisedExtends(front, last);
    FirstEndStep(front, last);
    if FirstEnd(front) < |front| {
      assert calls[..FirstEnd(front)] == front[..FirstEnd(front)];
      assert calls[FirstEnd(front)] == front[FirstEnd(front)];
    } else {
      assert front[..FirstEnd(front)] == front;
    }
  }

  // --- the state agrees with the account ---

  predicate Taken(method_: string, a: Account) {
    a.submission == Some(true) && a.first.Some? && !NoBodyFor(method_, a.first.value.status)
  }

  predicate Tells(r: Response, a: Account) {
    && Told(r, a.first, a.promised) && r.generator == a.installed
    && (r.phase == BodyStarted <==> a.ended || Closed(r.method_, r.pushed, a))
    && (a.submission.Some? <==> Due(r.pushed, a)) && (a.ended ==> a.first.Some?)
    && (a.installed.Some? ==> a.ended) && (a.ended && a.installed == None ==> Closed(r.method_, r.pushed, a))
    && r.body == (if !Taken(r.method_, a) then NoBody else if a.waits then Deferred else Reading)
    && (a.waits ==> a.installed == None && Taken(r.method_, a))
    && (r.reset <==> a.submission == Some(false))
  }

  lemma TellsStep(r: Response, a: Account, call: Call)
    requires Tells(r, a) && (!r.pushed ==> !call.PromiseSent?)
    ensures Tells(ResponseSpec.After(r, call), After(r.method_, r.pushed, a, call))
    ensures ResponseSpec.After(r, call).pushed == r.pushed && ResponseSpec.After(r, call).method_ == r.method_
  {
    ToldStep(r, a.first, a.promised, call);
    ExpectsBodyIs(r.method_, r.head.status);
    ExpectsBodyIs(r.method_, 200);
    match call
    case WriteHead(head, _) => ExpectsBodyIs(r.method_, head.status);
    case End(_, _) =>
    case PromiseSent(_) =>
    case Resume =>
    case Read =>
  }

  lemma TellsStart(method_: string, pushed: bool)
    ensures Tells(New(method_, pushed), AccountOf(method_, pushed, []))
  {
  }

  lemma {:induction false} RunTells(method_: string, pushed: bool, calls: seq<Call>)
    requires !pushed ==> !Promised(calls)
    ensures var r := Run(method_, pushed, calls);
      Tells(r, AccountOf(method_, pushed, calls)) && r.pushed == pushed && r.method_ == method_
  {
    hide ResponseSpec.After, Tells, AccountOf;
    if calls == [] {
      TellsStart(method_, pushed);
    } else {
      var n := |calls| - 1;
      var front, last := calls[..n], calls[n];
      assert calls == front + [last];
      PromisedExtends(front, last);
      RunTells(method_, pushed, front);
      AccountStep(method_, pushed, front, last);
      TellsStep(Run(method_, pushed, front), AccountOf(method_, pushed, front), last);
    }
  }

  /** What the session holds of a response: the body of the first end, unless a head without body was due before
      it; that body is read, and never waits, when the session took the head and the head has a body; without
      it the session waits from a read to the next resume; the stream is reset exactly when the head was
      refused. */
  ghost predicate Held(r: Response, calls: seq<Call>) {
    && r.generator == Installed(r.method_, r.pushed, calls)
    && r.body == (if !Takes(r.method_, r.pushed, calls) then NoBody
                  else if Waits(r.method_, r.pushed, calls) then Deferred else Reading)
    && (Takes(r.method_, r.pushed, calls) && r.generator.Some? ==> r.body == Reading)
    && (r.reset <==> Submission(r.pushed, calls) == Some(false))
  }

  lemma BodyHeld(method_: string, pushed: bool, calls: seq<Call>)
    requires !pushed ==> !Promised(calls)
    ensures Held(Run(method_, pushed, calls), calls)
  {
    hide Run, Told, Installed, Submission, Waits, FirstHead, Promised;
    RunTells(method_, pushed, calls);
  }

  /** An accepted head and an end: the body that came with the end is read. */
  lemma EndExample(h: Head)
    requires h.status == 200
    ensures var r := Run("GET", false, [Call.WriteHead(h, true), Call.End(7, true)]);
      r.generator == Some(7) && r.body == Reading && r.submitted == [h]
  {
    var a, b := [Call.WriteHead(h, true)], [Call.WriteHead(h, true), Call.End(7, true)];
    assert a[..0] == [] && b[..1] == a;
    assert Run("GET", false, a) == ResponseSpec.After(New("GET", false), a[0]);
    assert Run("GET", false, b) == ResponseSpec.After(Run("GET", false, a), b[1]);
  }
}
