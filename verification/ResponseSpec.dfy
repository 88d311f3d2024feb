/** What a server response has told its HTTP/2 session, for every order of calls (asio_server_response_impl.cc). */
module ResponseSpec {
  import opened Wrappers

  datatype Phase = Initial | HeaderDone | BodyStarted

  type Headers = map<string, string>

  // A body source of the application, told apart by a number.
  type Generator = nat

  datatype Head = Head(status: int, headers: Headers)

  // What the session does about the body: nothing, read it, or wait until it is resumed.
  datatype Body = NoBody | Reading | Deferred

  // submitted lists every head handed to the session; without a generator the deferring one is in place. A
  // refused submission resets the stream.
  datatype Response = Response(
    method_: string, pushed: bool, phase: Phase, promiseSent: bool, head: Head, generator: Option<Generator>,
    submitted: seq<Head>, body: Body, reset: bool)

  function New(method_: string, pushed: bool): Response {
    Response(method_, pushed, Initial, false, Head(200, map[]), None, [], NoBody, false)
  }

  // Application calls, the promise going out, and the session reading the body. A submission can be refused.
  datatype Call =
    | WriteHead(head: Head, accepted: bool)
    | End(generator: Generator, accepted: bool)
    | PromiseSent(accepted: bool)
    | Resume
    | Read

  // C++ division truncates.
  function StatusClass(status: int): int {
    if status >= 0 then status / 100 else -((-status) / 100)
  }

  predicate ExpectsBody(method_: string, status: int) {
    method_ != "HEAD" && StatusClass(status) != 1 && status != 304 && status != 204
  }

  function StartResponse(r: Response, accepted: bool): Response {
    var expects := ExpectsBody(r.method_, r.head.status);
    r.(phase := if expects then r.phase else BodyStarted,
       submitted := r.submitted + [r.head],
       body := if accepted && expects then Reading else r.body,
       reset := r.reset || !accepted)
  }

  function AfterHead(r: Response, head: Head, accepted: bool): Response {
    if r.phase != Initial then r
    else
      var done := r.(head := head, phase := HeaderDone);
      if done.pushed && !done.promiseSent then done else StartResponse(done, accepted)
  }

  function Resumed(r: Response): Response {
    if r.body == Deferred then r.(body := Reading) else r
  }

  function AfterEnd(r: Response, generator: Generator, accepted: bool): Response {
    if r.phase == BodyStarted then r
    else
      var set_ := r.(generator := Some(generator));
      var started :=
        if r.phase == Initial then AfterHead(set_, Head(r.head.status, map[]), accepted) else Resumed(set_);
      started.(phase := BodyStarted)
  }

  function AfterPromise(r: Response, accepted: bool): Response {
    if r.promiseSent then r
    else
      var sent := r.(promiseSent := true);
      if sent.phase == Initial then sent else StartResponse(sent, accepted)
  }

  function AfterRead(r: Response): Response {
    if r.body == Reading && r.generator == None then r.(body := Deferred) else r
  }

  function After(r: Response, call: Call): Response {
    match call
    case WriteHead(head, accepted) => AfterHead(r, head, accepted)
    case End(generator, accepted) => AfterEnd(r, generator, accepted)
    case PromiseSent(accepted) => AfterPromise(r, accepted)
    case Resume => Resumed(r)
    case Read => AfterRead(r)
  }

  function Run(method_: string, pushed: bool, calls: seq<Call>): Response {
    if calls == [] then New(method_, pushed)
    else After(Run(method_, pushed, calls[..|calls| - 1]), calls[|calls| - 1])
  }

  // --- what the calls say, without the state machine ---

  // The head the application gave first; an end without one stands for status 200.
  function FirstHead(calls: seq<Call>): Option<Head> {
    if calls == [] then None
    else if calls[0].WriteHead? then Some(calls[0].head)
    else if calls[0].End? then Some(Head(200, map[]))
    else FirstHead(calls[1..])
  }

  predicate Promised(calls: seq<Call>) {
    exists i :: 0 <= i < |calls| && calls[i].PromiseSent?
  }

  lemma {:induction false} FirstHeadExtends(calls: seq<Call>, call: Call)
    ensures FirstHead(calls + [call]) == if FirstHead(calls).Some? then FirstHead(calls) else FirstHead([call])
  {
    if calls != [] {
      assert (calls + [call])[1..] == calls[1..] + [call];
      FirstHeadExtends(calls[1..], call);
    } else {
      assert calls + [call] == [call];
    }
  }

  lemma PromisedExtends(calls: seq<Call>, call: Call)
    ensures Promised(calls + [call]) <==> Promised(calls) || call.PromiseSent?
  {
    var both := calls + [call];
    if Promised(calls) {
      var i :| 0 <= i < |calls| && calls[i].PromiseSent?;
      assert both[i].PromiseSent?;
    }
    if call.PromiseSent? {
      assert both[|calls|].PromiseSent?;
    }
  }

  // --- the protocol ---

  // Given the first head, if any, and whether the promise is out, what was submitted and what is still to come.
  predicate Told(r: Response, first: Option<Head>, promised: bool) {
    && r.submitted == (if first.Some? && (r.pushed ==> promised) then [first.value] else [])
    && (r.phase != Initial <==> first.Some?) && (r.promiseSent <==> promised)
    && (r.phase != Initial ==> r.head == first.value) && (r.phase == Initial ==> r.head.status == 200)
  }

  lemma ToldStep(r: Response, first: Option<Head>, promised: bool, call: Call)
    requires Told(r, first, promised) && (!r.pushed ==> !call.PromiseSent?)
    ensures Told(After(r, call), if first.Some? then first else FirstHead([call]), promised || call.PromiseSent?)
    ensures After(r, call).pushed == r.pushed
  {
    hide ExpectsBody;
  }

  /** For every order of calls a head is submitted exactly once when the application has given one and, on a
      pushed stream, the promise has been sent, and never otherwise; it is the head given first. */
  lemma {:induction false} HeadersOnce(method_: string, pushed: bool, calls: seq<Call>)
    requires !pushed ==> !Promised(calls)
    ensures var r := Run(method_, pushed, calls);
      Told(r, FirstHead(calls), Promised(calls)) && r.pushed == pushed
  {
    hide After, Told;
    if calls == [] {
      NothingTold(method_, pushed);
    } else {
      var n := |calls| - 1;
      var front, last := calls[..n], calls[n];
      assert calls == front + [last];
      FirstHeadExtends(front, last);
      PromisedExtends(front, last);
      HeadersOnce(method_, pushed, front);
      ToldStep(Run(method_, pushed, front), FirstHead(front), Promised(front), last);
    }
  }

  lemma NothingTold(method_: string, pushed: bool)
    ensures Told(New(method_, pushed), None, false)
  {
  }

  function Rank(phase: Phase): int {
    match phase
    case Initial => 0
    case HeaderDone => 1
    case BodyStarted => 2
  }

  /** No call ever moves the phase back. */
  lemma PhaseMonotone(r: Response, call: Call)
    ensures Rank(r.phase) <= Rank(After(r, call).phase)
  {
  }

  // No generator waits for a resume, and only what was submitted and expects a body is read.
  predicate Attached(r: Response) {
    && (r.generator.Some? ==> r.phase == BodyStarted && r.body != Deferred)
    && (r.body != NoBody ==> r.submitted != [] && ExpectsBody(r.method_, r.head.status))
    && (r.phase == Initial ==> r.submitted == [] && r.body == NoBody)
  }

  lemma AttachedStep(r: Response, call: Call)
    requires Attached(r)
    ensures Attached(After(r, call))
    ensures r.generator.Some? ==> After(r, call).generator == r.generator
  {
    hide ExpectsBody;
  }

  /** In every run a generator is installed at most once and stays, no stream with a generator waits for a
      resume, and the session reads only what was submitted and expects a body. */
  lemma {:induction false} GeneratorOnce(method_: string, pushed: bool, calls: seq<Call>)
    ensures Attached(Run(method_, pushed, calls))
    ensures forall n :: 0 <= n <= |calls| && Run(method_, pushed, calls[..n]).generator.Some? ==>
      Run(method_, pushed, calls).generator == Run(method_, pushed, calls[..n]).generator
  {
    hide After, Attached;
    if calls == [] {
      NothingAttached(method_, pushed);
    } else {
      var front := calls[..|calls| - 1];
      GeneratorOnce(method_, pushed, front);
      AttachedStep(Run(method_, pushed, front), calls[|calls| - 1]);
      forall n | 0 <= n <= |calls| && Run(method_, pushed, calls[..n]).generator.Some?
        ensures Run(method_, pushed, calls).generator == Run(method_, pushed, calls[..n]).generator
      {
        if n < |calls| {
          assert calls[..n] == front[..n];
        } else {
          assert calls[..n] == calls;
        }
      }
    }
  }

  lemma NothingAttached(method_: string, pushed: bool)
    ensures Attached(New(method_, pushed)) && New(method_, pushed).generator == None
  {
  }

  /** The promise of a stream that was not pushed would submit its head again: exactly when it comes, for the
      first time, after the head. */
  lemma StrayPromise(method_: string, calls: seq<Call>, accepted: bool)
    requires !Promised(calls)
    ensures |Run(method_, false, calls + [PromiseSent(accepted)]).submitted| > 1 <==> FirstHead(calls).Some?
  {
    HeadersOnce(method_, false, calls);
    assert (calls + [PromiseSent(accepted)])[..|calls|] == calls;
  }
}
