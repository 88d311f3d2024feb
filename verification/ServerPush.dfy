/** Responses and their streams on an HTTP/2 server connection: asio_server_response_impl.cc and
    asio_server_http2_handler.cc. */
module ServerPush {
  import opened Wrappers
  import opened ResponseSpec
  import ResponseRuns

  class ResponseImpl {
    const method_: string
    var pushed: bool
    var state: Phase
    var pushPromiseSent: bool
    var statusCode: int
    var header: Headers
    var generatorCb: Option<Generator>

    // What the session holds for the stream.
    var submitted: seq<Head>
    var body: Body
    var reset: bool

    // The calls so far.
    ghost var calls: seq<Call>

    ghost function Contents(): Response
      reads this
    {
      Response(method_, pushed, state, pushPromiseSent, Head(statusCode, header), generatorCb, submitted, body, reset)
    }

    ghost predicate Valid()
      reads this
    {
      Contents() == Run(method_, pushed, calls)
    }

    constructor (method_: string)
      ensures Valid() && calls == [] && !pushed && this.method_ == method_
    {
      this.method_ := method_;
      pushed, state, pushPromiseSent, statusCode, header, generatorCb := false, Initial, false, 200, map[], None;
      submitted, body, reset, calls := [], NoBody, false, [];
    }

    // pushed(true), on a response that has just been created.
    method SetPushed()
      requires Valid() && calls == []
      modifies this
      ensures Valid() && calls == [] && pushed
    {
      pushed := true;
    }

    method StartResponse(accepted: bool)
      modifies this
      ensures Contents() == ResponseSpec.StartResponse(old(Contents()), accepted) && calls == old(calls) &&
        pushed == old(pushed) && generatorCb == old(generatorCb)
    {
      if !ExpectsBody(method_, statusCode) {
        state := BodyStarted;
      }
      submitted := submitted + [Head(statusCode, header)];
      if accepted && ExpectsBody(method_, statusCode) {
        body := Reading;
      }
      if !accepted {
        reset := true;
      }
    }

    method SetHead(status: int, h: Headers, accepted: bool)
      modifies this
      ensures Contents() == AfterHead(old(Contents()), Head(status, h), accepted) && calls == old(calls) &&
        pushed == old(pushed) && generatorCb == old(generatorCb)
    {
      hide ExpectsBody;
      if state != Initial {
        return;
      }
      statusCode := status;
      header := h;
      state := HeaderDone;
      if pushed && !pushPromiseSent {
        return;
      }
      StartResponse(accepted);
    }

    method ResumeBody()
      modifies this
      ensures Contents() == Resumed(old(Contents())) && calls == old(calls) && pushed == old(pushed) &&
        generatorCb == old(generatorCb)
    {
      if body == Deferred {
        body := Reading;
      }
    }

    method WriteHead(status: int, h: Headers, accepted: bool)
      requires Valid()
      modifies this
      ensures Valid() && calls == old(calls) + [Call.WriteHead(Head(status, h), accepted)] && pushed == old(pushed)
    {
      SetHead(status, h, accepted);
      Record(Call.WriteHead(Head(status, h), accepted));
    }

    method End(cb: Generator, accepted: bool)
      requires Valid()
      modifies this
      ensures Valid() && calls == old(calls) + [Call.End(cb, accepted)] && pushed == old(pushed)
      ensures state == BodyStarted && generatorCb == if old(state) == BodyStarted then old(generatorCb) else Some(cb)
    {
      hide AfterHead, Resumed, Run;
      ghost var before := Contents();
      if state != BodyStarted {
        generatorCb := Some(cb);
        if state == Initial {
          SetHead(statusCode, map[], accepted);
        } else {
          ResumeBody();
        }
        state := BodyStarted;
      }
      assert Contents() == AfterEnd(before, cb, accepted);
      Record(Call.End(cb, accepted));
    }

    method Promise(accepted: bool)
      requires Valid()
      modifies this
      ensures Valid() && calls == old(calls) + [PromiseSent(accepted)] && pushed == old(pushed)
    {
      hide Run;
      ghost var before := Contents();
      if !pushPromiseSent {
        pushPromiseSent := true;
        if state != Initial {
          StartResponse(accepted);
        }
      }
      assert Contents() == AfterPromise(before, accepted);
      Record(PromiseSent(accepted));
    }

    method Resume()
      requires Valid()
      modifies this
      ensures Valid() && calls == old(calls) + [Call.Resume] && pushed == old(pushed)
    {
      ResumeBody();
      Record(Call.Resume);
    }

    // The session reads the body: the deferring generator makes it wait.
    method Read()
      requires Valid()
      modifies this
      ensures Valid() && calls == old(calls) + [Call.Read] && pushed == old(pushed)
    {
      if body == Reading && generatorCb == None {
        body := Deferred;
      }
      Record(Call.Read);
    }

    // Any call but the session's report of a promise.
    method Accept(call: Call)
      requires Valid() && !call.PromiseSent?
      modifies this
      ensures Valid() && calls == old(calls) + [call] && pushed == old(pushed)
    {
      match call
      case WriteHead(head, accepted) => WriteHead(head.status, head.headers, accepted);
      case End(generator, accepted) => End(generator, accepted);
      case Resume => Resume();
      case Read => Read();
    }

    ghost method Record(call: Call)
      requires Contents() == After(Run(method_, pushed, calls), call)
      modifies `calls
      ensures Valid() && calls == old(calls) + [call] && pushed == old(pushed)
    {
      hide After;
      calls := calls + [call];
      assert calls[..|calls| - 1] == old(calls);
    }
  }

  /** The streams of a connection. The ids given by the session are new, and it sends promises only for ids it
      returned when they were submitted (section 5.1.1 and section 8.2 of RFC 7540). */
  class Handler {
    var streams: map<int, ResponseImpl>

    // Every id used so far, and those of pushed streams among them.
    ghost var ids: set<int>
    ghost var promised: set<int>

    ghost predicate Open(id: int)
      requires id in streams
      reads this, streams[id]
    {
      var r := streams[id];
      r.Valid() && (r.pushed <==> id in promised) && (!r.pushed ==> !Promised(r.calls))
    }

    ghost predicate Valid()
      reads this, set id | id in streams :: streams[id]
    {
      && (forall id :: id in streams ==> id in ids && Open(id))
      && (forall a, b :: a in streams && b in streams && a != b ==> streams[a] != streams[b])
    }

    constructor ()
      ensures Valid() && streams == map[] && ids == {}
    {
      streams, ids, promised := map[], {}, {};
    }

    method CreateStream(id: int, method_: string) returns (r: ResponseImpl)
      requires Valid() && id !in ids
      modifies `streams, `ids, `promised
      ensures Valid() && fresh(r) && streams == old(streams)[id := r] && r.calls == [] && !r.pushed
      ensures ids == old(ids) + {id} && promised == old(promised) - {id} && r.method_ == method_
    {
      r := new ResponseImpl(method_);
      streams := streams[id := r];
      ids := ids + {id};
      promised := promised - {id};
      PromisedNothing();
    }

    lemma PromisedNothing()
      ensures !Promised([])
    {
    }

    function FindStream(id: int): (r: Option<ResponseImpl>)
      reads this
      ensures r.Some? <==> id in streams
      ensures r.Some? ==> r.value == streams[id]
    {
      if id in streams then Some(streams[id]) else None
    }

    method CloseStream(id: int)
      requires Valid()
      modifies `streams
      ensures Valid() && streams == old(streams) - {id}
    {
      streams := streams - {id};
    }

    /** A push: when the session accepts the promise under a new id, a pushed stream with an untouched response
        is opened for it; when it refuses, nothing changes. */
    method PushPromise(method_: string, rv: int) returns (r: Option<ResponseImpl>)
      requires Valid() && (rv >= 0 ==> rv !in ids)
      modifies `streams, `ids, `promised
      ensures Valid() && (rv < 0 <==> r == None)
      ensures rv < 0 ==> streams == old(streams) && ids == old(ids) && promised == old(promised)
      ensures rv >= 0 ==>
        && fresh(r.value) && streams == old(streams)[rv := r.value] && ids == old(ids) + {rv}
        && r.value.pushed && r.value.calls == [] && promised == old(promised) + {rv} && r.value.method_ == method_
    {
      if rv < 0 {
        return None;
      }
      var s := CreateStream(rv, method_);
      s.SetPushed();
      promised := promised + {rv};
      return Some(s);
    }

    // A frame went out: only promises matter, and only for streams that are still open.
    method OnFrameSend(isPushPromise: bool, promisedId: int, accepted: bool)
      requires Valid() && (isPushPromise ==> promisedId in promised)
      modifies if promisedId in streams then {streams[promisedId]} else {}
      ensures Valid()
      ensures promisedId in streams ==>
        streams[promisedId].calls ==
          old(streams[promisedId].calls) + (if isPushPromise then [PromiseSent(accepted)] else [])
    {
      if !isPushPromise {
        return;
      }
      var found := FindStream(promisedId);
      if found == None {
        return;
      }
      found.value.Promise(accepted);
    }

    /** The application or the session calls on the response of an open stream. */
    method OnCall(id: int, call: Call)
      requires Valid() && id in streams && !call.PromiseSent?
      modifies streams[id]
      ensures Valid() && streams[id].calls == old(streams[id].calls) + [call]
    {
      hide Promised, ResponseImpl.Valid;
      var r := streams[id];
      PromisedExtends(r.calls, call);
      r.Accept(call);
    }

    /** On every open stream, whatever was called in whatever order: the head the application gave first has
        been submitted, once, exactly when it was given and, on a pushed stream, the promise has been sent; the
        body of the application is in place, and read, as its calls say. */
    lemma HeadsSubmitted(id: int)
      requires Valid() && id in streams
      ensures Told(streams[id].Contents(), FirstHead(streams[id].calls), Promised(streams[id].calls))
      ensures ResponseRuns.Held(streams[id].Contents(), streams[id].calls)
    {
      hide ResponseRuns.Held;
      var r := streams[id];
      assert Open(id);
      HeadersOnce(r.method_, r.pushed, r.calls);
      ResponseRuns.BodyHeld(r.method_, r.pushed, r.calls);
    }
  }
}
