/**
  The asynchronous command manager: the single-threaded bookkeeping of its
  event loop.

  Callers put requests on the request queue and signal the wake channel.
  The loop transmits the oldest request and moves it to the response
  queue, stamped with the send time; when the robot answers, the loop
  decodes one frame, finds the oldest in-flight request that owns it and
  re-queues every older one; when nothing is ready before the deadline,
  it re-queues the requests that have waited too long.

  The clock is a parameter (`now`), and which sources `select` reports as
  ready is a parameter of the loop step.
 */
module Comm {
  import opened Wrappers
  import opened Frames
  import opened Transport
  import opened Request
  import opened Wake
  import opened Queues

  /** The exceptions that end the loop thread. */
  datatype Failure =
    | CorrelationError            // a frame that no in-flight request owns
    | UnknownMarker(marker: string) // a wake-channel message without a handler (KeyError)
    | BadFrame(error: FrameError)  // a text line that does not parse

  datatype Outcome =
    | Done              // the operation completed
    | Waiting           // a read waits for bytes that have not arrived
    | Stopped           // the loop has ended: `running` was already false
    | Raised(failure: Failure)

  class AsyncComm {
    const connection: Connection
    /** Requests that have waited longer than this are sent again. */
    const timeout: real

    /** Requests waiting to be transmitted, oldest first. */
    var requestQueue: seq<RequestHandler>
    /** Requests in flight with their send times, oldest first. */
    var responseQueue: seq<Entry>
    /** Markers written to the wake channel and not yet read. */
    var interrupts: seq<string>
    var running: bool

    /**
      The response queue is in send-time order; every request waiting on
      the request queue has its own new-work marker in the wake channel;
      and no request is outstanding twice.
     */
    ghost predicate Valid()
      reads this
    {
      SentInOrder(responseQueue) &&
      |requestQueue| == CountNew(interrupts) &&
      Exclusive(Pending())
    }

    /** Every outstanding request: first those waiting, then those in flight. */
    function Pending(): seq<RequestHandler>
      reads this
    {
      requestQueue + Requests(responseQueue)
    }

    /** The handlers whose response the loop may set. */
    ghost function InFlight(): set<RequestHandler>
      reads this
    {
      set e | e in responseQueue :: e.req
    }

    /** `now` is no earlier than any send time recorded so far. */
    ghost predicate ClockAtLeast(now: real)
      reads this
    {
      SentBy(responseQueue, now)
    }

    constructor (connection: Connection, timeout: real)
      ensures Valid()
      ensures this.connection == connection && this.timeout == timeout
      ensures requestQueue == [] && responseQueue == [] && interrupts == [] && !running
    {
      this.connection := connection;
      this.timeout := timeout;
      requestQueue := [];
      responseQueue := [];
      interrupts := [];
      running := false;
    }

    /** `start`: the loop will run; launching its thread is not modelled. */
    method Start()
      modifies this`running
      ensures running
    {
      running := true;
    }

    /** `stop`: asks the loop to end. */
    method Stop()
      requires Valid()
      modifies this`interrupts
      ensures Valid()
      ensures interrupts == old(interrupts) + [StopMarker]
    {
      interrupts := interrupts + [StopMarker];
      CountNewAppend(old(interrupts), [StopMarker]);
    }

    /** `_stop_main_loop`. */
    method StopMainLoop()
      modifies this`running
      ensures !running
    {
      running := false;
    }

    /** `send_command`: a fresh handler, queued for transmission. */
    method SendCommand(command: seq<byte>, timestamp: int, code: byte) returns (h: RequestHandler)
      requires Valid()
      modifies this`requestQueue, this`interrupts
      ensures Valid() && fresh(h)
      ensures h.command == command && h.timestamp == timestamp && h.responseCode == code
      ensures !h.ResponseReceived()
      ensures requestQueue == old(requestQueue) + [h]
      ensures interrupts == old(interrupts) + [NewMarker]
    {
      h := new RequestHandler(command, code, timestamp);
      assert h !in old(Pending());
      EnqueueRequest(h);
      assert Pending() == old(requestQueue) + [h] + Requests(responseQueue);
      MultisetMiddle(old(requestQueue), h, Requests(responseQueue));
      assert multiset(Pending()) == old(multiset(Pending())) + multiset{h};
      forall g | g in Pending()
        ensures multiset(Pending())[g] <= 1
      {
        if g != h {
          assert g in old(multiset(Pending()));
        }
      }
    }

    /** `_enqueue_request`: the request joins the tail of the queue and the loop is woken. */
    method EnqueueRequest(h: RequestHandler)
      modifies this`requestQueue, this`interrupts
      ensures requestQueue == old(requestQueue) + [h]
      ensures interrupts == old(interrupts) + [NewMarker]
      ensures CountNew(interrupts) == old(CountNew(interrupts)) + 1
      ensures responseQueue == old(responseQueue)
    {
      requestQueue := requestQueue + [h];
      interrupts := interrupts + [NewMarker];
      CountNewAppend(old(interrupts), [NewMarker]);
    }

    /**
      `_write_request`: takes the head of the request queue, transmits its
      command and puts it in flight at time `now`. The source's `get()`
      would wait on an empty queue; Valid() shows that a new-work marker
      always has its request.
     */
    method WriteRequest(now: real)
      requires |requestQueue| > 0
      requires ClockAtLeast(now)
      modifies this`requestQueue, this`responseQueue, connection
      ensures requestQueue == old(requestQueue[1..])
      ensures responseQueue == old(responseQueue) + [Entry(now, old(requestQueue[0]))]
      ensures connection.written == old(connection.written) + [old(requestQueue[0]).command]
      ensures connection.inbound == old(connection.inbound)
      ensures multiset(Pending()) == old(multiset(Pending()))
      ensures old(SentInOrder(responseQueue)) ==> SentInOrder(responseQueue)
    {
      var request := requestQueue[0];
      requestQueue := requestQueue[1..];
      connection.Write(request.GetCommand());
      responseQueue := responseQueue + [Entry(now, request)];
      RequestsAppend(old(responseQueue), Entry(now, request));
      assert old(requestQueue) == [request] + requestQueue;
      assert Pending() == requestQueue + Requests(old(responseQueue)) + [request];
    }

    /**
      What looking up the owner of (code, ts) leaves, when `rq`, `w` and
      `es` were the request queue, the wake channel and the response queue
      before: every entry older than the owner is re-queued, in order and
      with its marker, and the owner is returned and leaves the response
      queue; with no owner, every entry has been re-queued.
     */
    ghost predicate Retrieved(rq: seq<RequestHandler>, w: seq<string>, es: seq<Entry>,
                              code: byte, ts: int, found: Option<RequestHandler>)
      reads this
    {
      var k := FirstMatch(es, code, ts);
      requestQueue == rq + Requests(es[..k]) &&
      interrupts == w + NewMarkers(k) &&
      (k < |es| ==> found == Some(es[k].req) && responseQueue == es[k + 1..]) &&
      (k == |es| ==> found == None && responseQueue == [])
    }

    /**
      `_get_request`: pops in-flight entries oldest first. The first that
      owns (code, ts) is returned; each one before it is re-queued for
      transmission, in order. When none owns the frame, all of them have
      been re-queued and None stands for the error the source raises.
     */
    method GetRequest(code: byte, ts: int) returns (found: Option<RequestHandler>)
      requires Valid()
      modifies this`requestQueue, this`responseQueue, this`interrupts
      ensures Valid()
      ensures Retrieved(old(requestQueue), old(interrupts), old(responseQueue), code, ts, found)
      ensures found.Some? ==> found.value.OwnResponse(code, ts)
      ensures found.Some? ==> multiset(Pending()) + multiset{found.value} == old(multiset(Pending()))
      ensures found.None? ==> Pending() == old(Pending())
    {
      ghost var es := responseQueue;
      ghost var i := 0;
      while |responseQueue| > 0
        invariant i <= |es|
        invariant responseQueue == es[i..]
        invariant requestQueue == old(requestQueue) + Requests(es[..i])
        invariant interrupts == old(interrupts) + NewMarkers(i)
        invariant forall j :: 0 <= j < i ==> !es[j].req.OwnResponse(code, ts)
        decreases |responseQueue|
      {
        var first := responseQueue[0];
        responseQueue := responseQueue[1..];
        if first.req.OwnResponse(code, ts) {
          found := Some(first.req);
          FoundOwner(old(requestQueue), old(interrupts), es, i, code, ts);
          return;
        }
        EnqueueRequest(first.req);
        assert es[..i + 1] == es[..i] + [first];
        RequestsAppend(es[..i], first);
        i := i + 1;
      }
      found := None;
      NoOwner(old(requestQueue), old(interrupts), es, i, code, ts);
    }

    /**
      The state when the scan of `_get_request` stops at the owner, entry
      `k`: the invariant holds, the lookup is complete, and only the owner
      has left the outstanding requests.
     */
    lemma FoundOwner(rq: seq<RequestHandler>, w: seq<string>, es: seq<Entry>, k: nat, code: byte, ts: int)
      requires k < |es|
      requires SentInOrder(es) && |rq| == CountNew(w) && Exclusive(rq + Requests(es))
      requires forall j :: 0 <= j < k ==> !es[j].req.OwnResponse(code, ts)
      requires es[k].req.OwnResponse(code, ts)
      requires requestQueue == rq + Requests(es[..k])
      requires interrupts == w + NewMarkers(k)
      requires responseQueue == es[k + 1..]
      ensures Valid() && Retrieved(rq, w, es, code, ts, Some(es[k].req))
      ensures multiset(Pending()) + multiset{es[k].req} == multiset(rq + Requests(es))
    {
      FirstMatchAt(es, k, code, ts);
      KeepsValidMatched(rq, w, es, k);
    }

    /**
      The invariant after the `k` oldest in-flight entries were re-queued,
      with their markers, and the match at `k` was taken out.
     */
    lemma KeepsValidMatched(rq: seq<RequestHandler>, w: seq<string>, es: seq<Entry>, k: nat)
      requires k < |es|
      requires SentInOrder(es) && |rq| == CountNew(w) && Exclusive(rq + Requests(es))
      requires requestQueue == rq + Requests(es[..k])
      requires interrupts == w + NewMarkers(k)
      requires responseQueue == es[k + 1..]
      ensures Valid()
      ensures multiset(Pending()) + multiset{es[k].req} == multiset(rq + Requests(es))
    {
      SuffixInOrder(es, k + 1);
      CountAfterNewMarkers(w, k);
      MatchRemovesOnlyMatched(rq, es, k);
      assert multiset(Pending()) <= multiset(rq + Requests(es));
      ExclusiveShrinks(Pending(), rq + Requests(es));
    }

    /**
      The state when the scan of `_get_request` runs the response queue
      empty without an owner: the invariant holds, the lookup is complete,
      and the outstanding requests are as they were.
     */
    lemma NoOwner(rq: seq<RequestHandler>, w: seq<string>, es: seq<Entry>, k: nat, code: byte, ts: int)
      requires k == |es|
      requires SentInOrder(es) && |rq| == CountNew(w) && Exclusive(rq + Requests(es))
      requires forall j :: 0 <= j < k ==> !es[j].req.OwnResponse(code, ts)
      requires requestQueue == rq + Requests(es[..k])
      requires interrupts == w + NewMarkers(k)
      requires responseQueue == []
      ensures Valid() && Retrieved(rq, w, es, code, ts, None)
      ensures Pending() == rq + Requests(es)
    {
      assert FirstMatch(es, code, ts) == k;
      assert es[..k] == es && es[k..] == [];
      KeepsValidMoved(rq, w, es, k);
    }

    /**
      The invariant after the `k` oldest in-flight entries were re-queued,
      with their markers, and the queue resumes at entry `k`.
     */
    lemma KeepsValidMoved(rq: seq<RequestHandler>, w: seq<string>, es: seq<Entry>, k: nat)
      requires k <= |es|
      requires SentInOrder(es) && |rq| == CountNew(w) && Exclusive(rq + Requests(es))
      requires requestQueue == rq + Requests(es[..k])
      requires interrupts == w + NewMarkers(k)
      requires responseQueue == es[k..]
      ensures Valid()
      ensures Pending() == rq + Requests(es)
    {
      SuffixInOrder(es, k);
      CountAfterNewMarkers(w, k);
      MovePrefixKeepsPending(rq, es, k);
    }

    /**
      What handing the frame (code, ts, payload) to the owner leaves, when
      `rq`, `w` and `es` were the request queue, the wake channel and the
      response queue before: every entry older than the owner is re-queued
      with its marker, the owner gets the payload and leaves the response
      queue; with no owner, every entry is re-queued and the correlation
      error is raised.
     */
    ghost predicate Delivered(rq: seq<RequestHandler>, w: seq<string>, es: seq<Entry>,
                              code: byte, ts: int, payload: seq<byte>, outcome: Outcome)
      reads this, set e | e in es :: e.req
    {
      var k := FirstMatch(es, code, ts);
      requestQueue == rq + Requests(es[..k]) &&
      interrupts == w + NewMarkers(k) &&
      (k < |es| ==> outcome == Done && responseQueue == es[k + 1..] &&
                    es[k].req.response == Some(payload)) &&
      (k == |es| ==> outcome == Raised(CorrelationError) && responseQueue == [])
    }

    /**
      Every handler in flight in `es` other than the one at position `k`
      (none, when `k == |es|`) still holds the response it held before.
     */
    twostate predicate OthersKeepResponses(es: seq<Entry>, k: nat)
      reads set e | e in es :: e.req
    {
      forall j :: 0 <= j < |es| && (k >= |es| || es[j].req != es[k].req) ==>
        es[j].req.response == old(es[j].req.response)
    }

    /** `_save_response`: `set_response` on the request that owns the frame. */
    method SaveResponse(code: byte, ts: int, payload: seq<byte>) returns (outcome: Outcome)
      requires Valid()
      modifies this`requestQueue, this`responseQueue, this`interrupts, InFlight()
      ensures Valid()
      ensures Delivered(old(requestQueue), old(interrupts), old(responseQueue), code, ts, payload, outcome)
      ensures OthersKeepResponses(old(responseQueue), FirstMatch(old(responseQueue), code, ts))
      ensures |responseQueue| <= |old(responseQueue)| &&
        responseQueue == old(responseQueue)[|old(responseQueue)| - |responseQueue|..]
      ensures old(interrupts) <= interrupts
    {
      ghost var es := responseQueue;
      var found := GetRequest(code, ts);
      ghost var k := FirstMatch(es, code, ts);
      assert old(interrupts) <= interrupts;
      if found.None? {
        outcome := Raised(CorrelationError);
        assert responseQueue == es[|es|..];
      } else {
        assert found.value == es[k].req && es[k] in es;
        found.value.SetResponse(payload);
        outcome := Done;
        assert |es| - |responseQueue| == k + 1;
      }
    }

    /**
      `_check_requests_timeout`, scanning until the queue runs empty: the
      longest run of expired entries at the old end is re-queued in order;
      the first entry within the window is put back unchanged and the scan
      stops. The source's scan waits forever on an empty queue instead
      (Queues.ScanAsWritten).
     */
    method CheckRequestsTimeout(now: real)
      requires Valid()
      modifies this`requestQueue, this`responseQueue, this`interrupts
      ensures Valid()
      ensures var es := old(responseQueue); var k := ExpiredPrefix(es, now, timeout);
        requestQueue == old(requestQueue) + Requests(es[..k]) &&
        responseQueue == es[k..] &&
        interrupts == old(interrupts) + NewMarkers(k)
      ensures Pending() == old(Pending())
      ensures forall i :: 0 <= i < |responseQueue| ==> !Expired(responseQueue[i], now, timeout)
    {
      ghost var es := responseQueue;
      ghost var i := 0;
      var oldRequests := true;
      while oldRequests && |responseQueue| > 0
        invariant i <= |es|
        invariant responseQueue == es[i..]
        invariant requestQueue == old(requestQueue) + Requests(es[..i])
        invariant interrupts == old(interrupts) + NewMarkers(i)
        invariant forall j :: 0 <= j < i ==> Expired(es[j], now, timeout)
        invariant !oldRequests ==> i < |es| && !Expired(es[i], now, timeout)
        decreases |responseQueue| + (if oldRequests then 1 else 0)
      {
        var first := responseQueue[0];
        responseQueue := responseQueue[1..];
        if now - first.sent > timeout {
          EnqueueRequest(first.req);
          assert es[..i + 1] == es[..i] + [first];
          RequestsAppend(es[..i], first);
          i := i + 1;
        } else {
          responseQueue := [first] + responseQueue;
          oldRequests := false;
        }
      }
      assert i == ExpiredPrefix(es, now, timeout);
      MovePrefixKeepsPending(old(requestQueue), es, i);
      KeepsValidMoved(old(requestQueue), old(interrupts), es, i);
      YoungerEntriesWithinWindow(es, now, timeout);
    }

    /**
      What handling the oldest marker of `w` leaves, when `rq`, `rs`, `w`,
      `written` and `run` were the request queue, the response queue, the
      wake channel, the connection's write log and the running flag before.
      The marker is consumed. NEW transmits the head of the request queue at
      `now`. STOP clears `running` and touches no queue. Any other marker is
      the KeyError and changes nothing else.
     */
    ghost predicate Interrupted(rq: seq<RequestHandler>, rs: seq<Entry>, w: seq<string>,
                                written: seq<seq<byte>>, run: bool, now: real, outcome: Outcome)
      reads this, connection
    {
      |w| > 0 && interrupts == w[1..] &&
      (w[0] == NewMarker ==>
        |rq| > 0 && outcome == Done && running == run &&
        requestQueue == rq[1..] && responseQueue == rs + [Entry(now, rq[0])] &&
        connection.written == written + [rq[0].command]) &&
      (w[0] == StopMarker ==>
        outcome == Done && !running &&
        requestQueue == rq && responseQueue == rs && connection.written == written) &&
      (w[0] != NewMarker && w[0] != StopMarker ==>
        outcome == Raised(UnknownMarker(w[0])) && running == run &&
        requestQueue == rq && responseQueue == rs && connection.written == written)
    }

    /**
      `_process_interrupt`: reads one marker. NEW transmits one request,
      STOP clears `running`, and anything else has no handler (KeyError).
     */
    method ProcessInterrupt(now: real) returns (outcome: Outcome)
      requires Valid() && |interrupts| > 0 && ClockAtLeast(now)
      modifies this`requestQueue, this`responseQueue, this`interrupts, this`running, connection
      ensures Valid()
      ensures Interrupted(old(requestQueue), old(responseQueue), old(interrupts),
                          old(connection.written), old(running), now, outcome)
      ensures connection.inbound == old(connection.inbound)
    {
      var marker := interrupts[0];
      interrupts := interrupts[1..];
      if marker == NewMarker {
        WriteRequest(now);
        outcome := Done;
      } else if marker == StopMarker {
        StopMainLoop();
        outcome := Done;
      } else {
        outcome := Raised(UnknownMarker(marker));
      }
    }

    /** `_read_binary_data`: the length bytes, then the payload. */
    method ReadBinaryData() returns (data: Option<seq<byte>>)
      modifies connection
      ensures connection.written == old(connection.written)
      ensures var c := BinaryData(old(connection.inbound));
        data == c.data && connection.inbound == old(connection.inbound)[c.consumed..]
    {
      var length := connection.Read(2);
      if length.None? {
        return None;
      }
      var lo, hi := length.value[0], length.value[1];
      var size := FrameLength(lo, hi);
      data := connection.Read(size);
      if data.None? {
        return None;
      }
      assert old(connection.inbound)[2..][..size] == old(connection.inbound)[2..2 + size];
    }

    /** `_read_text_data`: one line. */
    method ReadTextData() returns (data: Option<seq<byte>>)
      modifies connection
      ensures connection.written == old(connection.written)
      ensures var c := TextData(old(connection.inbound));
        data == c.data && connection.inbound == old(connection.inbound)[c.consumed..]
    {
      data := connection.ReadLine();
    }

    /**
      The reading half of `_read_response`: takes one frame off the
      connection, exactly as DecodeFrame describes.
     */
    method ReadFrame() returns (status: Status)
      modifies connection
      ensures connection.written == old(connection.written)
      ensures var d := DecodeFrame(old(connection.inbound));
        status == d.status && connection.inbound == old(connection.inbound)[d.consumed..]
    {
      ghost var s := connection.inbound;
      var code := connection.Read(1);
      if code.None? {
        return Starved;
      }
      var c := code.value[0];
      if IsBinaryCode(c) {
        var ts := connection.Read(1);
        if ts.None? {
          return Starved;
        }
        assert s[1..][1..] == s[2..];
        var data := ReadBinaryData();
        if data.None? {
          return Starved;
        }
        status := Complete(Frame(c, ts.value[0], data.value));
      } else {
        var line := ReadTextData();
        if line.None? {
          return Starved;
        }
        status := ParseTextLine(c, line.value);
      }
    }

    /**
      The effect of reading one response, from the state before to the
      state after, when `es` is the response queue before. The frame is
      what DecodeFrame makes of the bytes delivered, and exactly its bytes
      are consumed. A read that waits or a malformed line changes no
      queue. A whole frame re-queues every entry older than its owner;
      the owner gets the payload and leaves the response queue. When there
      is no owner, every entry is re-queued and the correlation error is
      raised.
     */
    twostate predicate ResponseRead(es: seq<Entry>, outcome: Outcome)
      reads this, connection, set e | e in es :: e.req
    {
      var d := DecodeFrame(old(connection.inbound));
      es == old(responseQueue) &&
      connection.written == old(connection.written) &&
      connection.inbound == old(connection.inbound)[d.consumed..] &&
      (d.status.Starved? ==> outcome == Waiting) &&
      (d.status.Malformed? ==> outcome == Raised(BadFrame(d.status.error))) &&
      (!d.status.Complete? ==>
        requestQueue == old(requestQueue) && responseQueue == es &&
        interrupts == old(interrupts) && OthersKeepResponses(es, |es|)) &&
      (d.status.Complete? ==>
        var f := d.status.frame;
        Delivered(old(requestQueue), old(interrupts), es, f.code, f.timestamp, f.payload, outcome) &&
        OthersKeepResponses(es, FirstMatch(es, f.code, f.timestamp)))
    }

    /** Whether the next frame on `s` is whole and owned by an entry of `es`. */
    ghost predicate Answered(s: seq<byte>, es: seq<Entry>) {
      var d := DecodeFrame(s);
      d.status.Complete? && FirstMatch(es, d.status.frame.code, d.status.frame.timestamp) < |es|
    }

    /**
      `_read_response`: decodes one frame and hands it to `_save_response`.
      A read that waits or a malformed line leaves the queues as they were.
     */
    method ReadResponse() returns (outcome: Outcome)
      requires Valid()
      modifies this`requestQueue, this`responseQueue, this`interrupts, connection, InFlight()
      ensures Valid()
      ensures ResponseRead(old(responseQueue), outcome)
      ensures outcome == Done <==> Answered(old(connection.inbound), old(responseQueue))
      ensures |responseQueue| <= |old(responseQueue)| &&
        responseQueue == old(responseQueue)[|old(responseQueue)| - |responseQueue|..]
      ensures old(interrupts) <= interrupts
    {
      ghost var d := DecodeFrame(connection.inbound);
      ghost var es := responseQueue;
      var status := ReadFrame();
      assert status == d.status;
      match status
      case Starved =>
        outcome := Waiting;
      case Malformed(e) =>
        outcome := Raised(BadFrame(e));
      case Complete(f) =>
        assert f == d.status.frame;
        outcome := SaveResponse(f.code, f.timestamp, f.payload);
    }

    /**
      One iteration of `run`. `serialReady` and `wakeReady` are what
      `select` reports; neither means the deadline passed. The connection
      is handled before the wake channel, in the order `select` lists them.
     */
    method Step(now: real, serialReady: bool, wakeReady: bool) returns (outcome: Outcome)
      requires Valid() && ClockAtLeast(now)
      requires serialReady ==> |connection.inbound| > 0
      requires wakeReady ==> |interrupts| > 0
      modifies this`requestQueue, this`responseQueue, this`interrupts, this`running, connection, InFlight()
      ensures Valid()
      ensures !old(running) ==>
        outcome == Stopped && !running &&
        requestQueue == old(requestQueue) && responseQueue == old(responseQueue) &&
        interrupts == old(interrupts) && connection.inbound == old(connection.inbound) &&
        connection.written == old(connection.written)
      ensures old(running) && !serialReady && !wakeReady ==>
        var es := old(responseQueue); var k := ExpiredPrefix(es, now, timeout);
        outcome == Done && running &&
        requestQueue == old(requestQueue) + Requests(es[..k]) &&
        responseQueue == es[k..] &&
        interrupts == old(interrupts) + NewMarkers(k) &&
        connection.inbound == old(connection.inbound) &&
        connection.written == old(connection.written)
      ensures old(running) && !serialReady && wakeReady ==>
        Interrupted(old(requestQueue), old(responseQueue), old(interrupts),
                    old(connection.written), true, now, outcome)
      ensures old(running) && serialReady ==>
        var d := DecodeFrame(old(connection.inbound));
        connection.inbound == old(connection.inbound)[d.consumed..]
      ensures (old(running) && serialReady &&
               (!wakeReady || !Answered(old(connection.inbound), old(responseQueue)))) ==>
        running && ResponseRead(old(responseQueue), outcome)
      ensures (old(running) && serialReady && wakeReady &&
               Answered(old(connection.inbound), old(responseQueue))) ==>
        ServedThenInterrupted(old(responseQueue), now, outcome)
      ensures !serialReady ==> connection.inbound == old(connection.inbound)
      ensures !(old(running) && serialReady) ==>
        OthersKeepResponses(old(responseQueue), |old(responseQueue)|)
      ensures running ==> old(running)
      ensures old(running) && !running ==> wakeReady && old(interrupts[0]) == StopMarker
    {
      if !running {
        return Stopped;
      }
      if !serialReady && !wakeReady {
        CheckRequestsTimeout(now);
        return Done;
      }
      if !serialReady {
        outcome := ProcessInterrupt(now);
        return;
      }
      outcome := ServeConnection(now, wakeReady);
    }

    /**
      A whole frame owned by the entry at `k` of `es` was read and
      delivered, and then the oldest marker was handled. After the read, the
      entries older than the owner were in the request queue with their
      markers and the younger ones in flight; the marker's effect is on
      that state. The write log before the marker is the one before the
      read, which writes nothing.
     */
    twostate predicate ServedThenInterrupted(es: seq<Entry>, now: real, outcome: Outcome)
      reads this, connection, set e | e in es :: e.req
    {
      var d := DecodeFrame(old(connection.inbound));
      es == old(responseQueue) && d.status.Complete? &&
      var f := d.status.frame;
      var k := FirstMatch(es, f.code, f.timestamp);
      k < |es| &&
      connection.inbound == old(connection.inbound)[d.consumed..] &&
      es[k].req.response == Some(f.payload) && OthersKeepResponses(es, k) &&
      Interrupted(old(requestQueue) + Requests(es[..k]), es[k + 1..], old(interrupts) + NewMarkers(k),
                  old(connection.written), old(running), now, outcome)
    }

    /**
      The iteration of `run` in which the connection is ready: one response
      is read, and when a whole frame reached its owner and the wake channel
      is ready too, one marker is handled after it.
     */
    method ServeConnection(now: real, wakeReady: bool) returns (outcome: Outcome)
      requires Valid() && ClockAtLeast(now) && running
      requires wakeReady ==> |interrupts| > 0
      modifies this`requestQueue, this`responseQueue, this`interrupts, this`running, connection, InFlight()
      ensures Valid()
      ensures var d := DecodeFrame(old(connection.inbound));
        connection.inbound == old(connection.inbound)[d.consumed..]
      ensures !wakeReady || !Answered(old(connection.inbound), old(responseQueue)) ==>
        running && ResponseRead(old(responseQueue), outcome)
      ensures wakeReady && Answered(old(connection.inbound), old(responseQueue)) ==>
        ServedThenInterrupted(old(responseQueue), now, outcome)
      ensures !running ==> wakeReady && old(interrupts[0]) == StopMarker
    {
      ghost var s, es := connection.inbound, responseQueue;
      ghost var rq, w, written := requestQueue, interrupts, connection.written;
      outcome := ReadResponse();
      if outcome == Done && wakeReady {
        var f := DecodeFrame(s).status.frame;
        ghost var k := FirstMatch(es, f.code, f.timestamp);
        assert requestQueue == rq + Requests(es[..k]) && responseQueue == es[k + 1..];
        assert interrupts == w + NewMarkers(k) && interrupts[0] == w[0];
        assert connection.written == written;
        SentBySuffix(es, k + 1, now);
        outcome := ProcessInterrupt(now);
      }
    }
  }
}
