/** The server's accept loop (main in server.c): read one fixed-size request at a
    time from the well-known FIFO, classify the read, and hand each full record to
    a worker, or compute it in the loop itself when fork fails. */
module Dispatcher {
  import opened Bytes
  import opened Wire
  import opened Worker
  import opened Io

  /** What the loop does with one read_full result. */
  datatype Action = Reopen | Retry | Die | IgnorePartial | Dispatch

  /** The checks of the loop, in the source's order: 0 is end of file (close and
      reopen the FIFO); a negative count retries on EINTR and is fatal otherwise; a
      short count is a partial record, logged and dropped; anything else is a request. */
  function Classify(r: int, errno: int): Action
  {
    if r == 0 then Reopen
    else if r < 0 then (if errno == EINTR then Retry else Die)
    else if r < REQUEST_SIZE then IgnorePartial
    else Dispatch
  }

  /** What reading the next request does, in terms of what the FIFO delivers. The
      EINTR retry after read_full is dead code: read_full already retries. */
  lemma ClassifyReadFull(events: seq<ReadEvent>)
    ensures var res, d := ReadLoop(events, REQUEST_SIZE, []), Delivered(events);
      var act := Classify(res.count, res.errno);
      && act != Retry
      && (act == Dispatch <==> |d.bytes| >= REQUEST_SIZE)
      && (act == Reopen <==> d.bytes == [] && !d.failed)
      && (act == IgnorePartial <==> 0 < |d.bytes| < REQUEST_SIZE && !d.failed)
      && (act == Die <==> |d.bytes| < REQUEST_SIZE && d.failed)
      && (act == Dispatch ==> res.data == d.bytes[..REQUEST_SIZE])
  {
    ReadLoopDelivers(events, REQUEST_SIZE, []);
  }

  /** The results of `k` successive read_full calls on the request FIFO. */
  function ReadTrace(script: seq<ReadEvent>, k: nat): (t: seq<ReadReply>)
    ensures |t| == k
    decreases k
  {
    if k == 0 then []
    else var res := ReadLoop(script, REQUEST_SIZE, []); [res] + ReadTrace(res.rest, k - 1)
  }

  /** What is left of the script after `k` read_full calls. */
  function ScriptAfter(script: seq<ReadEvent>, k: nat): seq<ReadEvent>
    decreases k
  {
    if k == 0 then script else ScriptAfter(ReadLoop(script, REQUEST_SIZE, []).rest, k - 1)
  }

  lemma {:induction false} ReadTraceExtend(script: seq<ReadEvent>, k: nat)
    ensures var next := ReadLoop(ScriptAfter(script, k), REQUEST_SIZE, []);
      && ReadTrace(script, k + 1) == ReadTrace(script, k) + [next]
      && ScriptAfter(script, k + 1) == next.rest
    decreases k
  {
    if k > 0 {
      ReadTraceExtend(ReadLoop(script, REQUEST_SIZE, []).rest, k - 1);
    }
  }

  function ActionOf(res: ReadReply): Action
  {
    Classify(res.count, res.errno)
  }

  /** The records the loop dispatches: the full-length reads, in arrival order. */
  function FullRecords(trace: seq<ReadReply>): seq<seq<Byte>>
  {
    if trace == [] then []
    else
      var last := trace[|trace| - 1];
      FullRecords(trace[..|trace| - 1]) + (if ActionOf(last) == Dispatch then [last.data] else [])
  }

  function Reopens(trace: seq<ReadReply>): nat
  {
    if trace == [] then 0
    else Reopens(trace[..|trace| - 1]) + (if ActionOf(trace[|trace| - 1]) == Reopen then 1 else 0)
  }

  /** No read in the trace was fatal. */
  predicate Survives(trace: seq<ReadReply>)
  {
    trace == [] || (Survives(trace[..|trace| - 1]) && ActionOf(trace[|trace| - 1]) != Die)
  }

  lemma {:induction false} SurvivesExactly(trace: seq<ReadReply>)
    ensures Survives(trace) <==> forall i :: 0 <= i < |trace| ==> ActionOf(trace[i]) != Die
  {
    if trace != [] {
      var init := trace[..|trace| - 1];
      SurvivesExactly(init);
      assert forall i :: 0 <= i < |init| ==> init[i] == trace[i];
    }
  }

  lemma TraceExtend(trace: seq<ReadReply>, next: ReadReply)
    ensures FullRecords(trace + [next])
      == FullRecords(trace) + (if ActionOf(next) == Dispatch then [next.data] else [])
    ensures Reopens(trace + [next]) == Reopens(trace) + (if ActionOf(next) == Reopen then 1 else 0)
    ensures Survives(trace + [next]) <==> Survives(trace) && ActionOf(next) != Die
  {
    assert (trace + [next])[..|trace|] == trace;
  }

  /** FullRecords keeps exactly the reads classified Dispatch, in order. */
  lemma {:induction false} FullRecordsAreDispatched(trace: seq<ReadReply>, i: nat)
    requires i < |trace| && ActionOf(trace[i]) == Dispatch
    ensures var before := FullRecords(trace[..i]);
      |before| < |FullRecords(trace)| && FullRecords(trace)[|before|] == trace[i].data
    decreases |trace|
  {
    var last := |trace| - 1;
    assert trace[..last][..i] == trace[..i] by {
      assert i <= last;
    }
    if i < last {
      FullRecordsAreDispatched(trace[..last], i);
    } else {
      assert trace[..last] == trace[..i];
    }
  }

  /** The loop's bookkeeping of the server process. */
  datatype Status = Listening | Stopped | Died

  /** Who computed a response: a forked child, or the loop itself after fork failed. */
  datatype Handler = Child | InLoop

  /** A response computed for a request, to be written to the request's resp_fifo. */
  datatype Reply = Reply(request: Request, response: Response, handler: Handler)

  /** The k-th fork succeeds unless the script of fork results says it fails. */
  function HandlerFor(forks: seq<bool>, k: nat): Handler
  {
    if k < |forks| && !forks[k] then InLoop else Child
  }

  /** What the uninitialised response buffer of the k-th fallback holds: a fresh
      block-local in each pass of the loop, so it may differ from one fallback to the
      next (an exhausted sequence: zeros). */
  function StaleFor(stales: seq<Response>, k: nat): Response
  {
    if k < |stales| then stales[k] else ZERO_RESPONSE
  }

  /** The reply for the k-th dispatched record: the child clears its response buffer
      with memset; the fallback computes into its buffer as `stales` says it was left. */
  ghost predicate ReplyFor(reply: Reply, record: seq<Byte>, k: nat, forks: seq<bool>, stales: seq<Response>)
  {
    && |record| == REQUEST_SIZE
    && reply.request == DecodeRequest(record)
    && reply.handler == HandlerFor(forks, k)
    && reply.response == Compute(reply.request, if reply.handler == Child then ZERO_RESPONSE else StaleFor(stales, k))
  }

  /** `replies` is `done` followed by one matching reply per record, in order. */
  ghost predicate RepliesMatch(replies: seq<Reply>, done: seq<Reply>, records: seq<seq<Byte>>,
                               forks: seq<bool>, stales: seq<Response>)
  {
    && |replies| == |done| + |records|
    && replies[..|done|] == done
    && forall k :: 0 <= k < |records| ==> ReplyFor(replies[|done| + k], records[k], k, forks, stales)
  }

  lemma RepliesExtend(replies: seq<Reply>, done: seq<Reply>, records: seq<seq<Byte>>,
                      forks: seq<bool>, stales: seq<Response>, reply: Reply, record: seq<Byte>)
    requires RepliesMatch(replies, done, records, forks, stales)
    requires ReplyFor(reply, record, |records|, forks, stales)
    ensures RepliesMatch(replies + [reply], done, records + [record], forks, stales)
  {
    var replies', records' := replies + [reply], records + [record];
    assert replies'[..|done|] == replies[..|done|];
    forall k | 0 <= k < |records'|
      ensures ReplyFor(replies'[|done| + k], records'[k], k, forks, stales)
    {
      if k < |records| {
        assert replies'[|done| + k] == replies[|done| + k];
      }
    }
  }

  /** The handling of the k-th full record: decode it, then compute in a child on a
      cleared buffer, or in the loop on its own uninitialised one when that fork fails;
      either way the client reads what a child's cleared buffer would show. */
  method Answer(record: seq<Byte>, k: nat, forks: seq<bool>, stales: seq<Response>) returns (reply: Reply)
    requires |record| == REQUEST_SIZE
    ensures ReplyFor(reply, record, k, forks, stales)
    ensures OutcomeOf(reply.response) == OutcomeOf(Compute(DecodeRequest(record), ZERO_RESPONSE))
  {
    var rq := DecodeRequest(record);
    var handler := HandlerFor(forks, k);
    var rp := Compute(rq, if handler == Child then ZERO_RESPONSE else StaleFor(stales, k));
    ComputeOutcomeIgnoresBuffer(rq, StaleFor(stales, k));
    reply := Reply(rq, rp, handler);
  }

  /** How the loop ended after the reads in `trace`: it saw the stop flag clear before
      each of them, and either stopped at a set flag without a fatal read, or died at
      its first fatal read. */
  ghost predicate Ended(status: Status, stops: seq<bool>, trace: seq<ReadReply>)
  {
    && |trace| <= |stops| && true !in stops[..|trace|]
    && match status
       case Listening => false
       case Stopped => (|trace| == |stops| || stops[|trace|]) && Survives(trace)
       case Died =>
         && |trace| > 0 && ActionOf(trace[|trace| - 1]) == Die
         && Survives(trace[..|trace| - 1])
  }

  class Server {
    var requests: Channel    // req_fd, the read end of the well-known FIFO
    var reopens: nat         // times req_fd was closed and reopened after end of file
    var status: Status
    var replies: seq<Reply>  // responses computed, in the order their requests were read

    constructor (requests: Channel)
      ensures this.requests == requests && reopens == 0 && status == Listening && replies == []
    {
      this.requests, reopens, status, replies := requests, 0, Listening, [];
    }

    /** One read_full of a request record from req_fd, the it-th of the loop. */
    method Receive(ghost script: seq<ReadEvent>, ghost it: nat)
      returns (action: Action, buf: array<Byte>, ghost next: ReadReply)
      requires requests.readAnswers == ScriptAfter(script, it)
      modifies requests`readAnswers
      ensures requests.readAnswers == ScriptAfter(script, it + 1)
      ensures ReadTrace(script, it + 1) == ReadTrace(script, it) + [next]
      ensures action == ActionOf(next)
      ensures fresh(buf) && buf.Length == REQUEST_SIZE
      ensures action == Dispatch ==> buf[..] == next.data
    {
      buf := new Byte[REQUEST_SIZE];
      next := ReadLoop(requests.readAnswers, REQUEST_SIZE, []);
      var r, errno := ReadFull(requests, buf, REQUEST_SIZE);
      ReadTraceExtend(script, it);
      action := Classify(r, errno);
    }

    /** What the loop has done after reading `trace` from a FIFO whose script started
        as `script`, starting with `reopens0` reopens and the replies `done`. */
    ghost predicate Accounts(script: seq<ReadEvent>, trace: seq<ReadReply>, reopens0: nat,
                             done: seq<Reply>, forks: seq<bool>, stales: seq<Response>)
      reads this`requests, this`reopens, this`replies, requests`readAnswers
    {
      && trace == ReadTrace(script, |trace|)
      && requests.readAnswers == ScriptAfter(script, |trace|)
      && reopens == reopens0 + Reopens(trace)
      && RepliesMatch(replies, done, FullRecords(trace), forks, stales)
    }

    /** One pass of the loop body after the stop-flag check: read a request, then
        reopen on end of file, drop a partial record, or dispatch a full one. A fatal
        read error is reported in `action` and left to the caller. */
    method Step(ghost script: seq<ReadEvent>, ghost trace: seq<ReadReply>, ghost reopens0: nat,
                ghost done: seq<Reply>, forks: seq<bool>, stales: seq<Response>, dispatched: nat)
      returns (action: Action, ghost next: ReadReply, dispatched': nat)
      requires Accounts(script, trace, reopens0, done, forks, stales)
      requires dispatched == |FullRecords(trace)|
      modifies this`reopens, this`replies, requests`readAnswers
      ensures Accounts(script, trace + [next], reopens0, done, forks, stales)
      ensures dispatched' == |FullRecords(trace + [next])|
      ensures action == ActionOf(next)
    {
      var buf;
      action, buf, next := Receive(script, |trace|);
      TraceExtend(trace, next);
      dispatched' := dispatched;
      if action == Reopen {
        reopens := reopens + 1;
      } else if action == Dispatch {
        var reply := Answer(buf[..], dispatched, forks, stales);
        RepliesExtend(replies, done, FullRecords(trace), forks, stales, reply, next.data);
        replies := replies + [reply];
        dispatched' := dispatched + 1;
      }
    }

    /** The for(;;) loop. `stops[i]` is the stop flag as the i-th iteration sees it
        (an exhausted sequence reads as a requested stop); `forks[k]` says whether the
        k-th fork succeeds (an exhausted sequence: it does); `stales[k]` is what the
        uninitialised response buffer of the k-th fallback holds. */
    method Serve(stops: seq<bool>, forks: seq<bool>, stales: seq<Response>) returns (ghost trace: seq<ReadReply>)
      requires status == Listening
      modifies this`status, this`reopens, this`replies, requests`readAnswers
      ensures Accounts(old(requests.readAnswers), trace, old(reopens), old(replies), forks, stales)
      ensures Ended(status, stops, trace)
    {
      ghost var script, reopens0, done := requests.readAnswers, reopens, replies;
      trace := [];
      var it, dispatched := 0, 0;
      while true
        invariant it <= |stops| && |trace| == it
        invariant status == Listening
        invariant Accounts(script, trace, reopens0, done, forks, stales)
        invariant dispatched == |FullRecords(trace)|
        invariant true !in stops[..it] && Survives(trace)
        decreases |stops| - it
      {
        if it == |stops| || stops[it] {
          status := Stopped;
          return;
        }
        var action;
        ghost var next;
        action, next, dispatched := Step(script, trace, reopens0, done, forks, stales, dispatched);
        TraceExtend(trace, next);
        assert stops[..it + 1] == stops[..it] + [false];
        trace := trace + [next];
        it := it + 1;
        if action == Die {
          status := Died;
          return;
        }
      }
    }
  }

  /** The fallback's response reads the same as the child's would. */
  lemma FallbackAnswersLikeChild(reply: Reply, record: seq<Byte>, k: nat, forks: seq<bool>, stales: seq<Response>)
    requires ReplyFor(reply, record, k, forks, stales)
    ensures OutcomeOf(reply.response) == OutcomeOf(Compute(DecodeRequest(record), ZERO_RESPONSE))
  {
    ComputeOutcomeIgnoresBuffer(reply.request, StaleFor(stales, k));
  }

  /** ... but not always the same bytes: a failed division keeps whatever `result`
      the uninitialised buffer held, where the child's cleared buffer holds 0. */
  lemma FallbackBytesMayDiffer()
    ensures var rq := Request(DIV + [NUL], 7, 0, 1, Zeros(RESP_NAME_MAX));
      var stale := Response(5, 0, Zeros(ERROR_MAX));
      EncodeResponse(Compute(rq, stale)) != EncodeResponse(Compute(rq, ZERO_RESPONSE))
  {
    var rq := Request(DIV + [NUL], 7, 0, 1, Zeros(RESP_NAME_MAX));
    var stale := Response(5, 0, Zeros(ERROR_MAX));
    assert Code(rq.operation) == DIV;
    ResponseRoundTrip(Compute(rq, stale));
    ResponseRoundTrip(Compute(rq, ZERO_RESPONSE));
  }
}
