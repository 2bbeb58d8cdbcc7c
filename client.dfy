/** The client's side of one exchange (main in client.c): tidy the typed line,
    check the operation, build the request record, send it with write_full and
    accept the answer only when read_full brings a whole response record. */
module Client {
  import opened Bytes
  import opened Wire
  import opened Worker
  import opened Io
  import opened Wrappers

  /** Whether a byte is one of the line endings fgets leaves in the buffer. */
  predicate IsLineEnd(c: Byte)
  {
    c == LF || c == CR
  }

  /** A C string with every trailing '\n' and '\r' removed. */
  function TrimEnd(c: seq<Byte>): (t: seq<Byte>)
    ensures |t| <= |c| && t == c[..|t|]
    ensures t == [] || !IsLineEnd(t[|t| - 1])
    ensures forall i :: |t| <= i < |c| ==> IsLineEnd(c[i])
  {
    if c != [] && IsLineEnd(c[|c| - 1]) then TrimEnd(c[..|c| - 1]) else c
  }

  /** TrimEnd is pinned down by its contract: a text without a trailing line ending,
      followed by line endings only, trims to that text. */
  lemma {:induction false} TrimEndUnique(t: seq<Byte>, u: seq<Byte>)
    requires t == [] || !IsLineEnd(t[|t| - 1])
    requires forall i :: 0 <= i < |u| ==> IsLineEnd(u[i])
    ensures TrimEnd(t + u) == t
    decreases |u|
  {
    if u == [] {
      assert t + u == t;
    } else {
      assert (t + u)[..|t + u| - 1] == t + u[..|u| - 1];
      TrimEndUnique(t, u[..|u| - 1]);
    }
  }

  lemma TrimEndIdempotent(c: seq<Byte>)
    ensures TrimEnd(TrimEnd(c)) == TrimEnd(c)
  {
    TrimEndUnique(TrimEnd(c), []);
    assert TrimEnd(c) + [] == TrimEnd(c);
  }

  /** trim_newline: overwrite the trailing CR and LF bytes of the C string in `s`
      with NUL, from the end backwards. */
  method TrimNewline(s: array<Byte>)
    requires NulTerminated(s[..])
    modifies s
    ensures var c := CString(old(s[..])); var t := TrimEnd(c);
      s[..] == Blanked(old(s[..]), |t|, |c|)
    ensures CString(s[..]) == TrimEnd(CString(old(s[..])))
  {
    ghost var s0 := s[..];
    var n := CStrLen(s[..]);
    ghost var c := s[..n];
    assert s[..] == Blanked(s0, n, n);
    while n > 0 && (s[n - 1] == LF || s[n - 1] == CR)
      invariant n <= |c| == CStrLen(s0) && c == s0[..|c|]
      invariant TrimEnd(c[..n]) == TrimEnd(c)
      invariant s[..] == Blanked(s0, n, |c|)
    {
      BlankStep(s0, n, |c|);
      assert c[..n][..n - 1] == c[..n - 1];
      n := n - 1;
      s[n] := NUL;
    }
    assert c[..n] == TrimEnd(c);
    TrimmedLayout(s0);
  }

  /** `s` with the bytes in [n, m) set to NUL. */
  function Blanked(s: seq<Byte>, n: nat, m: nat): (r: seq<Byte>)
    requires n <= m <= |s|
    ensures |r| == |s|
  {
    s[..n] + Zeros(m - n) + s[m..]
  }

  lemma BlankStep(s: seq<Byte>, n: nat, m: nat)
    requires 0 < n <= m <= |s|
    ensures Blanked(s, n, m)[n - 1 := NUL] == Blanked(s, n - 1, m)
    ensures Blanked(s, n, m)[n - 1] == s[n - 1]
  {
    assert Blanked(s, n - 1, m) == s[..n - 1] + [NUL] + Zeros(m - n) + s[m..];
  }

  /** Blanking the trailing line endings of a C string with NUL leaves exactly the
      trimmed text as the C string. */
  lemma TrimmedLayout(s: seq<Byte>)
    requires NulTerminated(s)
    ensures var c := CString(s); var t := TrimEnd(c);
      CString(Blanked(s, |t|, |c|)) == t
  {
    var c := CString(s);
    var t := TrimEnd(c);
    assert s[..|t|] == t;
    assert NoNul(t);
    if |t| < |c| {
      assert s[..|t|] + Zeros(|c| - |t|) + s[|c|..] == t + [NUL] + (Zeros(|c| - |t| - 1) + s[|c|..]);
      CStringOfTerminated(t, Zeros(|c| - |t| - 1) + s[|c|..]);
    } else {
      assert s[..|t|] + Zeros(0) + s[|c|..] == t + [NUL] + s[|c| + 1..];
      CStringOfTerminated(t, s[|c| + 1..]);
    }
  }

  /** strcmp: the difference of the first differing bytes (as unsigned char), or 0
      when both C strings end together. */
  function Strcmp(a: seq<Byte>, b: seq<Byte>): (r: int)
    requires NulTerminated(a) && NulTerminated(b)
    ensures r == 0 <==> CString(a) == CString(b)
    decreases |a|
  {
    if a[0] != b[0] then
      assert a[0] == NUL || CString(a)[0] == a[0];
      assert b[0] == NUL || CString(b)[0] == b[0];
      a[0] - b[0]
    else if a[0] == NUL then 0
    else
      CStringCons(a);
      CStringCons(b);
      assert CString(a)[1..] == CString(a[1..]) && CString(b)[1..] == CString(b[1..]);
      Strcmp(a[1..], b[1..])
  }

  lemma CStringCons(a: seq<Byte>)
    requires a != [] && a[0] != NUL
    ensures CStrLen(a) == 1 + CStrLen(a[1..])
    ensures CString(a) == [a[0]] + CString(a[1..])
  {
  }

  /** A literal as the C runtime stores it: its bytes and a terminating NUL. */
  function Literal(t: seq<Byte>): (s: seq<Byte>)
    requires NoNul(t)
    ensures NulTerminated(s) && CString(s) == t
  {
    CStringOfTerminated(t, []);
    t + [NUL]
  }

  /** is_valid_op: the line equals one of the four operation names. */
  predicate IsValidOp(op: seq<Byte>)
    requires NulTerminated(op)
  {
    CodesDistinct();
    assert ADD[0] != NUL && ADD[1] != NUL && ADD[2] != NUL;
    assert SUB[0] != NUL && SUB[1] != NUL && SUB[2] != NUL;
    assert MUL[0] != NUL && MUL[1] != NUL && MUL[2] != NUL;
    assert DIV[0] != NUL && DIV[1] != NUL && DIV[2] != NUL;
    || Strcmp(op, Literal(ADD)) == 0 || Strcmp(op, Literal(SUB)) == 0
    || Strcmp(op, Literal(MUL)) == 0 || Strcmp(op, Literal(DIV)) == 0
  }

  /** A valid line is exactly a three-byte operation code the worker knows. */
  lemma IsValidOpExactly(op: seq<Byte>)
    requires NulTerminated(op)
    ensures IsValidOp(op) <==> IsKnownCode(CString(op))
    ensures IsValidOp(op) ==> CStrLen(op) == 3
  {
    CodesDistinct();
  }

  const REPLY_PREFIX: seq<Byte> := Ascii("/tmp/arith_resp_")
  const REPLY_SUFFIX: seq<Byte> := Ascii(".fifo")
  const MINUS: Byte := 45
  const ZERO_DIGIT: Byte := 48

  predicate AllDigits(s: seq<Byte>)
  {
    forall i :: 0 <= i < |s| ==> ZERO_DIGIT <= s[i] < ZERO_DIGIT + 10
  }

  /** The decimal digits of n, most significant first, without leading zeros. */
  function Digits(n: nat): (s: seq<Byte>)
    ensures |s| >= 1 && AllDigits(s)
    decreases n
  {
    if n < 10 then [ZERO_DIGIT + n] else Digits(n / 10) + [ZERO_DIGIT + n % 10]
  }

  /** The value of a string of decimal digits. */
  function DigitsValue(s: seq<Byte>): nat
    requires AllDigits(s)
  {
    if s == [] then 0 else DigitsValue(s[..|s| - 1]) * 10 + (s[|s| - 1] - ZERO_DIGIT)
  }

  lemma {:induction false} DigitsRoundTrip(n: nat)
    ensures DigitsValue(Digits(n)) == n
    decreases n
  {
    if n >= 10 {
      var s := Digits(n);
      assert s[..|s| - 1] == Digits(n / 10);
      DigitsRoundTrip(n / 10);
    }
  }

  function Pow10(k: nat): nat
  {
    if k == 0 then 1 else 10 * Pow10(k - 1)
  }

  /** A number below 10^k has at most k digits. */
  lemma {:induction false} DigitsLength(n: nat, k: nat)
    requires 1 <= k && n < Pow10(k)
    ensures |Digits(n)| <= k
    decreases k
  {
    if n >= 10 {
      assert k > 1;
      DigitsLength(n / 10, k - 1);
    }
  }

  /** printf's %d. */
  function Decimal(x: int): (s: seq<Byte>)
  {
    if x < 0 then [MINUS] + Digits(-x) else Digits(x)
  }

  /** Reading back what %d printed: an optional minus sign, then the digits. */
  function DecimalValue(s: seq<Byte>): int
    requires s != [] && AllDigits(if s[0] == MINUS then s[1..] else s)
  {
    if s[0] == MINUS then -(DigitsValue(s[1..]) as int) else DigitsValue(s)
  }

  lemma DecimalRoundTrip(x: int)
    ensures var s := Decimal(x); s != [] && AllDigits(if s[0] == MINUS then s[1..] else s)
    ensures DecimalValue(Decimal(x)) == x
  {
    var s := Decimal(x);
    if x < 0 {
      assert s[1..] == Digits(-x);
      DigitsRoundTrip(-x);
    } else {
      assert s[0] != MINUS;
      DigitsRoundTrip(x);
    }
  }

  /** An int32 prints in at most 11 bytes. */
  lemma DecimalOfInt32(x: Int32)
    ensures 1 <= |Decimal(x)| <= 11 && NoNul(Decimal(x))
  {
    assert Pow10(10) == 10_000_000_000;
    var m: nat := if x < 0 then -(x as int) else x as int;
    DigitsLength(m, 10);
  }

  /** The reply FIFO path the client names after its process ID. */
  function ReplyPathText(pid: Int32): (p: seq<Byte>)
    ensures |p| <= 32 && NoNul(p)
  {
    DecimalOfInt32(pid);
    assert NoNul(REPLY_PREFIX) && |REPLY_PREFIX| == 16;
    assert NoNul(REPLY_SUFFIX) && |REPLY_SUFFIX| == 5;
    REPLY_PREFIX + Decimal(pid) + REPLY_SUFFIX
  }

  /** snprintf(resp_fifo, sizeof(resp_fifo), "/tmp/arith_resp_%d.fifo", pid), where
      `prior` is what the uninitialised stack buffer held. */
  function ReplyPath(prior: NameField, pid: Int32): (b: NameField)
  {
    Snprintf(prior, ReplyPathText(pid))
  }

  /** The path is never truncated, so the buffer holds the whole name. */
  lemma ReplyPathComplete(prior: NameField, pid: Int32)
    ensures NulTerminated(ReplyPath(prior, pid))
    ensures CStrLen(ReplyPath(prior, pid)) < RESP_NAME_MAX - 1
    ensures CString(ReplyPath(prior, pid)) == ReplyPathText(pid)
  {
  }

  /** Distinct processes name distinct reply FIFOs. */
  lemma ReplyPathsDistinct(p: Int32, q: Int32)
    requires p != q
    ensures ReplyPathText(p) != ReplyPathText(q)
  {
    var a, b := ReplyPathText(p), ReplyPathText(q);
    if a == b {
      assert a[16..|a| - 5] == Decimal(p);
      assert b[16..|b| - 5] == Decimal(q);
      DecimalRoundTrip(p);
      DecimalRoundTrip(q);
    }
  }

  /** The operation field after memset and memcpy of min(OP_MAX, strlen(line)) bytes. */
  function OperationField(line: seq<Byte>): (op: OpField)
    requires NulTerminated(line)
  {
    var k := if OP_MAX < CStrLen(line) then OP_MAX else CStrLen(line);
    line[..k] + Zeros(OP_MAX - k)
  }

  /** strncpy(dst, src, n): the bytes of src before its first NUL, at most n of them,
      padded with NUL up to n. */
  function Strncpy(src: seq<Byte>, n: nat): (d: seq<Byte>)
    requires n <= |src|
    ensures |d| == n
    ensures var k := CStrLen(src[..n]); d[..k] == src[..k] && forall i :: k <= i < n ==> d[i] == NUL
  {
    var t := CString(src[..n]);
    t + Zeros(n - |t|)
  }

  /** The request record main fills in: zero everything, copy the operation, the
      operands and the pid, then strncpy at most 127 bytes of the reply path so the
      128th byte keeps the NUL of the memset. */
  function MakeRequest(line: seq<Byte>, a: Int64, b: Int64, pid: Int32, respFifo: NameField): Request
    requires NulTerminated(line)
  {
    Request(OperationField(line), a, b, pid, Strncpy(respFifo, RESP_NAME_MAX - 1) + [NUL])
  }

  /** The operation field holds the first min(4, strlen(line)) bytes of the line. */
  lemma OperationFieldText(line: seq<Byte>)
    requires NulTerminated(line)
    ensures var c := CString(line); var k := if |c| < OP_MAX then |c| else OP_MAX;
      CString(OperationField(line)) == c[..k]
      && forall i :: k <= i < OP_MAX ==> OperationField(line)[i] == NUL
  {
    var c := CString(line);
    var k := if |c| < OP_MAX then |c| else OP_MAX;
    var op := OperationField(line);
    assert op[..k] == c[..k];
    if k < OP_MAX {
      assert op == c[..k] + [NUL] + Zeros(OP_MAX - k - 1);
      CStringOfTerminated(c[..k], Zeros(OP_MAX - k - 1));
    } else {
      assert CStrLen(op) == OP_MAX by {
        CStrLenNoNul(op);
      }
    }
  }

  lemma {:induction false} CStrLenNoNul(s: seq<Byte>)
    requires NoNul(s)
    ensures CStrLen(s) == |s|
    decreases |s|
  {
    if s != [] {
      CStrLenNoNul(s[1..]);
    }
  }

  /** For a validated line the worker's three-byte code is the typed operation and the
      fourth byte of the field is NUL. */
  lemma ValidOperationField(line: seq<Byte>)
    requires NulTerminated(line) && IsValidOp(line)
    ensures Code(OperationField(line)) == CString(line)
    ensures OperationField(line)[3] == NUL
  {
    IsValidOpExactly(line);
    assert OperationField(line) == line[..3] + [NUL];
  }

  /** resp_fifo is always NUL-terminated, with only NUL after its text; it names the
      reply path whenever that is shorter than 127 bytes. */
  lemma RespFifoField(line: seq<Byte>, a: Int64, b: Int64, pid: Int32, respFifo: NameField)
    requires NulTerminated(line)
    ensures var f := MakeRequest(line, a, b, pid, respFifo).respFifo;
      && f[RESP_NAME_MAX - 1] == NUL
      && NulTerminated(f) && CStrLen(f) <= RESP_NAME_MAX - 1
      && (forall i :: CStrLen(f) <= i < RESP_NAME_MAX ==> f[i] == NUL)
      && CString(f) == CString(respFifo[..RESP_NAME_MAX - 1])
      && (CStrLen(respFifo) < RESP_NAME_MAX - 1 ==> CString(f) == CString(respFifo))
  {
    var f := MakeRequest(line, a, b, pid, respFifo).respFifo;
    var t := CString(respFifo[..RESP_NAME_MAX - 1]);
    assert NoNul(t);
    assert f == t + [NUL] + Zeros(RESP_NAME_MAX - 1 - |t|);
    CStringOfTerminated(t, Zeros(RESP_NAME_MAX - 1 - |t|));
    if CStrLen(respFifo) < RESP_NAME_MAX - 1 {
      CStrLenOfPrefix(respFifo, RESP_NAME_MAX - 1);
    }
  }

  /** What the worker decodes from a record the client built: the typed code, the
      operands and pid as given, and a reply path naming this client. */
  lemma RequestReachesWorker(line: seq<Byte>, a: Int64, b: Int64, pid: Int32, prior: NameField)
    requires NulTerminated(line) && IsValidOp(line)
    ensures var rq := DecodeRequest(EncodeRequest(MakeRequest(line, a, b, pid, ReplyPath(prior, pid))));
      && Code(rq.operation) == CString(line) && rq.operation[3] == NUL
      && rq.operand1 == a && rq.operand2 == b && rq.clientPid == pid
      && CString(rq.respFifo) == ReplyPathText(pid)
  {
    var rq := MakeRequest(line, a, b, pid, ReplyPath(prior, pid));
    RequestRoundTrip(rq);
    ValidOperationField(line);
    ReplyPathComplete(prior, pid);
    RespFifoField(line, a, b, pid, ReplyPath(prior, pid));
  }

  /** memset, then memcpy of the operation: the operation field, then zeros. */
  lemma OperationLayout(line: seq<Byte>)
    requires NulTerminated(line)
    ensures var len := CStrLen(line);
      Splice(Zeros(REQUEST_SIZE), 0, line[..if OP_MAX < len then OP_MAX else len])
        == OperationField(line) + Zeros(REQUEST_SIZE - OP_MAX)
  {
    var len := CStrLen(line);
    var op := line[..if OP_MAX < len then OP_MAX else len];
    SpliceOntoZeros([], op, REQUEST_SIZE);
    ZerosSplit(OP_MAX - |op|, REQUEST_SIZE - OP_MAX);
    assert [] + op == op;
  }

  /** memset, then memcpy of the operation and the three scalar stores: the fixed
      fields of the request, then zeros. */
  lemma HeaderLayout(line: seq<Byte>, a: Int64, b: Int64, pid: Int32)
    requires NulTerminated(line)
    ensures var len := CStrLen(line);
      var op := line[..if OP_MAX < len then OP_MAX else len];
      var s1 := Splice(Zeros(REQUEST_SIZE), 0, op);
      var s2 := Splice(s1, 4, EncodeInt64(a));
      var s3 := Splice(s2, 12, EncodeInt64(b));
      Splice(s3, 20, EncodeInt32(pid))
        == OperationField(line) + EncodeInt64(a) + EncodeInt64(b) + EncodeInt32(pid) + Zeros(RESP_NAME_MAX)
  {
    var len := CStrLen(line);
    var op := line[..if OP_MAX < len then OP_MAX else len];
    var ea, eb, ep := EncodeInt64(a), EncodeInt64(b), EncodeInt32(pid);
    var o := OperationField(line);
    OperationLayout(line);
    SpliceOntoZeros(o, ea, REQUEST_SIZE - 4);
    SpliceOntoZeros(o + ea, eb, REQUEST_SIZE - 12);
    SpliceOntoZeros(o + ea + eb, ep, REQUEST_SIZE - 20);
  }

  /** ... and the strncpy of the reply path after them lays out exactly the request. */
  lemma RecordLayout(line: seq<Byte>, a: Int64, b: Int64, pid: Int32, respFifo: NameField)
    requires NulTerminated(line)
    ensures var len := CStrLen(line);
      var op := line[..if OP_MAX < len then OP_MAX else len];
      var s1 := Splice(Zeros(REQUEST_SIZE), 0, op);
      var s2 := Splice(s1, 4, EncodeInt64(a));
      var s3 := Splice(s2, 12, EncodeInt64(b));
      var s4 := Splice(s3, 20, EncodeInt32(pid));
      Splice(s4, 24, Strncpy(respFifo, RESP_NAME_MAX - 1)) == EncodeRequest(MakeRequest(line, a, b, pid, respFifo))
  {
    var h := OperationField(line) + EncodeInt64(a) + EncodeInt64(b) + EncodeInt32(pid);
    var f := Strncpy(respFifo, RESP_NAME_MAX - 1);
    HeaderLayout(line, a, b, pid);
    SpliceOntoZeros(h, f, RESP_NAME_MAX);
    assert Zeros(1) == [NUL];
  }

  /** Lines 106-110 of main: fill the request record `rq` in place. */
  method BuildRequest(rq: array<Byte>, line: array<Byte>, a: Int64, b: Int64, pid: Int32, respFifo: array<Byte>)
    requires rq.Length == REQUEST_SIZE && respFifo.Length == RESP_NAME_MAX
    requires NulTerminated(line[..])
    requires rq != line && rq != respFifo
    modifies rq
    ensures rq[..] == EncodeRequest(MakeRequest(line[..], a, b, pid, respFifo[..]))
  {
    ghost var text, path := line[..], respFifo[..];
    RecordLayout(text, a, b, pid, path);
    Store(rq, 0, Zeros(REQUEST_SIZE));
    assert rq[..] == Zeros(REQUEST_SIZE);
    var len := CStrLen(line[..]);
    Store(rq, 0, line[..if OP_MAX < len then OP_MAX else len]);
    Store(rq, 4, EncodeInt64(a));
    Store(rq, 12, EncodeInt64(b));
    Store(rq, 20, EncodeInt32(pid));
    Store(rq, 24, Strncpy(respFifo[..], RESP_NAME_MAX - 1));
    assert line[..] == text && respFifo[..] == path;
  }

  /** What the client reports for one exchange. */
  datatype Receipt = SendFailed | ReceiveFailed(count: int) | Received(outcome: Outcome)

  /** Lines 127-133 of main: a response is used only when read_full returned the
      whole record; it shows the result when success is nonzero, the error otherwise. */
  function Accept(rr: int, rp: seq<Byte>): (res: Receipt)
    requires |rp| == RESPONSE_SIZE
    ensures res.ReceiveFailed? || res.Received?
    ensures res.ReceiveFailed? <==> rr < RESPONSE_SIZE
    ensures res.ReceiveFailed? ==> res.count == rr
    ensures res.Received? && res.outcome.Value? <==> rr >= RESPONSE_SIZE && DecodeInt32(rp[8..12]) != 0
    ensures res == Received(Value(DecodeInt64(rp[..8]))) || !(res.Received? && res.outcome.Value?)
    ensures res.Received? && res.outcome.Failure? ==> res.outcome.message == CString(rp[12..])
  {
    if rr < 0 || rr < RESPONSE_SIZE then ReceiveFailed(rr)
    else
      assert rp[12..RESPONSE_SIZE] == rp[12..] && rp[0..8] == rp[..8];
      Received(OutcomeOf(DecodeResponse(rp)))
  }

  /** The exchange as a function of the answers the two FIFOs give. */
  function ExchangeResult(sendScript: seq<WriteEvent>, replyScript: seq<ReadEvent>): Receipt
  {
    if WriteLoop(sendScript, REQUEST_SIZE, 0).count < 0 then SendFailed
    else
      var rd := ReadLoop(replyScript, RESPONSE_SIZE, []);
      ReadFullResult(replyScript, RESPONSE_SIZE);
      if rd.count < RESPONSE_SIZE then ReceiveFailed(rd.count)
      else Received(OutcomeOf(DecodeResponse(rd.data)))
  }

  /** Lines 116 and 123-133 of main: write the request to the server's FIFO, then read
      one response record from the reply FIFO into a cleared buffer. */
  method Exchange(toServer: Channel, fromServer: Channel, rq: array<Byte>) returns (res: Receipt)
    requires rq.Length == REQUEST_SIZE
    modifies toServer`writeAnswers, toServer`sent, fromServer`readAnswers
    ensures res == ExchangeResult(old(toServer.writeAnswers), old(fromServer.readAnswers))
    ensures var w := WriteLoop(old(toServer.writeAnswers), REQUEST_SIZE, 0);
      w.written <= REQUEST_SIZE && toServer.sent == old(toServer.sent) + rq[..w.written] && toServer.writeAnswers == w.rest
    ensures res == SendFailed ==> fromServer.readAnswers == old(fromServer.readAnswers)
    ensures res != SendFailed ==>
      fromServer.readAnswers == ReadLoop(old(fromServer.readAnswers), RESPONSE_SIZE, []).rest
  {
    var w, _ := WriteFull(toServer, rq, REQUEST_SIZE);
    if w < 0 {
      return SendFailed;
    }
    var rp := new Byte[RESPONSE_SIZE](_ => NUL);
    ReadFullResult(fromServer.readAnswers, RESPONSE_SIZE);
    var rr, _ := ReadFull(fromServer, rp, RESPONSE_SIZE);
    if rr >= RESPONSE_SIZE {
      assert rp[..] == rp[..RESPONSE_SIZE];
    }
    res := Accept(rr, rp[..]);
  }

  /** What the client shows in terms of what the OS takes and what the reply FIFO
      delivers: it fails to send exactly when a hard write error comes before the whole
      request is out, and shows the first response record exactly when one arrives. */
  lemma ExchangeDelivers(sendScript: seq<WriteEvent>, replyScript: seq<ReadEvent>)
    ensures var bud, d, res := Budget(sendScript), Delivered(replyScript), ExchangeResult(sendScript, replyScript);
      && (res == SendFailed <==> bud != None && bud.value < REQUEST_SIZE)
      && (res.Received? <==> (bud == None || bud.value >= REQUEST_SIZE) && |d.bytes| >= RESPONSE_SIZE)
      && (res.Received? ==> res.outcome == OutcomeOf(DecodeResponse(d.bytes[..RESPONSE_SIZE])))
  {
    WriteLoopCompletes(sendScript, REQUEST_SIZE, 0);
    ReadLoopDelivers(replyScript, RESPONSE_SIZE, []);
    assert [] + Delivered(replyScript).bytes == Delivered(replyScript).bytes;
  }

  /** The whole round trip: a valid line sent to a server that answers with compute's
      record is shown as compute's outcome for the typed operation and operands. */
  lemma RoundTrip(line: seq<Byte>, a: Int64, b: Int64, pid: Int32, prior: NameField,
                  sendScript: seq<WriteEvent>, replyScript: seq<ReadEvent>, rest: seq<Byte>)
    requires NulTerminated(line) && IsValidOp(line)
    requires Budget(sendScript) == None || Budget(sendScript).value >= REQUEST_SIZE
    requires var rq := DecodeRequest(EncodeRequest(MakeRequest(line, a, b, pid, ReplyPath(prior, pid))));
      Delivered(replyScript).bytes == EncodeResponse(Compute(rq, ZERO_RESPONSE)) + rest
    ensures var rq := DecodeRequest(EncodeRequest(MakeRequest(line, a, b, pid, ReplyPath(prior, pid))));
      && Code(rq.operation) == CString(line) && rq.operand1 == a && rq.operand2 == b
      && ExchangeResult(sendScript, replyScript) == Received(OutcomeOf(Compute(rq, ZERO_RESPONSE)))
  {
    var rq := DecodeRequest(EncodeRequest(MakeRequest(line, a, b, pid, ReplyPath(prior, pid))));
    RequestReachesWorker(line, a, b, pid, prior);
    var bytes := EncodeResponse(Compute(rq, ZERO_RESPONSE));
    assert Delivered(replyScript).bytes[..RESPONSE_SIZE] == bytes;
    ExchangeDelivers(sendScript, replyScript);
    ResponseRoundTrip(Compute(rq, ZERO_RESPONSE));
  }
}
