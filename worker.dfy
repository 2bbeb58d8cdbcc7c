/** The arithmetic worker: the server's compute(), which maps one request to the
    response record it fills in. */
module Worker {
  import opened Bytes
  import opened Wire
  import opened Arith

  const ADD: seq<Byte> := Ascii("add")
  const SUB: seq<Byte> := Ascii("sub")
  const MUL: seq<Byte> := Ascii("mul")
  const DIV: seq<Byte> := Ascii("div")

  const DIVIDE_BY_ZERO: seq<Byte> := Ascii("Divide by zero")
  const INVALID_OPERATION: seq<Byte> := Ascii("Invalid operation")

  /** The response buffer of a forked child, cleared with memset before compute. */
  const ZERO_RESPONSE: Response := Response(0, 0, Zeros(ERROR_MAX))

  /** What a response tells its reader: the result when `success` is nonzero, the
      error text (the C string in `error`) otherwise. */
  datatype Outcome = Value(result: Int64) | Failure(message: seq<Byte>)

  function OutcomeOf(rp: Response): Outcome
  {
    if rp.success != 0 then Value(rp.result) else Failure(CString(rp.error))
  }

  /** The part of the operation field compute looks at: memcmp compares 3 bytes. */
  function Code(operation: OpField): seq<Byte>
  {
    operation[..3]
  }

  lemma CodesDistinct()
    ensures |ADD| == |SUB| == |MUL| == |DIV| == 3
    ensures ADD != SUB && ADD != MUL && ADD != DIV && SUB != MUL && SUB != DIV && MUL != DIV
  {
    assert ADD[0] == 97 && SUB[0] == 115 && MUL[0] == 109 && DIV[0] == 100;
  }

  predicate IsKnownCode(code: seq<Byte>)
  {
    code == ADD || code == SUB || code == MUL || code == DIV
  }

  /** compute(): write into the response buffer `prior`. It first sets success = 1 and
      error[0] = NUL; `result` is assigned only when the operation succeeds, and only
      the error text and its NUL are written into `error`. */
  function Compute(rq: Request, prior: Response): (rp: Response)
    ensures rp.success == 0 || rp.success == 1
    ensures var code, b := Code(rq.operation), rq.operand2;
      rp.success == 1 <==> IsKnownCode(code) && !(code == DIV && b == 0)
    ensures rp.success == 1 ==> CString(rp.error) == []
    ensures rp.success == 0 ==> rp.result == prior.result
  {
    CodesDistinct();
    var a, b := rq.operand1, rq.operand2;
    var cleared := Cleared(prior);
    var code := Code(rq.operation);
    if code == ADD then cleared.(result := Wrap64(a + b))
    else if code == SUB then cleared.(result := Wrap64(a - b))
    else if code == MUL then cleared.(result := Wrap64(a * b))
    else if code == DIV && b != 0 then cleared.(result := Div64(a, b))
    else
      var msg := if code == DIV then DIVIDE_BY_ZERO else INVALID_OPERATION;
      cleared.(success := 0, error := Report(prior.error, cleared.error, msg))
  }

  /** `rp->success = 1; rp->error[0] = '\0';` */
  function Cleared(prior: Response): (r: Response)
    ensures r.result == prior.result && r.success == 1
    ensures CString(r.error) == [] && r.error[1..] == prior.error[1..]
  {
    prior.(success := 1, error := Snprintf(prior.error, []))
  }

  /** snprintf of an error message over the error buffer `cleared`, whose first byte
      was set to NUL in `original`: past the message and its NUL, `original` shows. */
  function Report(original: NameField, cleared: NameField, msg: seq<Byte>): (r: NameField)
    requires cleared[1..] == original[1..]
    requires msg == DIVIDE_BY_ZERO || msg == INVALID_OPERATION
    ensures CString(r) == msg
    ensures r[|msg| + 1..] == original[|msg| + 1..]
  {
    assert |msg| < ERROR_MAX && NoNul(msg);
    var r := Snprintf(cleared, msg);
    assert cleared[|msg| + 1..] == cleared[1..][|msg|..];
    assert original[|msg| + 1..] == original[1..][|msg|..];
    r
  }

  /** The value or message for each operation: add, sub and mul wrap modulo 2^64, div
      truncates toward zero. */
  lemma ComputeResult(rq: Request, prior: Response)
    ensures var rp, code, a, b := Compute(rq, prior), Code(rq.operation), rq.operand1, rq.operand2;
      && (code == ADD ==> rp.result == Wrap64(a + b))
      && (code == SUB ==> rp.result == Wrap64(a - b))
      && (code == MUL ==> rp.result == Wrap64(a * b))
      && (code == DIV && b != 0 ==> rp.result == Div64(a, b))
      && (code == DIV && b == 0 ==> CString(rp.error) == DIVIDE_BY_ZERO)
      && (!IsKnownCode(code) ==> CString(rp.error) == INVALID_OPERATION)
  {
    CodesDistinct();
  }

  /** compute writes into `error` only the message and its NUL. */
  lemma ComputeKeepsErrorTail(rq: Request, prior: Response)
    ensures var e := Compute(rq, prior).error;
      e[|CString(e)| + 1..] == prior.error[|CString(e)| + 1..]
  {
    CodesDistinct();
  }

  /** Only the first three operation bytes matter: the fourth never changes the response. */
  lemma ComputeIgnoresFourthByte(rq: Request, prior: Response, x: Byte)
    ensures Compute(rq.(operation := rq.operation[3 := x]), prior) == Compute(rq, prior)
  {
    assert Code(rq.operation[3 := x]) == Code(rq.operation);
  }

  /** The fork-failure fallback runs compute on an uninitialised buffer, the child on a
      cleared one: what the client reads from the two responses is the same. */
  lemma ComputeOutcomeIgnoresBuffer(rq: Request, prior: Response)
    ensures OutcomeOf(Compute(rq, prior)) == OutcomeOf(Compute(rq, ZERO_RESPONSE))
  {
  }

  /** The meaning of each response, in the client's terms: where the exact sum,
      difference or product fits in int64_t, that is the result. */
  lemma ComputeOutcomeExact(rq: Request, prior: Response)
    ensures var code, a, b := Code(rq.operation), rq.operand1, rq.operand2;
      var o, exact := OutcomeOf(Compute(rq, prior)),
        if code == ADD then a + b else if code == SUB then a - b else a * b;
      (code == ADD || code == SUB || code == MUL) && INT64_MIN <= exact <= INT64_MAX ==> o == Value(exact)
  {
    ComputeResult(rq, prior);
  }

  /** Division answers with the truncated quotient wherever that fits, reports a zero
      divisor, and any other code is reported as invalid. */
  lemma ComputeOutcomeDiv(rq: Request, prior: Response)
    ensures var code, a, b := Code(rq.operation), rq.operand1, rq.operand2;
      var o := OutcomeOf(Compute(rq, prior));
      && (code == DIV && b != 0 && !(a == INT64_MIN && b == -1) ==> o == Value(TruncDiv(a, b)))
      && (code == DIV && b == 0 ==> o == Failure(DIVIDE_BY_ZERO))
      && (!IsKnownCode(code) ==> o == Failure(INVALID_OPERATION))
  {
    ComputeResult(rq, prior);
    var code, a, b := Code(rq.operation), rq.operand1, rq.operand2;
    if code == DIV && b != 0 && !(a == INT64_MIN && b == -1) {
      DivAsWrittenUndefinedExactly(a, b);
    }
  }
}
