/** The two packed records of the service, request_msg_t and response_msg_t,
    as explicit byte layouts with fixed field offsets. */
module Wire {
  import opened Bytes

  const OP_MAX: nat := 4
  const RESP_NAME_MAX: nat := 128
  const ERROR_MAX: nat := 128

  /** sizeof(request_msg_t) and sizeof(response_msg_t) under __attribute__((packed)). */
  const REQUEST_SIZE: nat := 152
  const RESPONSE_SIZE: nat := 140

  type OpField = s: seq<Byte> | |s| == 4 witness [0, 0, 0, 0]
  type NameField = s: seq<Byte> | |s| == 128 witness Zeros(128)

  /** request_msg_t: operation at 0, operand1 at 4, operand2 at 12, client_pid at 20,
      resp_fifo at 24. The operation field need not be NUL-terminated. */
  datatype Request = Request(
    operation: OpField,
    operand1: Int64,
    operand2: Int64,
    clientPid: Int32,
    respFifo: NameField)

  /** response_msg_t: result at 0, success at 8, error at 12. */
  datatype Response = Response(result: Int64, success: Int32, error: NameField)

  function EncodeRequest(rq: Request): (b: seq<Byte>)
    ensures |b| == REQUEST_SIZE
  {
    rq.operation + EncodeInt64(rq.operand1) + EncodeInt64(rq.operand2)
      + EncodeInt32(rq.clientPid) + rq.respFifo
  }

  function DecodeRequest(b: seq<Byte>): (rq: Request)
    requires |b| == REQUEST_SIZE
  {
    Request(b[0..4], DecodeInt64(b[4..12]), DecodeInt64(b[12..20]),
            DecodeInt32(b[20..24]), b[24..152])
  }

  function EncodeResponse(rp: Response): (b: seq<Byte>)
    ensures |b| == RESPONSE_SIZE
  {
    EncodeInt64(rp.result) + EncodeInt32(rp.success) + rp.error
  }

  function DecodeResponse(b: seq<Byte>): (rp: Response)
    requires |b| == RESPONSE_SIZE
  {
    Response(DecodeInt64(b[0..8]), DecodeInt32(b[8..12]), b[12..140])
  }

  lemma RequestRoundTrip(rq: Request)
    ensures DecodeRequest(EncodeRequest(rq)) == rq
  {
    var b := EncodeRequest(rq);
    var head := rq.operation + EncodeInt64(rq.operand1) + EncodeInt64(rq.operand2) + EncodeInt32(rq.clientPid);
    TailOfConcat(head, rq.respFifo);
    assert b[0..4] == rq.operation;
    assert b[4..12] == EncodeInt64(rq.operand1);
    assert b[12..20] == EncodeInt64(rq.operand2);
    assert b[20..24] == EncodeInt32(rq.clientPid);
    Int64RoundTrip(rq.operand1);
    Int64RoundTrip(rq.operand2);
    Int32RoundTrip(rq.clientPid);
  }

  /** The bytes of the second part of a concatenation. */
  lemma TailOfConcat(p: seq<Byte>, q: seq<Byte>)
    ensures (p + q)[|p|..|p| + |q|] == q
  {
  }

  /** Every 152-byte string is the image of exactly one request: the layout has no padding. */
  lemma RequestBytesRoundTrip(b: seq<Byte>)
    requires |b| == REQUEST_SIZE
    ensures EncodeRequest(DecodeRequest(b)) == b
  {
    Int64BytesRoundTrip(b[4..12]);
    Int64BytesRoundTrip(b[12..20]);
    Int32BytesRoundTrip(b[20..24]);
    assert b == b[0..4] + b[4..12] + b[12..20] + b[20..24] + b[24..152];
  }

  lemma ResponseRoundTrip(rp: Response)
    ensures DecodeResponse(EncodeResponse(rp)) == rp
  {
    var b := EncodeResponse(rp);
    assert b[0..8] == EncodeInt64(rp.result);
    assert b[8..12] == EncodeInt32(rp.success);
    assert b[12..140] == rp.error;
    Int64RoundTrip(rp.result);
    Int32RoundTrip(rp.success);
  }

  lemma ResponseBytesRoundTrip(b: seq<Byte>)
    requires |b| == RESPONSE_SIZE
    ensures EncodeResponse(DecodeResponse(b)) == b
  {
    Int64BytesRoundTrip(b[0..8]);
    Int32BytesRoundTrip(b[8..12]);
    assert b == b[0..8] + b[8..12] + b[12..140];
  }
}
