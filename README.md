# FIFO arithmetic service — a Dafny model

The service is a C client/server pair that talks through named pipes. The server
reads fixed-size `request_msg_t` records from the well-known FIFO
`/tmp/arith_req_fifo`. For each full record it forks a child, which runs
`compute` and writes a fixed-size `response_msg_t` to the FIFO named in the
request. The client reads an operation and two integers from the terminal, builds
the request record and sends it. It then reads one response from its own FIFO,
`/tmp/arith_resp_<pid>.fifo`.

This project models the sequential core of both programs and proves what they
promise:

- **Bytes** (`bytes.dfy`): bytes, `int64_t`/`int32_t` as little-endian two's
  complement, and C strings. Covers `strlen` and `snprintf` into a buffer, plus
  the byte-range store that `memset`/`memcpy`/`strncpy` perform.
- **Wire** (`wire.dfy`): the two packed records as explicit 152-byte and
  140-byte layouts, with both round trips.
- **Arith** (`arith.dfy`): C's truncating division, the wrapping of `+ - *`, and
  the one division the source leaves undefined.
- **Worker** (`worker.dfy`): `compute`, as a function from the request and the
  prior contents of the response buffer to the new response.
- **Io** (`io.dfy`): `read_full` and `write_full`, one copy shared by both
  programs, as loops over a `Channel` object. The channel's answers to `read(2)`
  and `write(2)` are a script given in advance. Each loop is proved equal to a
  function of that script, and that function is characterised by what the
  descriptor delivers.
- **Dispatcher** (`dispatcher.dfy`): the server's `for(;;)` loop.
  - It is a `Server` class whose fields are the request channel, the reopen
    count, the loop's status and the responses computed so far.
  - The stop flag and the fork results are inputs.
  - It proves how each `read_full` result is classified, that exactly the
    full-length reads are dispatched, in arrival order, and how the loop ends.
- **Client** (`client.dfy`): the client's side of one exchange:
  - `trim_newline` in place on an array and `is_valid_op` (via `strcmp`);
  - the reply-path `snprintf` with `%d`;
  - building the request record in place;
  - the exchange with its "whole response or nothing" check;
  - an end-to-end lemma from the typed line to the outcome shown.

Inputs the programs take from the OS are parameters:

- the read/write answer scripts;
- the stop flag as seen at each iteration;
- whether each `fork` succeeds;
- the process ID;
- the initial contents of uninitialised stack buffers (for the fallback, one buffer per pass of the loop).

Where the source's comments and its code disagree, the model follows the code.
The comment at client.c:39 says `read_full` returns -1 on a short read at end of
file. The code returns the short count instead, and `Io.ReadFull` /
`Io.ReadFullResult` state what the code does.

## Model

| member | source | states |
|---|---|---|
| Bytes.Int64RoundTrip | server.c:32-33 | decoding the 8 bytes of an `int64_t` gives back the value |
| Bytes.Int64BytesRoundTrip | client.c:26-27 | every 8-byte string is the image of exactly one `int64_t` |
| Bytes.Int32RoundTrip | server.c:34 | decoding the 4 bytes of a `pid_t`/`int32_t` gives back the value |
| Bytes.Int32BytesRoundTrip | client.c:28 | every 4-byte string is the image of exactly one `int32_t` |
| Bytes.CStrLen | client.c:64 | `strlen`: no NUL before the result, and a NUL at it unless the buffer ends there |
| Bytes.CStringOfTerminated | server.c:112 | a NUL-free text followed by a NUL is read back as exactly that text |
| Bytes.CStrLenOfPrefix | client.c:110 | the first NUL does not move when bytes after it are cut off |
| Bytes.Snprintf | server.c:118 | `snprintf(buf, size, "%s", t)`: the C string is `t` cut to size - 1 bytes, the length is unchanged, and bytes after the NUL keep their old contents |
| Bytes.Store | client.c:108 | an in-place copy makes the array equal to the old contents with `x` spliced in at `off` |
| Wire.RequestRoundTrip | server.c:30-36 | decoding an encoded `request_msg_t` gives back every field |
| Wire.RequestBytesRoundTrip | client.c:24-30 | every 152-byte record decodes and re-encodes to itself (the packed layout has no padding) |
| Wire.ResponseRoundTrip | server.c:39-43 | decoding an encoded `response_msg_t` gives back every field |
| Wire.ResponseBytesRoundTrip | client.c:33-37 | every 140-byte record decodes and re-encodes to itself |
| Arith.Wrap64 | server.c:114-116 | the wrapped value is congruent to the exact one modulo 2^64, and equals it when it fits |
| Arith.TruncDiv | server.c:119 | C's `/`: the magnitude is the floor of \|a\|/\|b\|, and a nonzero quotient has the product of the operands' signs |
| Arith.TruncDivRemainder | server.c:119 | the matching remainder is smaller than the divisor in magnitude and never opposite in sign to the dividend |
| Arith.DivAsWrittenTraps | server.c:119 | the source's `a/b` has no int64_t value for INT64_MIN / -1 |
| Arith.DivAsWrittenUndefinedExactly | server.c:119 | that is the only nonzero-divisor pair without a value |
| Arith.Div64 | server.c:119 | the corrected division agrees with the source wherever the source's is defined, and gives INT64_MIN on the trapping pair |
| Worker.Compute | server.c:111-121 | `success` is 1 exactly for add/sub/mul, and for div with a nonzero divisor; then the error string is empty; otherwise `result` is untouched |
| Worker.Cleared | server.c:112 | `success = 1; error[0] = 0` empties the error string and changes nothing else |
| Worker.Report | server.c:118-120 | the error buffer reads as the message, and only the message and its NUL are written |
| Worker.ComputeResult | server.c:113-120 | add/sub/mul give `a+b`/`a-b`/`a*b` wrapped, div gives the truncated quotient, and a zero divisor or unknown code gives "Divide by zero" / "Invalid operation" |
| Worker.ComputeKeepsErrorTail | server.c:112-120 | bytes of `error` past the reported message's NUL keep their prior contents |
| Worker.ComputeOutcomeExact | server.c:114-116 | where the exact sum, difference or product fits in `int64_t`, the client sees exactly that value |
| Worker.ComputeOutcomeDiv | server.c:117-120 | division shows `TruncDiv(a, b)` (except INT64_MIN / -1), a zero divisor shows "Divide by zero", and any other code shows "Invalid operation" |
| Worker.ComputeIgnoresFourthByte | server.c:114-117 | changing the fourth operation byte never changes the response |
| Worker.ComputeOutcomeIgnoresBuffer | server.c:175-183 | what the client reads from the response is the same whether compute ran on a cleared or an uninitialised buffer |
| Io.ReadStep | server.c:91 | one `read`: -1 with no data, or a count equal to the bytes delivered and at most the amount asked |
| Io.WriteStep | server.c:103 | one `write`: -1, or a count between 0 and the amount offered |
| Io.Channel.Read | server.c:91 | the answer is consumed from the script and its bytes land at `buf[off..]` |
| Io.Channel.Write | server.c:103 | the answer is consumed from the script, and the accepted prefix of `buf[off..]` is appended to what was sent |
| Io.ReadFull | server.c:88-97 | the loop returns what the `ReadLoop` specification gives; the buffer starts with the bytes read and every byte after them keeps its old contents, on a short read or an error too; a non-negative result is the number of bytes read |
| Io.WriteFull | server.c:100-108 | the loop returns what the `WriteLoop` specification gives; exactly the first `written <= n` bytes of the buffer were sent |
| Io.ReadLoopDelivers | server.c:88-97 | `read_full` returns n and the first n bytes of the stream when that many arrive; otherwise -1 (never for EINTR) on a hard error, or the short count at end of file |
| Io.ReadFullResult | client.c:40-49 | the result is -1, n or a short count; a short count means end of file and is exactly everything delivered; -1 means a hard error |
| Io.WriteLoopCompletes | client.c:52-60 | `write_full` returns n once the OS has taken every byte, and -1 (never for EINTR) exactly when a hard error comes first, with everything taken before it counted as written |
| Dispatcher.ClassifyReadFull | server.c:149-157 | the result of reading one request: dispatch iff a whole record arrives, reopen iff the stream is at end of file, skip a partial record followed by end of file, die on a hard error before a whole record; the EINTR retry is never reached |
| Dispatcher.TraceExtend | server.c:150-157 | one more read adds its record to the dispatched list iff it is full, counts a reopen iff it hit end of file, and keeps the loop alive iff it was not fatal |
| Dispatcher.SurvivesExactly | server.c:156 | the loop survived a trace iff no read in it was fatal |
| Dispatcher.FullRecordsAreDispatched | server.c:149-157 | every full-length read occurs in the dispatched list, at the position given by the full reads before it |
| Dispatcher.RepliesExtend | server.c:171-183 | appending the reply for the next full record keeps replies and records matched one to one, in order |
| Dispatcher.Answer | server.c:171-183 | whichever process computes the k-th record (a child on a cleared buffer, or the loop on that pass's uninitialised buffer when the k-th fork fails), the client reads from the reply what a child's response would show |
| Dispatcher.Server.Receive | server.c:148-149 | one `read_full` of a request: the script advances by one read, and a dispatched buffer holds exactly the record read |
| Dispatcher.Server.Step | server.c:148-179 | one loop pass after the stop check keeps the whole account: the trace of reads, the reopen count and one reply per full record, in order |
| Dispatcher.Server.Serve | server.c:144-179 | after the loop, the reads match the script, the reopens equal the end-of-file reads, and the replies are one per full record in arrival order, each fallback computed over its own pass's buffer; the stop flag was clear before every read; the loop stops at a set flag with no fatal read, or dies at its first fatal read |
| Dispatcher.FallbackAnswersLikeChild | server.c:172-183 | the fork-failure fallback's response reads the same as the child's would |
| Dispatcher.FallbackBytesMayDiffer | server.c:175-183 | but not always as the same bytes: a failed division keeps the stale `result` |
| Client.TrimEnd | client.c:63-66 | the trimmed text is a prefix of the input, has no trailing CR/LF, and only CR/LF were removed |
| Client.TrimEndUnique | client.c:63-66 | that contract determines the trimmed text |
| Client.TrimEndIdempotent | client.c:63-66 | trimming twice is trimming once |
| Client.TrimNewline | client.c:63-66 | in place: the trailing CR/LF bytes of the C string become NUL, nothing else changes, and the C string left is `TrimEnd` of the old one |
| Client.TrimmedLayout | client.c:65 | blanking the trailing line endings leaves exactly the trimmed text as the C string |
| Client.Strcmp | client.c:70 | `strcmp` is 0 iff both C strings are equal |
| Client.IsValidOpExactly | client.c:69-71 | `is_valid_op` holds iff the line is "add", "sub", "mul" or "div", which are exactly the codes compute knows, and then its length is 3 |
| Client.DecimalRoundTrip | client.c:76 | `%d` prints an optional minus sign and digits, and reading them back gives the number |
| Client.DecimalOfInt32 | client.c:76 | a pid prints in 1 to 11 bytes, none of them NUL |
| Client.ReplyPathText | client.c:76 | the reply path is at most 32 bytes with no NUL |
| Client.ReplyPathComplete | client.c:76 | `snprintf` into the 128-byte buffer never truncates: the buffer holds the whole path, NUL-terminated |
| Client.ReplyPathsDistinct | client.c:76 | different pids name different reply FIFOs |
| Client.Strncpy | client.c:110 | `strncpy(dst, src, n)` fills exactly n bytes: the bytes of `src` before its first NUL within n, then NUL up to n |
| Client.OperationFieldText | client.c:106-108 | the operation field holds the first min(4, strlen(line)) bytes of the line, and the rest is NUL |
| Client.ValidOperationField | client.c:106-108 | for a validated line, the worker's three-byte code is the typed operation and byte 3 is NUL |
| Client.RespFifoField | client.c:106-110 | `resp_fifo` holds at most 127 bytes of the path and is NUL after them, including the 128th byte; it names the whole path when the path is shorter than 127 bytes |
| Client.RequestReachesWorker | client.c:106-110 | the server decodes the typed code, the two operands, the pid and the reply path from the record the client built |
| Client.OperationLayout | client.c:106-108 | zeroing the record and then copying the operation gives the operation field followed by zeros |
| Client.HeaderLayout | client.c:106-109 | then storing the operands and the pid gives the fixed fields followed by zeros |
| Client.RecordLayout | client.c:106-110 | then copying the reply path lays out exactly the encoded request |
| Client.BuildRequest | client.c:106-110 | in place: the record array ends up holding exactly the encoding of the request built from the line, operands, pid and path |
| Client.Accept | client.c:127-133 | a negative or short count fails and reports that count; a whole record is always received, showing the result iff `success` is nonzero and the error text otherwise |
| Client.Exchange | client.c:116-133 | sending and receiving through the two channels gives what the `ExchangeResult` specification says; what was sent is the accepted prefix of the record; a failed send reads nothing |
| Client.ExchangeDelivers | client.c:116-133 | the send fails iff a hard write error comes before the whole request is out, and a response is shown iff a whole record arrives, which is then its first 140 bytes |
| Client.RoundTrip | client.c:106-133 | a valid line, sent to a server that answers with compute's record, is shown as compute's outcome for the typed operation and operands |

## Left out

- `mkfifo`, `open`, `close`, `unlink` and `cleanup` (server.c:51-56, 133-139, 151-153; client.c:81, 114-121, 136) are filesystem and pipe plumbing. Reopening after end of file is counted, and a failing reopen (`die("reopen")`) is not modelled: the reopened descriptor keeps the same script.
- `fork`, `_exit`, the signal handlers and `waitpid` are process concurrency. The stop flag seen at each iteration and the result of each `fork` are inputs to `Dispatcher.Server.Serve`.
- Opening and writing the reply FIFO, in the child (server.c:200-220) and in the fallback (server.c:176-177), is out of scope. The model records the computed response, not its delivery.
- `log_line`, `printf`, `fprintf`, `perror` and `strerror` are output only.
- `fgets`, `scanf` and `getchar`, the prompt loop and the `"exit"` check (client.c:86-103) are library terminal I/O. The line, the two operands and the pid are inputs.
- `printf("%s", rp.error)` on a response whose error field has no NUL is not modelled. `Client.Accept` reports the C string of the whole field.
- Host byte order and struct layout: little-endian and packed, as on x86-64.
- The OS is a finite script. An exhausted read script reads as end of file, and an exhausted write script accepts everything. The loop stops when its script of stop flags runs out.
- Dispatcher.Server.Serve: a fatal read ends the loop with status `Died`. Running the `atexit` cleanup is not modelled.
- Worker.Compute: signed overflow of `+`, `-` and `*` is undefined in C. It is modelled as wrap-around modulo 2^64, which is what the compiled code does on x86-64.
- Dispatcher.FallbackAnswersLikeChild: the fallback's response is the same only as the client reads it, not byte for byte (see `Dispatcher.FallbackBytesMayDiffer`).

## Findings

| source | as written | input that shows it | evidently intended | confidence | as-written member | corrected member |
|---|---|---|---|---|---|---|
| server.c:119 | `rp->result=a/b` for every nonzero `b` | `div` with a = INT64_MIN, b = -1: the quotient 2^63 does not fit, which C leaves undefined and `idiv` turns into SIGFPE, killing the worker with no response | a response for every request; the model wraps the quotient like the other operations (INT64_MIN) | high that the quotient is undefined; not executed | Arith.DivAsWrittenTraps | Arith.Div64 |
