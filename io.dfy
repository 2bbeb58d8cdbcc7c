/** The exact-length framing loops read_full and write_full, which server and
    client share word for word, run against a descriptor whose answers to
    read(2) and write(2) are given in advance as a script. */
module Io {
  import opened Bytes
  import opened Wrappers

  const EINTR: int := 4

  /** One answer of read(2): `Data(d)` delivers the bytes d (an empty d is the 0 of
      end of file); `ReadError(e)` is -1 with errno e. */
  datatype ReadEvent = Data(bytes: seq<Byte>) | ReadError(errno: int)

  /** One answer of write(2): `Accepted(k)` takes up to k of the bytes offered;
      `WriteError(e)` is -1 with errno e. */
  datatype WriteEvent = Accepted(count: nat) | WriteError(errno: int)

  /** What a read returns (`count`, `errno` when `count` is -1, the bytes) and the
      script left afterwards. */
  datatype ReadReply = ReadReply(count: int, errno: int, data: seq<Byte>, rest: seq<ReadEvent>)

  /** What a write returns and the script left afterwards. */
  datatype WriteReply = WriteReply(count: int, errno: int, rest: seq<WriteEvent>)

  /** What write_full returns, how many bytes went out, and the script left. */
  datatype SendReply = SendReply(count: int, errno: int, written: nat, rest: seq<WriteEvent>)

  /** read(fd, buf, max): never more than `max` bytes; a chunk longer than that is
      split and its tail stays in the pipe. An exhausted script reads as end of file. */
  function ReadStep(events: seq<ReadEvent>, max: nat): (s: ReadReply)
    ensures (s.count == -1 && s.data == []) || (s.count == |s.data| && |s.data| <= max)
    ensures |s.rest| <= |events|
    ensures |s.rest| == |events| ==> s.count == 0 || s.count == max
  {
    if events == [] then ReadReply(0, 0, [], [])
    else match events[0]
      case Data(d) =>
        if |d| <= max then ReadReply(|d|, 0, d, events[1..])
        else ReadReply(max, 0, d[..max], [Data(d[max..])] + events[1..])
      case ReadError(e) => ReadReply(-1, e, [], events[1..])
  }

  /** write(fd, buf, max): never more than `max` bytes. An exhausted script accepts
      everything offered. */
  function WriteStep(events: seq<WriteEvent>, max: nat): (s: WriteReply)
    ensures s.count == -1 || 0 <= s.count <= max
    ensures |s.rest| <= |events|
    ensures |s.rest| == |events| ==> s.count == max
  {
    if events == [] then WriteReply(max, 0, [])
    else match events[0]
      case Accepted(k) => WriteReply(if k < max then k else max, 0, events[1..])
      case WriteError(e) => WriteReply(-1, e, events[1..])
  }

  /** A file descriptor: the answers the OS will give to the next reads and writes,
      and every byte written through it so far. */
  class Channel {
    var readAnswers: seq<ReadEvent>
    var writeAnswers: seq<WriteEvent>
    var sent: seq<Byte>

    constructor (readAnswers: seq<ReadEvent>, writeAnswers: seq<WriteEvent>)
      ensures this.readAnswers == readAnswers && this.writeAnswers == writeAnswers && sent == []
    {
      this.readAnswers, this.writeAnswers, sent := readAnswers, writeAnswers, [];
    }

    /** read(2) into buf[off..off + max]. */
    method Read(buf: array<Byte>, off: nat, max: nat) returns (r: int, errno: int)
      requires off + max <= buf.Length
      modifies this`readAnswers, buf
      ensures var s := ReadStep(old(readAnswers), max);
        && r == s.count && errno == s.errno && readAnswers == s.rest
        && buf[..] == Splice(old(buf[..]), off, s.data)
    {
      var s := ReadStep(readAnswers, max);
      Store(buf, off, s.data);
      r, errno, readAnswers := s.count, s.errno, s.rest;
    }

    /** write(2) of buf[off..off + max]. */
    method Write(buf: array<Byte>, off: nat, max: nat) returns (w: int, errno: int)
      requires off + max <= buf.Length
      modifies this`writeAnswers, this`sent
      ensures var s := WriteStep(old(writeAnswers), max);
        && w == s.count && errno == s.errno && writeAnswers == s.rest
        && sent == old(sent) + (if w >= 0 then buf[off..off + w] else [])
    {
      var s := WriteStep(writeAnswers, max);
      w, errno, writeAnswers := s.count, s.errno, s.rest;
      if w >= 0 {
        sent := sent + buf[off..off + w];
      }
    }
  }

  /** The read_full loop as a function of the script: `got` is what is in the buffer. */
  function ReadLoop(events: seq<ReadEvent>, n: nat, got: seq<Byte>): ReadReply
    requires |got| <= n
    decreases |events|, n - |got|
  {
    if |got| == n then ReadReply(n, 0, got, events)
    else
      var s := ReadStep(events, n - |got|);
      if s.count == 0 then ReadReply(|got|, 0, got, s.rest)
      else if s.count < 0 then
        if s.errno == EINTR then ReadLoop(s.rest, n, got) else ReadReply(-1, s.errno, got, s.rest)
      else ReadLoop(s.rest, n, got + s.data)
  }

  /** The write_full loop as a function of the script: `off` bytes are out. */
  function WriteLoop(events: seq<WriteEvent>, n: nat, off: nat): SendReply
    requires off <= n
    decreases |events|, n - off
  {
    if off == n then SendReply(n, 0, n, events)
    else
      var s := WriteStep(events, n - off);
      if s.count < 0 then
        if s.errno == EINTR then WriteLoop(s.rest, n, off) else SendReply(-1, s.errno, off, s.rest)
      else WriteLoop(s.rest, n, off + s.count)
  }

  /** read_full(fd, buf, n): read until n bytes are in, retrying on EINTR. */
  method ReadFull(fd: Channel, buf: array<Byte>, n: nat) returns (r: int, errno: int)
    requires n <= buf.Length
    modifies fd`readAnswers, buf
    ensures var spec := ReadLoop(old(fd.readAnswers), n, []);
      && r == spec.count && errno == spec.errno && fd.readAnswers == spec.rest
      && |spec.data| <= n && buf[..|spec.data|] == spec.data
      && (r >= 0 ==> r == |spec.data|)
    ensures var k := |ReadLoop(old(fd.readAnswers), n, []).data|; buf[k..] == old(buf[k..])
  {
    var off: nat := 0;
    while off < n
      invariant off <= n
      invariant ReadLoop(fd.readAnswers, n, buf[..off]) == ReadLoop(old(fd.readAnswers), n, [])
      invariant buf[off..] == old(buf[off..])
      decreases |fd.readAnswers|, n - off
    {
      ghost var before, tail, script := buf[..off], buf[off..], fd.readAnswers;
      var got, e := fd.Read(buf, off, n - off);
      ghost var s := ReadStep(script, n - off);
      if got == 0 {
        assert buf[..off] == before && buf[off..] == tail;
        return off, 0;
      }
      if got < 0 {
        assert buf[..off] == before && buf[off..] == tail;
        if e == EINTR {
          continue;
        }
        return -1, e;
      }
      assert buf[..off + got] == before + s.data;
      assert buf[off + got..] == tail[got..];
      off := off + got;
    }
    return off, 0;
  }

  /** write_full(fd, buf, n): write until n bytes are out, retrying on EINTR. */
  method WriteFull(fd: Channel, buf: array<Byte>, n: nat) returns (r: int, errno: int)
    requires n <= buf.Length
    modifies fd`writeAnswers, fd`sent
    ensures var spec := WriteLoop(old(fd.writeAnswers), n, 0);
      && r == spec.count && errno == spec.errno && fd.writeAnswers == spec.rest
      && spec.written <= n && fd.sent == old(fd.sent) + buf[..spec.written]
  {
    var off: nat := 0;
    while off < n
      invariant off <= n
      invariant WriteLoop(fd.writeAnswers, n, off) == WriteLoop(old(fd.writeAnswers), n, 0)
      invariant fd.sent == old(fd.sent) + buf[..off]
      decreases |fd.writeAnswers|, n - off
    {
      var w, e := fd.Write(buf, off, n - off);
      if w < 0 {
        if e == EINTR {
          continue;
        }
        return -1, e;
      }
      assert buf[..off + w] == buf[..off] + buf[off..off + w];
      off := off + w;
    }
    return off, 0;
  }

  /** What a descriptor delivers, independently of how it is read: the bytes of its
      data chunks up to its end of file, interruptions skipped; `failed` when a hard
      error comes before the end of file. */
  datatype Delivery = Delivery(bytes: seq<Byte>, failed: bool)

  function Delivered(events: seq<ReadEvent>): Delivery
  {
    if events == [] then Delivery([], false)
    else match events[0]
      case Data(d) =>
        if d == [] then Delivery([], false)
        else var tail := Delivered(events[1..]); Delivery(d + tail.bytes, tail.failed)
      case ReadError(e) => if e == EINTR then Delivered(events[1..]) else Delivery([], true)
  }

  /** read_full frames exactly: with `got` already in the buffer it returns the first n
      bytes of the stream when that many arrive; otherwise -1 (never for EINTR) if a
      hard error ends the stream, or the short count of everything up to end of file. */
  lemma {:induction false} ReadLoopDelivers(events: seq<ReadEvent>, n: nat, got: seq<Byte>)
    requires |got| <= n
    ensures var res, d := ReadLoop(events, n, got), Delivered(events);
      if |got| + |d.bytes| >= n then res.count == n && res.data == (got + d.bytes)[..n]
      else if d.failed then res.count == -1 && res.errno != EINTR && res.data == got + d.bytes
      else res.count == |got| + |d.bytes| && res.data == got + d.bytes
    decreases |events|, n - |got|
  {
    if |got| < n && events != [] {
      var s := ReadStep(events, n - |got|);
      match events[0]
      case Data(d) =>
        if d != [] {
          var tail := Delivered(events[1..]);
          assert got + (d + tail.bytes) == (got + d) + tail.bytes;
          if |d| <= n - |got| {
            ReadLoopDelivers(events[1..], n, got + d);
          } else {
            assert (got + d + tail.bytes)[..n] == got + d[..n - |got|];
          }
        }
      case ReadError(e) =>
        if e == EINTR {
          ReadLoopDelivers(events[1..], n, got);
        }
    }
  }

  /** read_full returns -1 (with an errno other than EINTR), n, or a short count that
      means end of file; a non-negative count is the number of bytes in the buffer. */
  lemma ReadFullResult(events: seq<ReadEvent>, n: nat)
    ensures var res := ReadLoop(events, n, []);
      && (res.count == -1 || 0 <= res.count <= n)
      && (res.count == -1 ==> res.errno != EINTR && Delivered(events).failed)
      && (res.count >= 0 ==> |res.data| == res.count)
      && (0 <= res.count < n ==> !Delivered(events).failed && Delivered(events).bytes == res.data)
  {
    ReadLoopDelivers(events, n, []);
  }

  /** How many bytes the OS takes before its first hard write error, interruptions
      skipped; None when no hard error comes (the script then ends accepting all). */
  function Budget(events: seq<WriteEvent>): Option<nat>
  {
    if events == [] then None
    else match events[0]
      case Accepted(k) => (match Budget(events[1..]) case None => None case Some(t) => Some(k + t))
      case WriteError(e) => if e == EINTR then Budget(events[1..]) else Some(0)
  }

  /** write_full with `off` bytes already out returns n once the OS has taken the rest,
      and -1 (never for EINTR) exactly when a hard error comes first, leaving
      everything the OS took before it written. */
  lemma {:induction false} WriteLoopCompletes(events: seq<WriteEvent>, n: nat, off: nat)
    requires off <= n
    ensures var res, b := WriteLoop(events, n, off), Budget(events);
      if b == None || off + b.value >= n then res.count == n && res.written == n
      else res.count == -1 && res.errno != EINTR && res.written == off + b.value
    decreases |events|, n - off
  {
    if off < n && events != [] {
      match events[0]
      case Accepted(k) =>
        if k < n - off {
          WriteLoopCompletes(events[1..], n, off + k);
        }
      case WriteError(e) =>
        if e == EINTR {
          WriteLoopCompletes(events[1..], n, off);
        }
    }
  }
}
