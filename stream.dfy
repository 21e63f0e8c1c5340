/** A stream socket as the programs see it through `recv` and `send`.

    The receiving side is a script of what successive `recv` calls find: a
    run of bytes that has arrived, an interruption (EINTR on POSIX), or a
    hard error. An exhausted script is an orderly close by the peer, after
    which every `recv` returns 0. One `recv` of at most `n` bytes takes up to
    `n` bytes of the first run and leaves the remainder for the next call.

    The sending side, as the handlers use it, is the log of bytes handed to
    `send_line`/`send_all`; the partial-write behaviour of `send` itself is
    scripted separately in `Sink`, for the `send_all` loops. */
module Stream {
  import opened Text

  /** A run of bytes that has arrived; never empty. */
  type Chunk = s: seq<char> | |s| > 0 witness [NUL]

  datatype RecvEvent = Data(bytes: Chunk) | Interrupted | Fault

  /** What one `recv` call returns: bytes, 0 (peer closed), or -1 with
      errno EINTR or another errno. */
  datatype Recvd = Got(bytes: seq<char>) | Closed | Eintr | Error

  /** A size of the script that every `recv` other than one on a closed
      stream decreases. */
  function Size(inbox: seq<RecvEvent>): nat {
    if inbox == [] then 0
    else (if inbox[0].Data? then |inbox[0].bytes| else 0) + 1 + Size(inbox[1..])
  }

  /** The bytes the peer still delivers before the first hard error. */
  function Pending(inbox: seq<RecvEvent>): seq<char> {
    if inbox == [] then []
    else match inbox[0]
      case Data(b) => b + Pending(inbox[1..])
      case Interrupted => Pending(inbox[1..])
      case Fault => []
  }

  /** The peer closes without sending anything more: only interruptions
      precede the close. */
  predicate ClosesBeforeData(inbox: seq<RecvEvent>) {
    forall i :: 0 <= i < |inbox| ==> inbox[i].Interrupted?
  }

  /** What a receiving loop ends with: its return value, the bytes it stored
      and the rest of the stream. */
  datatype Fill = Fill(result: int, bytes: seq<char>, rest: seq<RecvEvent>)

  /** One `recv(fd, p, n, 0)` with `n > 0`. */
  function RecvStep(inbox: seq<RecvEvent>, n: nat): (res: (Recvd, seq<RecvEvent>))
    requires n > 0
    ensures res.0.Got? ==> 0 < |res.0.bytes| <= n && Size(res.1) < Size(inbox)
    ensures res.0.Got? ==> res.0.bytes + Pending(res.1) == Pending(inbox)
    ensures res.0.Eintr? ==> Size(res.1) < Size(inbox) && Pending(res.1) == Pending(inbox)
    ensures res.0.Error? ==> Size(res.1) < Size(inbox) && Pending(inbox) == []
    ensures res.0.Closed? <==> inbox == []
    ensures res.0.Closed? ==> res.1 == []
  {
    if inbox == [] then (Closed, [])
    else match inbox[0]
      case Interrupted => (Eintr, inbox[1..])
      case Fault => (Error, inbox[1..])
      case Data(b) =>
        if n < |b| then
          var rest := [Data(b[n..])] + inbox[1..];
          assert rest[1..] == inbox[1..];
          assert b[..n] + b[n..] == b;
          (Got(b[..n]), rest)
        else (Got(b), inbox[1..])
  }

  /** A connection's two directions. */
  class Conn {
    var inbox: seq<RecvEvent>
    var outbox: seq<char>

    constructor (script: seq<RecvEvent>)
      ensures inbox == script && outbox == []
    {
      inbox := script;
      outbox := [];
    }

    /** `recv(fd, buf + at, n, 0)`: the bytes received land in `buf` from
        `at` on. */
    method RecvInto(buf: array<char>, at: nat, n: nat) returns (r: Recvd)
      requires n > 0 && at + n <= buf.Length
      modifies this, buf
      ensures (r, inbox) == RecvStep(old(inbox), n) && outbox == old(outbox)
      ensures r.Got? ==> buf[..] == old(buf[..at]) + r.bytes + old(buf[at + |r.bytes|..])
      ensures r.Got? ==> buf[..at + |r.bytes|] == old(buf[..at]) + r.bytes
      ensures r.Got? ==> buf[at + |r.bytes|..] == old(buf[at + |r.bytes|..])
      ensures !r.Got? ==> buf[..] == old(buf[..])
    {
      var step := RecvStep(inbox, n);
      r := step.0;
      inbox := step.1;
      if r.Got? {
        var b := r.bytes;
        forall i | 0 <= i < |b| {
          buf[at + i] := b[i];
        }
        assert buf[..] == old(buf[..at]) + b + old(buf[at + |b|..]);
      }
    }

    /** `send_line`/`send_all` as the handlers use them: the bytes go out. */
    method Send(bytes: seq<char>)
      modifies this
      ensures outbox == old(outbox) + bytes && inbox == old(inbox)
    {
      outbox := outbox + bytes;
    }
  }

  /** What one `send` call does: accept some of the bytes offered, fail with
      EINTR, or fail hard. */
  datatype SendEvent = Accept(k: nat) | SendInterrupted | SendFault

  /** What `send` returns: a byte count, or -1 with EINTR or another errno. */
  datatype Sent = Wrote(count: nat) | SendEintr | SendError

  /** One `send(fd, p, n, 0)`; once the script is exhausted every send
      accepts everything offered. */
  function SendStep(plan: seq<SendEvent>, n: nat): (res: (Sent, seq<SendEvent>))
    ensures res.0.Wrote? ==> res.0.count <= n
    ensures plan == [] ==> res == (Wrote(n), [])
    ensures plan != [] ==> res.1 == plan[1..]
  {
    if plan == [] then (Wrote(n), [])
    else match plan[0]
      case Accept(k) => (Wrote(if k < n then k else n), plan[1..])
      case SendInterrupted => (SendEintr, plan[1..])
      case SendFault => (SendError, plan[1..])
  }

  /** The sending side of a socket, for the `send_all` loops: the script of
      what `send` does and the bytes the peer has been given. */
  class Sink {
    var plan: seq<SendEvent>
    var delivered: seq<char>

    constructor (script: seq<SendEvent>)
      ensures plan == script && delivered == []
    {
      plan := script;
      delivered := [];
    }

    /** `send(fd, buf + at, n, 0)`. */
    method SendFrom(buf: array<char>, at: nat, n: nat) returns (r: Sent)
      requires at + n <= buf.Length
      modifies this
      ensures (r, plan) == SendStep(old(plan), n)
      ensures delivered == old(delivered) + (if r.Wrote? then buf[at..at + r.count] else [])
    {
      var step := SendStep(plan, n);
      r := step.0;
      plan := step.1;
      if r.Wrote? {
        delivered := delivered + buf[at..at + r.count];
      }
    }
  }
}
