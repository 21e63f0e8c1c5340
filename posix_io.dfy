/** Framed I/O of the POSIX programs: `send_all`, `recv_all` and `recv_line`,
    which server.c and client.c define identically. Interrupted calls are
    retried; `recv` returning 0 ends a loop early. */
module PosixIo {
  import opened Text
  import opened Stream

  /** `recv_all` from the point where `got` has been received. */
  function RecvAllFrom(inbox: seq<RecvEvent>, len: nat, got: seq<char>): Fill
    requires |got| <= len
    decreases len - |got|, Size(inbox)
  {
    if |got| == len then Fill(len, got, inbox)
    else
      var step := RecvStep(inbox, len - |got|);
      match step.0
      case Got(b) => RecvAllFrom(step.1, len, got + b)
      case Eintr => RecvAllFrom(step.1, len, got)
      case Error => Fill(-1, got, step.1)
      case Closed => Fill(|got|, got, step.1)
  }

  /** `recv_line` from the point where `got` has been stored. */
  function RecvLineFrom(inbox: seq<RecvEvent>, cap: nat, got: seq<char>): Fill
    requires |got| < cap
    decreases cap - |got|, Size(inbox)
  {
    if |got| + 1 >= cap then Fill(|got|, got, inbox)
    else
      var step := RecvStep(inbox, 1);
      match step.0
      case Got(b) =>
        if b[0] == '\n' then Fill(|got| + 1, got + b, step.1)
        else RecvLineFrom(step.1, cap, got + b)
      case Eintr => RecvLineFrom(step.1, cap, got)
      case Error => Fill(-1, got, step.1)
      case Closed => Fill(|got|, got, step.1)
  }

  /** `send_all` from the point where `sent` bytes have gone: its return
      value and the rest of the send script. */
  function SendAllFrom(plan: seq<SendEvent>, len: nat, sent: nat): (res: (int, seq<SendEvent>))
    requires sent <= len
    decreases len - sent, |plan|
  {
    if sent == len then (len, plan)
    else
      var step := SendStep(plan, len - sent);
      match step.0
      case Wrote(k) => if k == 0 then (sent, step.1) else SendAllFrom(step.1, len, sent + k)
      case SendEintr => SendAllFrom(step.1, len, sent)
      case SendError => (-1, step.1)
  }

  /** `recv_all(fd, buf, len)`: receive until `len` bytes are in `buf`. */
  method RecvAll(c: Conn, buf: array<char>, len: nat) returns (r: int)
    requires len <= buf.Length
    modifies c, buf
    ensures var f := RecvAllFrom(old(c.inbox), len, []);
      r == f.result && c.inbox == f.rest && |f.bytes| <= len &&
      buf[..] == f.bytes + old(buf[|f.bytes|..])
    ensures c.outbox == old(c.outbox)
  {
    ghost var inbox0 := c.inbox;
    var recvd := 0;
    while recvd < len
      invariant recvd <= len
      invariant RecvAllFrom(c.inbox, len, buf[..recvd]) == RecvAllFrom(inbox0, len, [])
      invariant buf[recvd..] == old(buf[recvd..])
      invariant c.outbox == old(c.outbox)
      decreases len - recvd, Size(c.inbox)
    {
      var n := c.RecvInto(buf, recvd, len - recvd);
      match n
      case Eintr =>
      case Error =>
        SplitAt(buf[..], old(buf[..]), recvd);
        return -1;
      case Closed =>
        break;
      case Got(b) =>
        recvd := recvd + |b|;
    }
    SplitAt(buf[..], old(buf[..]), recvd);
    r := recvd;
  }

  /** `recv_line(fd, out, cap)`: read byte by byte until '\n' (kept) or
      `cap - 1` bytes, then NUL-terminate. */
  method RecvLine(c: Conn, out: array<char>, cap: nat) returns (r: int)
    requires 1 <= cap <= out.Length
    modifies c, out
    ensures var f := RecvLineFrom(old(c.inbox), cap, []);
      r == f.result && c.inbox == f.rest && |f.bytes| < cap &&
      out[..|f.bytes|] == f.bytes &&
      (r > 0 ==> out[|f.bytes|] == NUL) &&
      forall i :: |f.bytes| < i < out.Length ==> out[i] == old(out[i])
    ensures c.outbox == old(c.outbox)
  {
    ghost var inbox0 := c.inbox;
    var i := 0;
    while i + 1 < cap
      invariant i < cap
      invariant RecvLineFrom(c.inbox, cap, out[..i]) == RecvLineFrom(inbox0, cap, [])
      invariant forall j :: i <= j < out.Length ==> out[j] == old(out[j])
      invariant c.outbox == old(c.outbox)
      decreases cap - i, Size(c.inbox)
    {
      ghost var before := out[..];
      var n := c.RecvInto(out, i, 1);
      match n
      case Eintr =>
      case Error =>
        return -1;
      case Closed =>
        if i == 0 {
          return 0;
        }
        break;
      case Got(b) =>
        assert out[..i + 1] == before[..i] + b;
        i := i + 1;
        if b[0] == '\n' {
          break;
        }
    }
    out[i] := NUL;
    r := i;
  }

  /** `send_all(fd, buf, len)`: send until `len` bytes are out. */
  method SendAll(s: Sink, buf: array<char>, len: nat) returns (r: int)
    requires len <= buf.Length
    modifies s
    ensures (r, s.plan) == SendAllFrom(old(s.plan), len, 0)
    ensures r >= 0 ==> r <= len && s.delivered == old(s.delivered) + buf[..r]
  {
    ghost var plan0 := s.plan;
    var sent := 0;
    while sent < len
      invariant sent <= len
      invariant SendAllFrom(s.plan, len, sent) == SendAllFrom(plan0, len, 0)
      invariant s.delivered == old(s.delivered) + buf[..sent]
      decreases len - sent, |s.plan|
    {
      var n := s.SendFrom(buf, sent, len - sent);
      match n
      case SendEintr =>
      case SendError =>
        return -1;
      case Wrote(k) =>
        if k == 0 {
          break;
        }
        assert buf[..sent + k] == buf[..sent] + buf[sent..sent + k];
        sent := sent + k;
    }
    r := sent;
  }

  /** `recv_all` returns exactly `len`, or -1 on a hard error, or a shorter
      count only when the peer has closed; whatever it returns, it has taken
      exactly the bytes it stored from the stream. */
  lemma {:induction false} RecvAllOutcome(inbox: seq<RecvEvent>, len: nat, got: seq<char>)
    requires |got| <= len
    ensures var f := RecvAllFrom(inbox, len, got);
      got <= f.bytes && |f.bytes| <= len &&
      (f.result == -1 || f.result == |f.bytes|) &&
      (f.result >= 0 ==> f.bytes + Pending(f.rest) == got + Pending(inbox)) &&
      (0 <= f.result < len ==> f.rest == [])
    decreases len - |got|, Size(inbox)
  {
    if |got| < len {
      var step := RecvStep(inbox, len - |got|);
      match step.0
      case Got(b) =>
        RecvAllOutcome(step.1, len, got + b);
        assert got + b + Pending(step.1) == got + Pending(inbox);
      case Eintr =>
        RecvAllOutcome(step.1, len, got);
      case Error =>
      case Closed =>
    }
  }

  /** What a `recv_all` returns counts what it stored, at most `len`. */
  lemma {:induction false} RecvAllCounts(inbox: seq<RecvEvent>, len: nat, got: seq<char>)
    requires |got| <= len
    ensures var f := RecvAllFrom(inbox, len, got);
      |f.bytes| <= len && (f.result == -1 || f.result == |f.bytes|)
    decreases len - |got|, Size(inbox)
  {
    if |got| < len {
      var step := RecvStep(inbox, len - |got|);
      match step.0
      case Got(b) => RecvAllCounts(step.1, len, got + b);
      case Eintr => RecvAllCounts(step.1, len, got);
      case Error =>
      case Closed =>
    }
  }

  /** A full `recv_all` delivers the next `len` bytes of the stream. */
  lemma RecvAllDeliversPrefix(inbox: seq<RecvEvent>, len: nat)
    ensures var f := RecvAllFrom(inbox, len, []);
      f.result == len ==> |Pending(inbox)| >= len && f.bytes == Pending(inbox)[..len]
  {
    RecvAllOutcome(inbox, len, []);
    var f := RecvAllFrom(inbox, len, []);
    if f.result == len {
      assert [] + Pending(inbox) == Pending(inbox);
      assert f.bytes + Pending(f.rest) == Pending(inbox);
      assert (f.bytes + Pending(f.rest))[..len] == f.bytes;
    }
  }

  /** `recv_line`'s outcome: at most `cap - 1` bytes, a '\n' only as the last
      of them, exactly the bytes taken from the stream, and a stop for one of
      three reasons: a '\n', the cap, or the peer closing. */
  lemma RecvLineOutcome(inbox: seq<RecvEvent>, cap: nat, got: seq<char>)
    requires |got| < cap
    requires '\n' !in got
    ensures var f := RecvLineFrom(inbox, cap, got);
      got <= f.bytes && |f.bytes| < cap &&
      (f.result == -1 || f.result == |f.bytes|) &&
      (forall i :: 0 <= i < |f.bytes| - 1 ==> f.bytes[i] != '\n') &&
      (f.result >= 0 ==> f.bytes + Pending(f.rest) == got + Pending(inbox)) &&
      (f.result >= 0 ==>
        (|f.bytes| > 0 && f.bytes[|f.bytes| - 1] == '\n') || |f.bytes| == cap - 1 || f.rest == [])
  {
    RecvLineShape(inbox, cap, got);
    RecvLineTakes(inbox, cap, got);
    RecvLineStops(inbox, cap, got);
  }

  /** What `recv_line` stores: what was stored before and more, below the
      cap, with a '\n' only as the last byte. */
  lemma {:induction false} RecvLineShape(inbox: seq<RecvEvent>, cap: nat, got: seq<char>)
    requires |got| < cap
    requires '\n' !in got
    ensures var f := RecvLineFrom(inbox, cap, got);
      got <= f.bytes && |f.bytes| < cap &&
      (f.result == -1 || f.result == |f.bytes|) &&
      (forall i :: 0 <= i < |f.bytes| - 1 ==> f.bytes[i] != '\n')
    decreases cap - |got|, Size(inbox)
  {
    if |got| + 1 < cap {
      var step := RecvStep(inbox, 1);
      match step.0
      case Got(b) =>
        if b[0] != '\n' {
          assert '\n' !in got + b;
          RecvLineShape(step.1, cap, got + b);
        }
      case Eintr =>
        RecvLineShape(step.1, cap, got);
      case Error =>
      case Closed =>
    }
  }

  /** A `recv_line` that does not fail stored exactly the bytes it took
      from the stream. */
  lemma {:induction false} RecvLineTakes(inbox: seq<RecvEvent>, cap: nat, got: seq<char>)
    requires |got| < cap
    ensures var f := RecvLineFrom(inbox, cap, got);
      f.result >= 0 ==> f.bytes + Pending(f.rest) == got + Pending(inbox)
    decreases cap - |got|, Size(inbox)
  {
    if |got| + 1 < cap {
      var step := RecvStep(inbox, 1);
      match step.0
      case Got(b) =>
        if b[0] != '\n' {
          RecvLineTakes(step.1, cap, got + b);
        }
        ConcatAssoc(got, b, Pending(step.1));
      case Eintr =>
        RecvLineTakes(step.1, cap, got);
      case Error =>
      case Closed =>
    }
  }

  /** A `recv_line` that does not fail stopped at a '\n', at the cap, or
      at the end of the stream. */
  lemma {:induction false} RecvLineStops(inbox: seq<RecvEvent>, cap: nat, got: seq<char>)
    requires |got| < cap
    ensures var f := RecvLineFrom(inbox, cap, got);
      f.result >= 0 ==>
        (|f.bytes| > 0 && f.bytes[|f.bytes| - 1] == '\n') || |f.bytes| == cap - 1 || f.rest == []
    decreases cap - |got|, Size(inbox)
  {
    if |got| + 1 < cap {
      var step := RecvStep(inbox, 1);
      match step.0
      case Got(b) =>
        if b[0] != '\n' {
          RecvLineStops(step.1, cap, got + b);
        } else {
          assert (got + b)[|got + b| - 1] == '\n';
        }
      case Eintr =>
        RecvLineStops(step.1, cap, got);
      case Error =>
      case Closed =>
    }
  }

  /** `recv_line` returns 0 (with room for a byte) exactly when the peer
      closes before sending a byte. */
  lemma {:induction false} RecvLineZero(inbox: seq<RecvEvent>, cap: nat)
    requires 2 <= cap
    ensures RecvLineFrom(inbox, cap, []).result == 0 <==> ClosesBeforeData(inbox)
    decreases Size(inbox)
  {
    if inbox != [] {
      var step := RecvStep(inbox, 1);
      assert step.1 == inbox[1..] || step.0.Got?;
      match step.0
      case Got(b) =>
        assert !inbox[0].Interrupted?;
        if b[0] != '\n' {
          assert |b| == 1 && '\n' !in b && [] + b == b;
          RecvLineOutcome(step.1, cap, b);
        }
      case Eintr =>
        RecvLineZero(step.1, cap);
        assert ClosesBeforeData(inbox) <==> ClosesBeforeData(inbox[1..]) by {
          if ClosesBeforeData(inbox[1..]) {
            forall i | 0 <= i < |inbox| ensures inbox[i].Interrupted? {
              if i > 0 { assert inbox[i] == inbox[1..][i - 1]; }
            }
          }
        }
      case Error =>
      case Closed =>
    }
  }

  /** `send_all` returns `len`, or -1 on a hard error, or a shorter count
      only when `send` accepted nothing. */
  lemma {:induction false} SendAllOutcome(plan: seq<SendEvent>, len: nat, sent: nat)
    requires sent <= len
    ensures var res := SendAllFrom(plan, len, sent);
      res.0 == -1 || sent <= res.0 <= len
    ensures var res := SendAllFrom(plan, len, sent);
      sent <= res.0 < len ==> Accept(0) in plan
    decreases len - sent, |plan|
  {
    if sent < len {
      var step := SendStep(plan, len - sent);
      match step.0
      case Wrote(k) =>
        if k > 0 {
          SendAllOutcome(step.1, len, sent + k);
        } else {
          assert plan[0] == Accept(0);
        }
      case SendEintr =>
        SendAllOutcome(step.1, len, sent);
      case SendError =>
    }
  }
  /** `recv_all` never adds to the stream. */
  lemma {:induction false} RecvAllShrinks(inbox: seq<RecvEvent>, len: nat, got: seq<char>)
    requires |got| <= len
    ensures Size(RecvAllFrom(inbox, len, got).rest) <= Size(inbox)
    decreases len - |got|, Size(inbox)
  {
    if |got| < len {
      var step := RecvStep(inbox, len - |got|);
      match step.0
      case Got(b) => RecvAllShrinks(step.1, len, got + b);
      case Eintr => RecvAllShrinks(step.1, len, got);
      case Error =>
      case Closed =>
    }
  }

  /** A `recv_line` that stores a byte has taken it from the stream. */
  lemma {:induction false} RecvLineShrinks(inbox: seq<RecvEvent>, cap: nat, got: seq<char>)
    requires |got| < cap
    ensures var f := RecvLineFrom(inbox, cap, got);
      Size(f.rest) <= Size(inbox) && (f.result > |got| ==> Size(f.rest) < Size(inbox))
    decreases cap - |got|, Size(inbox)
  {
    if |got| + 1 < cap {
      var step := RecvStep(inbox, 1);
      match step.0
      case Got(b) =>
        if b[0] != '\n' {
          RecvLineShrinks(step.1, cap, got + b);
        }
      case Eintr => RecvLineShrinks(step.1, cap, got);
      case Error =>
      case Closed =>
    }
  }
  /** With `len` bytes pending before any hard error, `recv_all` gets all
      of them. */
  lemma {:induction false} RecvAllFull(inbox: seq<RecvEvent>, len: nat, got: seq<char>)
    requires |got| <= len && len <= |got| + |Pending(inbox)|
    ensures RecvAllFrom(inbox, len, got).result == len
    decreases len - |got|, Size(inbox)
  {
    if |got| < len {
      var step := RecvStep(inbox, len - |got|);
      match step.0
      case Got(b) => RecvAllFull(step.1, len, got + b);
      case Eintr => RecvAllFull(step.1, len, got);
      case Error =>
      case Closed =>
    }
  }
  /** A whole line pending within the cap: `recv_line` stores exactly that
      line, returns its length and leaves what follows it in the stream. */
  lemma {:induction false} RecvLineReads(inbox: seq<RecvEvent>, cap: nat, got: seq<char>,
                                         line: seq<char>, more: seq<char>)
    requires got < line && |line| < cap
    requires line[|line| - 1] == '\n' && forall i :: 0 <= i < |line| - 1 ==> line[i] != '\n'
    requires Pending(inbox) == line[|got|..] + more
    ensures var f := RecvLineFrom(inbox, cap, got);
      f.result == |line| && f.bytes == line && Pending(f.rest) == more
    decreases cap - |got|, Size(inbox)
  {
    var step := RecvStep(inbox, 1);
    match step.0
    case Got(b) =>
      assert b[0] == line[|got|] by {
        assert (b + Pending(step.1))[0] == (line[|got|..] + more)[0];
      }
      assert got + b == line[..|got| + 1];
      if b[0] == '\n' {
        assert |got| == |line| - 1;
        assert line[|got|..] == b;
        assert Pending(step.1) == (b + Pending(step.1))[|b|..] == (b + more)[|b|..];
      } else {
        assert line[|got|..] == b + line[|got| + 1..];
        ConcatAssoc(b, line[|got| + 1..], more);
        assert Pending(step.1) == (b + Pending(step.1))[|b|..] == (b + (line[|got| + 1..] + more))[|b|..];
        assert line[|got| + 1..] == line[|got + b|..];
        RecvLineReads(step.1, cap, got + b, line, more);
      }
    case Eintr =>
      RecvLineReads(step.1, cap, got, line, more);
    case Error =>
    case Closed =>
  }
}
