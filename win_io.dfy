/** Framed I/O of server_windows.c. Unlike the POSIX loops, every `recv` that
    returns 0 or SOCKET_ERROR makes the whole call fail, an interrupted call
    included, and `send_all` keeps calling `send` after a zero-byte write. */
module WinIo {
  import opened Text
  import opened Stream

  /** SOCKET_ERROR. */
  const SOCKET_ERROR: int := -1

  /** `recv_all` from the point where `got` has been received. */
  function WinRecvAllFrom(inbox: seq<RecvEvent>, len: nat, got: seq<char>): Fill
    requires |got| <= len
    decreases len - |got|
  {
    if |got| == len then Fill(len, got, inbox)
    else
      var step := RecvStep(inbox, len - |got|);
      match step.0
      case Got(b) => WinRecvAllFrom(step.1, len, got + b)
      case _ => Fill(SOCKET_ERROR, got, step.1)
  }

  /** `recv_line` from the point where `got` has been stored. */
  function WinRecvLineFrom(inbox: seq<RecvEvent>, maxlen: nat, got: seq<char>): Fill
    requires |got| < maxlen
    decreases maxlen - |got|
  {
    if |got| >= maxlen - 1 then Fill(|got|, got, inbox)
    else
      var step := RecvStep(inbox, 1);
      match step.0
      case Got(b) =>
        if b[0] == '\n' then Fill(|got| + 1, got + b, step.1)
        else WinRecvLineFrom(step.1, maxlen, got + b)
      case _ => Fill(SOCKET_ERROR, got, step.1)
  }

  /** `send_all` from the point where `total` bytes have gone. */
  function WinSendAllFrom(plan: seq<SendEvent>, len: nat, total: nat): (res: (int, seq<SendEvent>))
    requires total <= len
    decreases len - total, |plan|
  {
    if total == len then (len, plan)
    else
      var step := SendStep(plan, len - total);
      match step.0
      case Wrote(k) => WinSendAllFrom(step.1, len, total + k)
      case _ => (SOCKET_ERROR, step.1)
  }

  /** `recv_all(sock, buf, len)`. */
  method WinRecvAll(c: Conn, buf: array<char>, len: nat) returns (r: int)
    requires len <= buf.Length
    modifies c, buf
    ensures var f := WinRecvAllFrom(old(c.inbox), len, []);
      r == f.result && c.inbox == f.rest && |f.bytes| <= len &&
      buf[..] == f.bytes + old(buf[|f.bytes|..])
    ensures c.outbox == old(c.outbox)
  {
    ghost var inbox0 := c.inbox;
    var total := 0;
    while total < len
      invariant total <= len
      invariant WinRecvAllFrom(c.inbox, len, buf[..total]) == WinRecvAllFrom(inbox0, len, [])
      invariant buf[total..] == old(buf[total..])
      invariant c.outbox == old(c.outbox)
      decreases len - total
    {
      var received := c.RecvInto(buf, total, len - total);
      if !received.Got? {
        SplitAt(buf[..], old(buf[..]), total);
        return SOCKET_ERROR;
      }
      total := total + |received.bytes|;
    }
    SplitAt(buf[..], old(buf[..]), total);
    r := total;
  }

  /** `recv_line(sock, buf, maxlen)`. */
  method WinRecvLine(c: Conn, buf: array<char>, maxlen: nat) returns (r: int)
    requires 1 <= maxlen <= buf.Length
    modifies c, buf
    ensures var f := WinRecvLineFrom(old(c.inbox), maxlen, []);
      r == f.result && c.inbox == f.rest && |f.bytes| < maxlen &&
      buf[..|f.bytes|] == f.bytes &&
      (r >= 0 ==> buf[|f.bytes|] == NUL) &&
      forall i :: |f.bytes| < i < buf.Length ==> buf[i] == old(buf[i])
    ensures c.outbox == old(c.outbox)
  {
    ghost var inbox0 := c.inbox;
    var i := 0;
    while i < maxlen - 1
      invariant i < maxlen
      invariant WinRecvLineFrom(c.inbox, maxlen, buf[..i]) == WinRecvLineFrom(inbox0, maxlen, [])
      invariant forall j :: i <= j < buf.Length ==> buf[j] == old(buf[j])
      invariant c.outbox == old(c.outbox)
      decreases maxlen - i
    {
      ghost var before := buf[..];
      var received := c.RecvInto(buf, i, 1);
      if !received.Got? {
        return SOCKET_ERROR;
      }
      var b := received.bytes;
      assert buf[..i + 1] == before[..i] + b;
      i := i + 1;
      if b[0] == '\n' {
        break;
      }
    }
    buf[i] := NUL;
    r := i;
  }

  /** `send_all(sock, buf, len)`. */
  method WinSendAll(s: Sink, buf: array<char>, len: nat) returns (r: int)
    requires len <= buf.Length
    modifies s
    ensures (r, s.plan) == WinSendAllFrom(old(s.plan), len, 0)
    ensures r >= 0 ==> r == len && s.delivered == old(s.delivered) + buf[..len]
  {
    ghost var plan0 := s.plan;
    var total := 0;
    while total < len
      invariant total <= len
      invariant WinSendAllFrom(s.plan, len, total) == WinSendAllFrom(plan0, len, 0)
      invariant s.delivered == old(s.delivered) + buf[..total]
      decreases len - total, |s.plan|
    {
      var sent := s.SendFrom(buf, total, len - total);
      if !sent.Wrote? {
        return SOCKET_ERROR;
      }
      assert buf[..total + sent.count] == buf[..total] + buf[total..total + sent.count];
      total := total + sent.count;
    }
    r := total;
  }

  /** `recv_all` either fills the whole buffer with the next `len` bytes of
      the stream or fails; there is no short count. */
  lemma {:induction false} WinRecvAllOutcome(inbox: seq<RecvEvent>, len: nat, got: seq<char>)
    requires |got| <= len
    ensures var f := WinRecvAllFrom(inbox, len, got);
      f.result == len || f.result == SOCKET_ERROR
    ensures var f := WinRecvAllFrom(inbox, len, got);
      f.result == len ==> f.bytes + Pending(f.rest) == got + Pending(inbox) && |f.bytes| == len
    decreases len - |got|
  {
    if |got| < len {
      var step := RecvStep(inbox, len - |got|);
      if step.0.Got? {
        var b := step.0.bytes;
        WinRecvAllOutcome(step.1, len, got + b);
        assert got + b + Pending(step.1) == got + Pending(inbox);
      }
    }
  }

  /** A `recv_all` that does not fail stored exactly `len` bytes. */
  lemma {:induction false} WinRecvAllCounts(inbox: seq<RecvEvent>, len: nat, got: seq<char>)
    requires |got| <= len
    ensures var f := WinRecvAllFrom(inbox, len, got);
      f.result == SOCKET_ERROR || (f.result == len && |f.bytes| == len)
    decreases len - |got|
  {
    if |got| < len {
      var step := RecvStep(inbox, len - |got|);
      if step.0.Got? {
        WinRecvAllCounts(step.1, len, got + step.0.bytes);
      }
    }
  }

  /** A peer that closes cleanly before `len` bytes have come makes
      `recv_all` fail, not return a short count. */
  lemma {:induction false} WinRecvAllCloseIsError(inbox: seq<RecvEvent>, len: nat, got: seq<char>)
    requires |got| <= len
    requires forall i :: 0 <= i < |inbox| ==> inbox[i].Data?
    requires |got| + |Pending(inbox)| < len
    ensures WinRecvAllFrom(inbox, len, got).result == SOCKET_ERROR
    decreases len - |got|
  {
    var step := RecvStep(inbox, len - |got|);
    if step.0.Got? {
      var b := step.0.bytes;
      assert |Pending(step.1)| == |Pending(inbox)| - |b|;
      assert Pending(inbox) == inbox[0].bytes + Pending(inbox[1..]);
      assert step.1 == inbox[1..];
      WinRecvAllCloseIsError(step.1, len, got + b);
    }
  }

  /** `recv_line` succeeds with 1 to `maxlen - 1` bytes that end at the first
      '\n' or at the cap, taken exactly from the stream. */
  lemma WinRecvLineOutcome(inbox: seq<RecvEvent>, maxlen: nat, got: seq<char>)
    requires |got| < maxlen && '\n' !in got
    ensures var f := WinRecvLineFrom(inbox, maxlen, got);
      got <= f.bytes && |f.bytes| < maxlen &&
      (f.result == SOCKET_ERROR || f.result == |f.bytes|) &&
      (forall i :: 0 <= i < |f.bytes| - 1 ==> f.bytes[i] != '\n') &&
      (f.result >= 0 ==> f.bytes + Pending(f.rest) == got + Pending(inbox)) &&
      (f.result >= 0 ==>
        (|f.bytes| > 0 && f.bytes[|f.bytes| - 1] == '\n') || |f.bytes| == maxlen - 1) &&
      (f.result >= 0 && maxlen >= 2 ==> f.result >= 1)
  {
    WinRecvLineShape(inbox, maxlen, got);
    WinRecvLineTakes(inbox, maxlen, got);
    WinRecvLineStops(inbox, maxlen, got);
  }

  /** What `recv_line` stores: what was stored before and more, below
      `maxlen`, with a '\n' only as the last byte. */
  lemma {:induction false} WinRecvLineShape(inbox: seq<RecvEvent>, maxlen: nat, got: seq<char>)
    requires |got| < maxlen && '\n' !in got
    ensures var f := WinRecvLineFrom(inbox, maxlen, got);
      got <= f.bytes && |f.bytes| < maxlen &&
      (f.result == SOCKET_ERROR || f.result == |f.bytes|) &&
      (forall i :: 0 <= i < |f.bytes| - 1 ==> f.bytes[i] != '\n')
    decreases maxlen - |got|
  {
    if |got| < maxlen - 1 {
      var step := RecvStep(inbox, 1);
      if step.0.Got? {
        var b := step.0.bytes;
        if b[0] != '\n' {
          assert '\n' !in got + b;
          WinRecvLineShape(step.1, maxlen, got + b);
        }
      }
    }
  }

  /** A `recv_line` that does not fail stored exactly the bytes it took
      from the stream. */
  lemma {:induction false} WinRecvLineTakes(inbox: seq<RecvEvent>, maxlen: nat, got: seq<char>)
    requires |got| < maxlen
    ensures var f := WinRecvLineFrom(inbox, maxlen, got);
      f.result >= 0 ==> f.bytes + Pending(f.rest) == got + Pending(inbox)
    decreases maxlen - |got|
  {
    if |got| < maxlen - 1 {
      var step := RecvStep(inbox, 1);
      if step.0.Got? {
        var b := step.0.bytes;
        if b[0] != '\n' {
          WinRecvLineTakes(step.1, maxlen, got + b);
        }
        ConcatAssoc(got, b, Pending(step.1));
      }
    }
  }

  /** A `recv_line` that does not fail stopped at a '\n' or at `maxlen - 1`
      bytes, and so stored at least one byte when there was room. */
  lemma {:induction false} WinRecvLineStops(inbox: seq<RecvEvent>, maxlen: nat, got: seq<char>)
    requires |got| < maxlen
    ensures var f := WinRecvLineFrom(inbox, maxlen, got);
      (f.result >= 0 ==>
        (|f.bytes| > 0 && f.bytes[|f.bytes| - 1] == '\n') || |f.bytes| == maxlen - 1) &&
      (f.result >= 0 && maxlen >= 2 ==> f.result >= 1)
    decreases maxlen - |got|
  {
    if |got| < maxlen - 1 {
      var step := RecvStep(inbox, 1);
      if step.0.Got? {
        var b := step.0.bytes;
        if b[0] != '\n' {
          WinRecvLineStops(step.1, maxlen, got + b);
        } else {
          assert (got + b)[|got + b| - 1] == '\n';
        }
      }
    }
  }

  /** End of stream in the middle of a line is an error, even after some
      bytes have been stored. */
  lemma {:induction false} WinRecvLineEofIsError(inbox: seq<RecvEvent>, maxlen: nat, got: seq<char>)
    requires |got| < maxlen
    requires forall i :: 0 <= i < |inbox| ==> inbox[i].Data?
    requires '\n' !in Pending(inbox)
    requires |got| + |Pending(inbox)| < maxlen - 1
    ensures WinRecvLineFrom(inbox, maxlen, got).result == SOCKET_ERROR
    decreases maxlen - |got|
  {
    var step := RecvStep(inbox, 1);
    if step.0.Got? {
      var b := step.0.bytes;
      assert b[0] in Pending(inbox) by {
        assert Pending(inbox) == b + Pending(step.1);
      }
      assert |Pending(step.1)| == |Pending(inbox)| - 1;
      assert '\n' !in Pending(step.1) by {
        assert Pending(inbox) == b + Pending(step.1);
      }
      assert forall i :: 0 <= i < |step.1| ==> step.1[i].Data? by {
        if |inbox[0].bytes| > 1 {
          assert step.1[1..] == inbox[1..];
        } else {
          assert step.1 == inbox[1..];
        }
      }
      WinRecvLineEofIsError(step.1, maxlen, got + b);
    }
  }

  /** `send_all` returns `len` or SOCKET_ERROR, nothing in between. */
  lemma {:induction false} WinSendAllOutcome(plan: seq<SendEvent>, len: nat, total: nat)
    requires total <= len
    ensures var res := WinSendAllFrom(plan, len, total);
      res.0 == len || res.0 == SOCKET_ERROR
    decreases len - total, |plan|
  {
    if total < len {
      var step := SendStep(plan, len - total);
      if step.0.Wrote? {
        WinSendAllOutcome(step.1, len, total + step.0.count);
      }
    }
  }
  /** `k` calls of `send` in a row that each return 0. */
  function ZeroSends(k: nat): seq<SendEvent> {
    seq(k, _ => Accept(0))
  }

  /** As written, `send_all` has no exit for a `send` that returns 0: after
      any number of zero returns it is exactly where it started, offering
      the same bytes again, so a peer whose `send` keeps returning 0 holds
      the loop for as long as it does. */
  lemma {:induction false} ZeroSendsSpin(k: nat, rest: seq<SendEvent>, len: nat, total: nat)
    requires total < len
    ensures WinSendAllFrom(ZeroSends(k) + rest, len, total) == WinSendAllFrom(rest, len, total)
  {
    if k > 0 {
      var plan := ZeroSends(k) + rest;
      assert plan[0] == Accept(0);
      assert plan[1..] == ZeroSends(k - 1) + rest;
      assert SendStep(plan, len - total) == (Wrote(0), ZeroSends(k - 1) + rest);
      ZeroSendsSpin(k - 1, rest, len, total);
    } else {
      assert ZeroSends(k) + rest == rest;
    }
  }

  /** `send_all` with the exit the POSIX server's loop has: a `send` that
      returns 0 ends the call with the count sent so far. */
  function WinSendAllGuardedFrom(plan: seq<SendEvent>, len: nat, total: nat): (res: (int, seq<SendEvent>))
    requires total <= len
    ensures res.0 == SOCKET_ERROR || total <= res.0 <= len
    ensures |res.1| <= |plan|
    decreases len - total, |plan|
  {
    if total == len then (len, plan)
    else
      var step := SendStep(plan, len - total);
      match step.0
      case Wrote(k) => if k == 0 then (total, step.1) else WinSendAllGuardedFrom(step.1, len, total + k)
      case _ => (SOCKET_ERROR, step.1)
  }

  /** With the guard, a zero return ends the call at once with a short
      count, and every shorter count comes from such a return. */
  lemma GuardedZeroSendStops(rest: seq<SendEvent>, len: nat, total: nat)
    requires total < len
    ensures WinSendAllGuardedFrom([Accept(0)] + rest, len, total) == (total, rest)
  {
    assert ([Accept(0)] + rest)[1..] == rest;
  }

  /** With the guard the call returns `len`, SOCKET_ERROR, or a short count
      only right after a `send` that returned 0. */
  lemma {:induction false} GuardedSendAllOutcome(plan: seq<SendEvent>, len: nat, total: nat)
    requires total <= len
    ensures var res := WinSendAllGuardedFrom(plan, len, total);
      res.0 == len || res.0 == SOCKET_ERROR ||
      (total <= res.0 < len && exists i :: 0 <= i < |plan| && plan[i] == Accept(0))
    decreases len - total, |plan|
  {
    if total < len {
      var step := SendStep(plan, len - total);
      if step.0.Wrote? && step.0.count > 0 {
        GuardedSendAllOutcome(step.1, len, total + step.0.count);
        var res := WinSendAllGuardedFrom(step.1, len, total + step.0.count);
        if total <= res.0 < len {
          var i :| 0 <= i < |step.1| && step.1[i] == Accept(0);
          assert plan[i + 1] == step.1[i];
        }
      } else if step.0.Wrote? {
        assert plan != [] && plan[0] == Accept(0);
      }
    }
  }

  /** `recv_all` never adds to the stream. */
  lemma {:induction false} WinRecvAllShrinks(inbox: seq<RecvEvent>, len: nat, got: seq<char>)
    requires |got| <= len
    ensures Size(WinRecvAllFrom(inbox, len, got).rest) <= Size(inbox)
    decreases len - |got|
  {
    if |got| < len {
      var step := RecvStep(inbox, len - |got|);
      if step.0.Got? {
        WinRecvAllShrinks(step.1, len, got + step.0.bytes);
      }
    }
  }

  /** A `recv_line` that succeeds with a byte has taken it from the stream. */
  lemma {:induction false} WinRecvLineShrinks(inbox: seq<RecvEvent>, maxlen: nat, got: seq<char>)
    requires |got| < maxlen
    ensures var f := WinRecvLineFrom(inbox, maxlen, got);
      Size(f.rest) <= Size(inbox) && (f.result > |got| ==> Size(f.rest) < Size(inbox))
    decreases maxlen - |got|
  {
    if |got| < maxlen - 1 {
      var step := RecvStep(inbox, 1);
      if step.0.Got? && step.0.bytes[0] != '\n' {
        WinRecvLineShrinks(step.1, maxlen, got + step.0.bytes);
      }
    }
  }
  /** With `len` bytes pending and no interrupted call on the way, `recv_all`
      gets all of them, and what is left of the stream is still free of
      interrupted calls. */
  lemma {:induction false} WinRecvAllFull(inbox: seq<RecvEvent>, len: nat, got: seq<char>)
    requires |got| <= len && len <= |got| + |Pending(inbox)|
    requires forall i :: 0 <= i < |inbox| ==> !inbox[i].Interrupted?
    ensures WinRecvAllFrom(inbox, len, got).result == len
    ensures var rest := WinRecvAllFrom(inbox, len, got).rest;
      forall i :: 0 <= i < |rest| ==> !rest[i].Interrupted?
    decreases len - |got|
  {
    if |got| < len {
      var step := RecvStep(inbox, len - |got|);
      if step.0.Got? {
        var b := step.0.bytes;
        assert forall i :: 0 <= i < |step.1| ==> !step.1[i].Interrupted? by {
          if |inbox[0].bytes| > len - |got| {
            assert step.1[1..] == inbox[1..];
          } else {
            assert step.1 == inbox[1..];
          }
        }
        WinRecvAllFull(step.1, len, got + b);
      }
    }
  }
}
