/** The bidirectional relay of src/relay.c over streams that read, write and
    half-close, with the write loop of src/util.c underneath.

    What the two peers observe is a trace; conservation and the half-close
    protocol are statements about the trace of every run. */
module Relay {
  import opened Traces

  datatype Side = A | B

  function Other(s: Side): Side {
    if s == A then B else A
  }

  datatype Event =
    | Took(side: Side, data: string)  // read from the stream on that side
    | Gave(side: Side, data: string)  // written to it
    | Ended(side: Side)               // it reported its end
    | Shut(side: Side)                // its shutdown_write was called
    | Ready(side: Side)               // it was reported to have input
    | Stalled(side: Side)             // a read from it found none after all

  type Trace = Traces.Trace<Event>

  ghost function Taken(tr: Trace, s: Side): string {
    match tr
    case Start => ""
    case Then(past, e) => if e.Took? && e.side == s then Taken(past, s) + e.data else Taken(past, s)
  }

  ghost function Given(tr: Trace, s: Side): string {
    match tr
    case Start => ""
    case Then(past, e) => if e.Gave? && e.side == s then Given(past, s) + e.data else Given(past, s)
  }

  ghost function Shuts(tr: Trace, s: Side): nat {
    match tr
    case Start => 0
    case Then(past, e) => if e.Shut? && e.side == s then Shuts(past, s) + 1 else Shuts(past, s)
  }

  ghost predicate HasEnded(tr: Trace, s: Side) {
    match tr
    case Start => false
    case Then(past, e) => HasEnded(past, s) || (e.Ended? && e.side == s)
  }

  /** The stream was reported to have input and has not been read since. */
  ghost predicate Unserved(tr: Trace, s: Side) {
    match tr
    case Start => false
    case Then(past, e) =>
      if e.side != s then Unserved(past, s)
      else if e.Ready? then true
      else if e.Took? || e.Ended? || e.Stalled? then false
      else Unserved(past, s)
  }

  /** At every point of the trace: nothing is read from a stream after its end,
      nothing is written to a stream after its half-close, and a stream is
      half-closed at most once, only after its opposite ended and everything
      read from the opposite had been written to it. */
  ghost predicate Orderly(tr: Trace) {
    match tr
    case Start => true
    case Then(past, e) =>
      && Orderly(past)
      && match e
         case Took(s, _) => !HasEnded(past, s)
         case Gave(s, _) => Shuts(past, s) == 0
         case Ended(s) => !HasEnded(past, s)
         case Shut(s) =>
           && Shuts(past, s) == 0
           && HasEnded(past, Other(s))
           && Given(past, s) == Taken(past, Other(s))
         case _ => true
  }

  /** Both directions: what was written equals, in order, what was read. */
  ghost predicate Conserved(tr: Trace) {
    Given(tr, B) == Taken(tr, A) && Given(tr, A) == Taken(tr, B)
  }

  /** `after` differs from `before` only by octets written to `s`. */
  ghost predicate OnlyGave(before: Trace, after: Trace, s: Side) {
    && Orderly(after) && Precedes(before, after)
    && (forall x :: Taken(after, x) == Taken(before, x))
    && (forall x :: Shuts(after, x) == Shuts(before, x))
    && (forall x :: HasEnded(after, x) == HasEnded(before, x))
    && (forall x :: Unserved(after, x) == Unserved(before, x))
    && Given(after, Other(s)) == Given(before, Other(s))
  }

  ghost function Reported(tr: Trace, a: bool, b: bool): Trace {
    var first := if a then Then(tr, Ready(A)) else tr;
    if b then Then(first, Ready(B)) else first
  }

  /** `after` differs from `before` only by reports of input. */
  ghost predicate OnlyReported(before: Trace, after: Trace, a: bool, b: bool) {
    && (Orderly(before) ==> Orderly(after)) && Precedes(before, after)
    && (forall s :: Taken(after, s) == Taken(before, s))
    && (forall s :: Given(after, s) == Given(before, s))
    && (forall s :: Shuts(after, s) == Shuts(before, s))
    && (forall s :: HasEnded(after, s) == HasEnded(before, s))
    && (forall s :: Unserved(after, s) == (Unserved(before, s) || (if s == A then a else b)))
  }

  lemma ReportedOnce(tr: Trace, side: Side)
    ensures OnlyReported(tr, Then(tr, Ready(side)), side == A, side == B)
  {
  }

  lemma ReportsOnly(tr: Trace, a: bool, b: bool)
    ensures OnlyReported(tr, Reported(tr, a, b), a, b)
  {
    ReportedOnce(tr, A);
    ReportedOnce(tr, B);
    ReportedOnce(Then(tr, Ready(A)), B);
    PrecedesTransitive(tr, if a then Then(tr, Ready(A)) else tr, Reported(tr, a, b));
  }

  lemma GaveMore(before: Trace, tr: Trace, s: Side, data: string)
    requires OnlyGave(before, tr, s) && Shuts(tr, s) == 0
    ensures OnlyGave(before, Then(tr, Gave(s, data)), s)
  {
  }

  lemma CutShort(front: string, data: string, n: nat)
    requires n < |data|
    ensures front + data[..n] < front + data
  {
    assert (front + data)[..|front| + n] == front + data[..n];
  }

  datatype ReadResult = Got(data: string) | EndOfStream | ReadError | WouldBlock | Interrupted

  datatype WriteResult = Put(count: nat) | WriteInterrupted | WriteError

  datatype ShutdownResult = ShutDown | NotSocket | ShutdownFailed

  datatype PollResult = PollInterrupted | PollError | PollTimeout | PollReady(a: bool, b: bool)

  datatype Outcome =
    | Stopped | TimedOut | ClosedBy(side: Side) | Drained   // return 0
    | BrokenWrite(side: Side) | TickFailed | PollFailed     // return -1

  const BUFSIZE: nat := 16384

  class Stream {
    const tls: bool
    const rawFd: int
    var writeFd: int
    const canCloseWrite: bool
    const closeOnEof: bool
    const canShutdown: bool

    constructor (tls: bool, rawFd: int, writeFd: int, canCloseWrite: bool, closeOnEof: bool, canShutdown: bool)
      ensures this.tls == tls && this.rawFd == rawFd && this.writeFd == writeFd
      ensures this.canCloseWrite == canCloseWrite && this.closeOnEof == closeOnEof && this.canShutdown == canShutdown
    {
      this.tls, this.rawFd, this.writeFd := tls, rawFd, writeFd;
      this.canCloseWrite, this.closeOnEof, this.canShutdown := canCloseWrite, closeOnEof, canShutdown;
    }

    /** A plain stream is written through `writeFd`. */
    predicate CanWrite()
      reads this
    {
      tls || writeFd >= 0
    }
  }

  class Relay {
    const a: Stream
    const b: Stream
    const timeout: int
    var aActive: bool
    var bActive: bool
    /** Signals still to come; finitely many, so that EINTR loops end. */
    var signals: nat
    /** Writes that failed or took nothing. */
    ghost var refusals: nat
    /** Polls that timed out, and calls of shutdown that failed. */
    ghost var timeouts: nat
    ghost var shutdownErrors: nat
    /** Ticks and polls, those that failed, and how long the last poll was to wait. */
    ghost var ticks: nat
    ghost var tickErrors: nat
    ghost var polls: nat
    ghost var pollErrors: nat
    ghost var lastWait: int
    /** Times a stream had decrypted input pending, and the streams that were
        asked since the last read or poll and had none. */
    ghost var pendings: nat
    ghost var quiet: set<Side>
    ghost var trace: Trace

    function Of(s: Side): Stream {
      if s == A then a else b
    }

    ghost predicate Active(s: Side)
      reads this
    {
      if s == A then aActive else bActive
    }

    /** The state at the head of the relay loop: input that was reported has
        been acted on. */
    ghost predicate Inv()
      reads this, a, b
    {
      Steady() && quiet == {} && forall s :: !Unserved(trace, s)
    }

    ghost predicate Steady()
      reads this, a, b
    {
      && a != b
      && (forall s :: Shuts(trace, s) == 0 ==> Of(s).CanWrite())
      && Orderly(trace) && Conserved(trace)
      && (forall s :: Active(s) <==> !HasEnded(trace, s))
      && (forall s :: Shuts(trace, s) == if HasEnded(trace, Other(s)) && Of(s).canShutdown then 1 else 0)
      && (forall s :: HasEnded(trace, s) ==> !Of(s).closeOnEof)
    }

    constructor (a: Stream, b: Stream, timeout: int, signals: nat)
      requires a != b && a.CanWrite() && b.CanWrite()
      ensures Inv() && this.a == a && this.b == b && this.timeout == timeout && trace == Start
      ensures aActive && bActive && refusals == tickErrors == pollErrors == timeouts == 0
    {
      this.a, this.b, this.timeout, this.signals := a, b, timeout, signals;
      aActive, bActive := true, true;
      trace, refusals, timeouts, shutdownErrors := Start, 0, 0, 0;
      ticks, tickErrors, polls, pollErrors, lastWait, pendings, quiet := 0, 0, 0, 0, 0, 0, {};
    }

    // ----- the streams, whose answers are free -----

    method StreamRead(s: Side) returns (r: ReadResult)
      requires Orderly(trace) && !HasEnded(trace, s)
      modifies this`trace, this`signals, this`quiet
      ensures quiet == {}
      ensures r.Got? ==> 0 < |r.data| <= BUFSIZE && trace == Then(old(trace), Took(s, r.data))
      ensures r.EndOfStream? || r.ReadError? ==> trace == Then(old(trace), Ended(s))
      ensures r.WouldBlock? ==> trace == Then(old(trace), Stalled(s))
      ensures r.Interrupted? ==> trace == old(trace)
      ensures if r.Interrupted? then signals < old(signals) else signals == old(signals)
    {
      quiet := {};
      r := *;
      if r.Got? && !(0 < |r.data| <= BUFSIZE) {
        r := EndOfStream;
      }
      if r.Interrupted? {
        if signals == 0 {
          r := WouldBlock;
        } else {
          signals := signals - 1;
        }
      }
      if r.Got? {
        trace := Then(trace, Took(s, r.data));
      } else if r.EndOfStream? || r.ReadError? {
        trace := Then(trace, Ended(s));
      } else if r.WouldBlock? {
        trace := Then(trace, Stalled(s));
      }
    }

    /** `write` on the stream's write descriptor. */
    method SysWrite(s: Side, buf: string) returns (r: WriteResult)
      requires Orderly(trace) && Shuts(trace, s) == 0 && Of(s).writeFd >= 0
      modifies this`trace, this`signals, this`refusals
      ensures r.Put? ==> r.count <= |buf| && trace == Then(old(trace), Gave(s, buf[..r.count]))
      ensures refusals == old(refusals) + if r.WriteError? || (r.Put? && r.count == 0) then 1 else 0
      ensures !r.Put? ==> trace == old(trace)
      ensures r.WriteInterrupted? ==> signals < old(signals)
      ensures !r.WriteInterrupted? ==> signals == old(signals)
    {
      r := *;
      if r.Put? {
        var n: int := *;
        r := Put(if 0 <= n < |buf| then n else |buf|);
        trace := Then(trace, Gave(s, buf[..r.count]));
      } else if r.WriteInterrupted? {
        if signals == 0 {
          r := WriteError;
        } else {
          signals := signals - 1;
        }
      }
      if r.WriteError? || (r.Put? && r.count == 0) {
        refusals := refusals + 1;
      }
    }

    /** A stream without TLS has no tick; there is nothing to fail. */
    method StreamTick(s: Side) returns (ok: bool)
      modifies this`ticks, this`tickErrors
      ensures !Of(s).tls ==> ok
      ensures ticks == old(ticks) + 1 && tickErrors == old(tickErrors) + if ok then 0 else 1
    {
      ok := *;
      ok := ok || !Of(s).tls;
      ticks, tickErrors := ticks + 1, tickErrors + if ok then 0 else 1;
    }

    method StreamPending(s: Side) returns (some: bool)
      requires Steady()
      modifies this`trace, this`pendings, this`quiet
      ensures Precedes(old(trace), trace)
      ensures Steady() && (!Of(s).tls ==> !some)
      ensures trace == if some then Then(old(trace), Ready(s)) else old(trace)
      ensures pendings == old(pendings) + if some then 1 else 0
      ensures quiet == if some then old(quiet) else old(quiet) + {s}
    {
      some := *;
      some := some && Of(s).tls;
      if some {
        trace := Then(trace, Ready(s));
        pendings := pendings + 1;
      } else {
        quiet := quiet + {s};
      }
    }

    ghost method Report(a: bool, b: bool)
      requires Steady() && forall s :: !Unserved(trace, s)
      modifies this`trace
      ensures Steady() && Precedes(old(trace), trace)
      ensures Unserved(trace, A) == a && Unserved(trace, B) == b
    {
      ReportsOnly(trace, a, b);
      trace := Reported(trace, a, b);
    }

    /** `poll`: a descriptor of -1 is never reported, and a negative timeout
        never passes. It does not know of decrypted input, so streams are asked
        for that first. */
    method Poll(pollA: bool, pollB: bool, wait: int) returns (r: PollResult)
      requires Steady() && (forall s :: !Unserved(trace, s)) && pollA == aActive && pollB == bActive
      requires (pollA ==> A in quiet) && (pollB ==> B in quiet)
      modifies this`trace, this`timeouts, this`polls, this`pollErrors, this`lastWait, this`quiet
      ensures Steady() && Precedes(old(trace), trace) && quiet == {}
      ensures Unserved(trace, A) == (r.PollReady? && r.a) && Unserved(trace, B) == (r.PollReady? && r.b)
      ensures r.PollReady? ==> (r.a ==> pollA) && (r.b ==> pollB)
      ensures !r.PollReady? ==> trace == old(trace)
      ensures timeouts == old(timeouts) + if r.PollTimeout? then 1 else 0
      ensures polls == old(polls) + 1 && pollErrors == old(pollErrors) + if r.PollError? then 1 else 0
      ensures lastWait == wait
      ensures r.PollTimeout? ==> wait >= 0
    {
      r := *;
      if r.PollTimeout? && wait < 0 {
        r := PollInterrupted;
      }
      polls, lastWait, quiet := polls + 1, wait, {};
      if r.PollReady? {
        r := PollReady(r.a && pollA, r.b && pollB);
        Report(r.a, r.b);
      } else if r.PollTimeout? {
        timeouts := timeouts + 1;
      } else if r.PollError? {
        pollErrors := pollErrors + 1;
      }
    }

    method SysShutdown() returns (r: ShutdownResult)
      modifies this`shutdownErrors
      ensures shutdownErrors == old(shutdownErrors) + if r.ShutdownFailed? then 1 else 0
    {
      r := *;
      if r.ShutdownFailed? {
        shutdownErrors := shutdownErrors + 1;
      }
    }

    // ----- util.c and relay.c -----

    /** One `write` of `wcat_full_write`, some way into the chunk. */
    method WriteSome(s: Side, buf: string, off: nat, ghost start: Trace) returns (r: WriteResult)
      requires Orderly(trace) && Shuts(trace, s) == 0 && Of(s).writeFd >= 0
      requires OnlyGave(start, trace, s) && off <= |buf| && Given(trace, s) == Given(start, s) + buf[..off]
      modifies this`trace, this`signals, this`refusals
      ensures OnlyGave(start, trace, s) && Shuts(trace, s) == 0
      ensures r.Put? ==> off + r.count <= |buf| && Given(trace, s) == Given(start, s) + buf[..off + r.count]
      ensures !r.Put? ==> trace == old(trace)
      ensures refusals == old(refusals) + if r.WriteError? || (r.Put? && r.count == 0) then 1 else 0
      ensures r.WriteInterrupted? ==> signals < old(signals)
    {
      r := SysWrite(s, buf[off..]);
      if r.Put? {
        GaveMore(start, old(trace), s, buf[off..][..r.count]);
        assert buf[..off + r.count] == buf[..off] + buf[off..][..r.count];
      }
    }

    /** `wcat_full_write`: `done` octets went out, all of them if it returns the
        full length, and a negative return never stands for a complete write. */
    method FullWrite(s: Side, buf: string) returns (r: int, ghost done: nat)
      requires Orderly(trace) && Shuts(trace, s) == 0 && Of(s).writeFd >= 0
      modifies this`trace, this`signals, this`refusals
      ensures OnlyGave(old(trace), trace, s)
      ensures done <= |buf| && Given(trace, s) == Given(old(trace), s) + buf[..done]
      ensures r == done || (r == -1 && done < |buf|)
      ensures refusals >= old(refusals) && (refusals == old(refusals) <==> r == |buf|)
    {
      var off := 0;
      while off < |buf|
        invariant 0 <= off <= |buf|
        invariant OnlyGave(old(trace), trace, s) && Shuts(trace, s) == 0
        invariant Given(trace, s) == Given(old(trace), s) + buf[..off]
        invariant refusals == old(refusals)
        decreases |buf| - off, signals
      {
        var n := WriteSome(s, buf, off, old(trace));
        match n
        case WriteInterrupted =>
        case WriteError =>
          return -1, off;
        case Put(count) =>
          off := off + count;
          if count == 0 {
            break;
          }
      }
      return off, off;
    }

    /** The write contract of a TLS stream: everything, or an error after some prefix. */
    method TlsWrite(s: Side, buf: string) returns (r: int, ghost done: nat)
      requires Orderly(trace) && Shuts(trace, s) == 0
      modifies this`trace, this`signals, this`refusals
      ensures OnlyGave(old(trace), trace, s)
      ensures done <= |buf| && Given(trace, s) == Given(old(trace), s) + buf[..done]
      ensures r == done == |buf| || (r == -1 && done < |buf|)
      ensures refusals >= old(refusals) && (refusals == old(refusals) <==> r == |buf|)
    {
      var n: int := *;
      if 0 <= n < |buf| {
        refusals := refusals + 1;
      }
      done := if 0 <= n < |buf| then n else |buf|;
      trace := Then(trace, Gave(s, buf[..done]));
      r := if 0 <= n < |buf| then -1 else |buf|;
    }

    method ReadRetrying(s: Side) returns (r: ReadResult)
      requires Orderly(trace) && !HasEnded(trace, s)
      modifies this`trace, this`signals, this`quiet
      ensures quiet == {}
      ensures !r.Interrupted?
      ensures r.Got? ==> 0 < |r.data| <= BUFSIZE && trace == Then(old(trace), Took(s, r.data))
      ensures r.EndOfStream? || r.ReadError? ==> trace == Then(old(trace), Ended(s))
      ensures r.WouldBlock? ==> trace == Then(old(trace), Stalled(s))
    {
      r := StreamRead(s);
      while r.Interrupted?
        invariant quiet == {}
        invariant r.Got? ==> 0 < |r.data| <= BUFSIZE && trace == Then(old(trace), Took(s, r.data))
        invariant r.EndOfStream? || r.ReadError? ==> trace == Then(old(trace), Ended(s))
        invariant r.WouldBlock? ==> trace == Then(old(trace), Stalled(s))
        invariant r.Interrupted? ==> trace == old(trace)
        decreases signals + if r.Interrupted? then 1 else 0
      {
        r := StreamRead(s);
      }
    }

    /** The write of one chunk: whole, or a proper prefix. */
    method Deliver(dst: Side, data: string) returns (ok: bool)
      requires Orderly(trace) && Shuts(trace, dst) == 0 && Of(dst).CanWrite()
      modifies this`trace, this`signals, this`refusals
      ensures OnlyGave(old(trace), trace, dst)
      ensures ok ==> Given(trace, dst) == Given(old(trace), dst) + data
      ensures !ok ==> Given(trace, dst) < Given(old(trace), dst) + data
      ensures refusals >= old(refusals) && (refusals == old(refusals) <==> ok)
    {
      var n: int;
      ghost var done: nat;
      if Of(dst).tls {
        n, done := TlsWrite(dst, data);
      } else {
        n, done := FullWrite(dst, data);
      }
      ok := n == |data|;
      if ok {
        assert data[..done] == data;
      } else {
        CutShort(Given(old(trace), dst), data, done);
      }
    }

    /** `pump_once`: 1 moved what was read, 0 the source ended, -1 the
        destination took only a proper prefix. */
    method PumpOnce(src: Side) returns (rc: int)
      requires Orderly(trace) && Conserved(trace)
      requires !HasEnded(trace, src) && Shuts(trace, Other(src)) == 0 && Of(Other(src)).CanWrite()
      modifies this`trace, this`signals, this`refusals, this`quiet
      ensures quiet == {}
      ensures Orderly(trace) && Precedes(old(trace), trace)
      ensures rc == 1 || rc == 0 || rc == -1
      ensures rc != -1 ==> Conserved(trace)
      ensures rc == -1 ==> Given(trace, Other(src)) < Taken(trace, src)
      ensures Given(trace, src) == Taken(trace, Other(src))
      ensures forall s :: Shuts(trace, s) == Shuts(old(trace), s)
      ensures forall s :: HasEnded(trace, s) == (HasEnded(old(trace), s) || (s == src && rc == 0))
      ensures !Unserved(trace, src) && Unserved(trace, Other(src)) == Unserved(old(trace), Other(src))
      ensures refusals >= old(refusals) && (refusals == old(refusals) <==> rc != -1)
    {
      var r := ReadRetrying(src);
      if !r.Got? {
        return if r.WouldBlock? then 1 else 0;
      }
      ghost var read := trace;
      var ok := Deliver(Other(src), r.data);
      PrecedesTransitive(old(trace), read, trace);
      return if ok then 1 else -1;
    }

    /** A plain stream with one descriptor is shut down, one with two loses its
        write descriptor; -1 means that the shutdown itself failed. */
    method ShutdownWrite(s: Side) returns (rc: int)
      requires a != b && Orderly(trace)
      requires Shuts(trace, s) == 0 && HasEnded(trace, Other(s)) && Given(trace, s) == Taken(trace, Other(s))
      modifies this`trace, this`shutdownErrors, Of(s)`writeFd
      ensures trace == Then(old(trace), Shut(s))
      ensures rc == 0 || rc == -1
      ensures rc == -1 <==> shutdownErrors > old(shutdownErrors)
      ensures rc == -1 && !Of(s).tls ==> Of(s).canCloseWrite && Of(s).writeFd == Of(s).rawFd
      ensures var fd := old(Of(s).writeFd);
              Of(s).writeFd == if !Of(s).tls && Of(s).canCloseWrite && fd != Of(s).rawFd && fd >= 0 then -1 else fd
    {
      trace := Then(trace, Shut(s));
      var stream := Of(s);
      if !stream.tls && (!stream.canCloseWrite || stream.writeFd < 0) {
        return 0;
      }
      if stream.tls || stream.writeFd == stream.rawFd {
        var r := SysShutdown();
        return if r.ShutdownFailed? then -1 else 0;
      }
      stream.writeFd := -1;
      return 0;
    }

    /** `src` just ended, and the loop has not acted on it yet. */
    ghost predicate Ending(src: Side)
      reads this, a, b
    {
      && a != b
      && Orderly(trace) && Conserved(trace)
      && HasEnded(trace, src) && Active(src) && Shuts(trace, Other(src)) == 0
      && (Active(Other(src)) <==> !HasEnded(trace, Other(src)))
      && (HasEnded(trace, Other(src)) ==> !Of(Other(src)).closeOnEof)
      && Shuts(trace, src) == (if HasEnded(trace, Other(src)) && Of(src).canShutdown then 1 else 0)
      && (forall s :: Shuts(trace, s) == 0 ==> Of(s).CanWrite())
    }

    /** What the loop does when `src` ended: it half-closes the other side, and
        stops if the end of this stream ends the relay. */
    method HandleEnd(src: Side) returns (stop: bool, outcome: Outcome)
      requires Ending(src)
      modifies this`trace, this`shutdownErrors, this`aActive, this`bActive, Of(Other(src))
      ensures Precedes(old(trace), trace)
      ensures !stop ==> Steady()
      ensures stop ==> Finished(outcome) && outcome == ClosedBy(src)
      ensures Active(Other(src)) == old(Active(Other(src)))
      ensures forall s :: Unserved(trace, s) == old(Unserved(trace, s))
    {
      if Of(Other(src)).canShutdown {
        var ignored := ShutdownWrite(Other(src));
      }
      if Of(src).closeOnEof {
        return true, ClosedBy(src);
      }
      if src == A {
        aActive := false;
      } else {
        bActive := false;
      }
      return false, Stopped;
    }

    /** One pump in direction `src` to its opposite, and what the loop makes of its result. */
    method Forward(src: Side) returns (stop: bool, outcome: Outcome)
      requires Steady() && Active(src)
      modifies this`trace, this`signals, this`refusals, this`shutdownErrors, this`quiet
      modifies this`aActive, this`bActive, Of(Other(src))
      ensures Precedes(old(trace), trace) && quiet == {}
      ensures !stop ==> Steady()
      ensures stop ==> Finished(outcome) && (outcome.BrokenWrite? || outcome.ClosedBy?)
      ensures refusals >= old(refusals) && (stop && outcome.BrokenWrite? <==> refusals > old(refusals))
      ensures Active(Other(src)) == old(Active(Other(src)))
      ensures !Unserved(trace, src) && Unserved(trace, Other(src)) == old(Unserved(trace, Other(src)))
    {
      var rc := PumpOnce(src);
      if rc < 0 {
        return true, BrokenWrite(Other(src));
      }
      if rc == 0 {
        ghost var pumped := trace;
        stop, outcome := HandleEnd(src);
        PrecedesTransitive(old(trace), pumped, trace);
        return;
      }
      return false, Stopped;
    }

    /** Whether a poll that timed out stands for the configured timeout: a
        stream with a tick is polled every 50 ms at least. */
    predicate ReportsTimeout() {
      (!a.tls && !b.tls) || 0 <= timeout <= 50
    }

    /** What holds when the relay returns, for each way it can. */
    ghost predicate Finished(outcome: Outcome)
      reads this
    {
      && Orderly(trace)
      && (forall s :: Shuts(trace, s) == if HasEnded(trace, Other(s)) && Of(s).canShutdown then 1 else 0)
      && match outcome
         case BrokenWrite(s) =>
           && Given(trace, s) < Taken(trace, Other(s))
           && Given(trace, Other(s)) == Taken(trace, s)
         case ClosedBy(s) =>
           Conserved(trace) && HasEnded(trace, s) && Of(s).closeOnEof
         case Drained =>
           Conserved(trace) && HasEnded(trace, A) && HasEnded(trace, B) && !a.closeOnEof && !b.closeOnEof
         case TimedOut =>
           Conserved(trace) && ReportsTimeout() && timeout >= 0
         case _ =>
           Conserved(trace)
    }

    /** How long a poll waits: streams with a tick want one every 50 ms. */
    predicate WaitsFor(wait: int) {
      if (a.tls || b.tls) && !(0 <= timeout <= 50) then wait == 50 else wait == timeout
    }

    /** Each way to end early is taken exactly when its cause came up since
        these counts: a write refused, a tick or a poll that failed, a poll that
        timed out for good. */
    ghost predicate Caused(stop: bool, outcome: Outcome, refusals: nat, tickErrors: nat, pollErrors: nat, timeouts: nat)
      reads this
    {
      && this.refusals >= refusals && (stop && outcome.BrokenWrite? <==> this.refusals > refusals)
      && this.tickErrors >= tickErrors && (stop && outcome.TickFailed? <==> this.tickErrors > tickErrors)
      && this.pollErrors >= pollErrors && (stop && outcome.PollFailed? <==> this.pollErrors > pollErrors)
      && this.timeouts >= timeouts
      && (stop && outcome.TimedOut? <==> this.timeouts > timeouts && ReportsTimeout())
    }

    /** The second half of a turn: polls the active streams and forwards from
        those that have input. A poll that timed out ends the relay exactly
        when it stands for the configured timeout. */
    method PollTurn() returns (stop: bool, outcome: Outcome)
      requires Steady() && (forall s :: !Unserved(trace, s))
      requires (aActive ==> A in quiet) && (bActive ==> B in quiet)
      modifies this, a, b
      ensures Precedes(old(trace), trace)
      ensures !stop ==> Inv()
      ensures stop ==> Finished(outcome) && outcome != Stopped && outcome != TickFailed
      ensures Caused(stop, outcome, old(refusals), old(tickErrors), old(pollErrors), old(timeouts))
      ensures timeouts > old(timeouts) ==> trace == old(trace) && (stop <==> ReportsTimeout())
      ensures polls == old(polls) + 1 && WaitsFor(lastWait)
      ensures ticks == old(ticks) && tickErrors == old(tickErrors) && pendings == old(pendings)
    {
      var pollTimeout := if (a.tls || b.tls) && (timeout < 0 || timeout > 50) then 50 else timeout;
      var r := Poll(aActive, bActive, pollTimeout);
      if r.PollReady? {
        ghost var polled := trace;
        stop, outcome := ForwardReady(r.a, r.b);
        PrecedesTransitive(old(trace), polled, trace);
        return;
      }
      stop := r.PollError? || (r.PollTimeout? && pollTimeout == timeout);
      outcome := if r.PollError? then PollFailed else if stop then TimedOut else Stopped;
      SteadyFinishes(outcome);
    }

    lemma SteadyFinishes(outcome: Outcome)
      requires Steady()
      requires outcome == PollFailed || outcome == Stopped || (outcome == TimedOut && ReportsTimeout() && timeout >= 0)
      ensures Finished(outcome)
    {
    }

    /** Forwards from the streams that were reported to have input. */
    method ForwardReady(readyA: bool, readyB: bool) returns (stop: bool, outcome: Outcome)
      requires Steady() && quiet == {} && (readyA ==> aActive) && (readyB ==> bActive)
      requires Unserved(trace, A) == readyA && Unserved(trace, B) == readyB
      modifies this`trace, this`signals, this`refusals, this`shutdownErrors, this`quiet
      modifies this`aActive, this`bActive, a, b
      ensures Precedes(old(trace), trace)
      ensures !stop ==> Inv()
      ensures stop ==> Finished(outcome) && (outcome.BrokenWrite? || outcome.ClosedBy?)
      ensures refusals >= old(refusals) && (stop && outcome.BrokenWrite? <==> refusals > old(refusals))
    {
      if readyA {
        stop, outcome := Forward(A);
        if stop {
          return;
        }
      }
      ghost var half := trace;
      if readyB {
        stop, outcome := Forward(B);
        PrecedesTransitive(old(trace), half, trace);
        return;
      }
      return false, Stopped;
    }

    /** The ticks of both streams; the second is not called if the first fails. */
    method TickBoth() returns (ok: bool)
      modifies this`ticks, this`tickErrors
      ensures tickErrors == old(tickErrors) + if ok then 0 else 1
      ensures ok ==> ticks == old(ticks) + 2
      ensures !a.tls && !b.tls ==> ok
    {
      ok := StreamTick(A);
      if ok {
        ok := StreamTick(B);
      }
    }

    /** One turn of the relay loop: both streams are ticked, and then decrypted
        input is forwarded or the streams are polled, once. */
    method Turn() returns (stop: bool, outcome: Outcome)
      requires Inv() && (aActive || bActive)
      modifies this, a, b
      ensures Precedes(old(trace), trace)
      ensures !stop ==> Inv()
      ensures stop ==> Finished(outcome) && outcome != Stopped
      ensures Caused(stop, outcome, old(refusals), old(tickErrors), old(pollErrors), old(timeouts))
      ensures timeouts > old(timeouts) ==> (stop <==> ReportsTimeout())
      ensures !a.tls && !b.tls ==> tickErrors == old(tickErrors)
      ensures polls + pendings >= old(polls + pendings)
      ensures tickErrors == old(tickErrors) ==>
                && ticks == old(ticks) + 2
                && polls + pendings == old(polls + pendings) + 1
                && (polls > old(polls) ==> WaitsFor(lastWait))
    {
      var ticked := TickBoth();
      if !ticked {
        return true, TickFailed;
      }
      var found: bool;
      found, stop, outcome := ForwardPending();
      ghost var asked := trace;
      if !found {
        stop, outcome := PollTurn();
        PrecedesTransitive(old(trace), asked, trace);
      }
    }

    /** Forwards from an active stream that has decrypted input, A before B. */
    method ForwardPending() returns (found: bool, stop: bool, outcome: Outcome)
      requires Inv()
      modifies this`trace, this`signals, this`refusals, this`shutdownErrors, this`quiet, this`pendings
      modifies this`aActive, this`bActive, a, b
      ensures Precedes(old(trace), trace)
      ensures pendings == old(pendings) + if found then 1 else 0
      ensures found && !stop ==> Inv()
      ensures found && stop ==> Finished(outcome) && (outcome.BrokenWrite? || outcome.ClosedBy?)
      ensures refusals >= old(refusals) && (found && stop && outcome.BrokenWrite? <==> refusals > old(refusals))
      ensures !found ==>
                && !stop && Steady() && (forall s :: !Unserved(trace, s))
                && (aActive ==> A in quiet) && (bActive ==> B in quiet)
    {
      if aActive {
        found := StreamPending(A);
        ghost var asked := trace;
        if found {
          stop, outcome := ForwardOne(A);
          PrecedesTransitive(old(trace), asked, trace);
          return;
        }
      }
      if bActive {
        found := StreamPending(B);
        ghost var asked := trace;
        if found {
          stop, outcome := ForwardOne(B);
          PrecedesTransitive(old(trace), asked, trace);
          return;
        }
      }
      return false, false, Stopped;
    }

    /** The only stream with input is served. */
    method ForwardOne(src: Side) returns (stop: bool, outcome: Outcome)
      requires Steady() && Active(src) && !Unserved(trace, Other(src))
      modifies this`trace, this`signals, this`refusals, this`shutdownErrors, this`quiet
      modifies this`aActive, this`bActive, Of(Other(src))
      ensures Precedes(old(trace), trace)
      ensures !stop ==> Inv()
      ensures stop ==> Finished(outcome) && (outcome.BrokenWrite? || outcome.ClosedBy?)
      ensures refusals >= old(refusals) && (stop && outcome.BrokenWrite? <==> refusals > old(refusals))
    {
      stop, outcome := Forward(src);
    }

    /** A run of the relay, stopped by a signal after at most `turns` turns. It
        ends sooner only for a cause: with no write refused, no tick or poll
        failed, no timeout and no end of a stream it goes on. */
    method Run(turns: nat) returns (rc: int, outcome: Outcome, used: nat)
      requires Inv()
      modifies this, a, b
      ensures Precedes(old(trace), trace)
      ensures Finished(outcome) && (outcome == Stopped ==> used == turns)
      ensures Caused(true, outcome, old(refusals), old(tickErrors), old(pollErrors), old(timeouts))
      ensures rc == if outcome.BrokenWrite? || outcome.TickFailed? || outcome.PollFailed? then -1 else 0
      ensures rc == 0 ==> Conserved(trace)
      ensures old(aActive || bActive) && refusals == old(refusals) && tickErrors == old(tickErrors) &&
              pollErrors == old(pollErrors) && timeouts == old(timeouts) &&
              (forall s :: HasEnded(trace, s) ==> HasEnded(old(trace), s)) ==>
                outcome == Stopped && used == turns
      ensures !a.tls && !b.tls ==> tickErrors == old(tickErrors)
      ensures used <= turns && polls + pendings >= old(polls + pendings) + used
      ensures forall s :: Given(old(trace), s) <= Given(trace, s) && Taken(old(trace), s) <= Taken(trace, s)
    {
      used := 0;
      rc, outcome := 0, Stopped;
      var stop := false;
      while used < turns && (aActive || bActive) && !stop
        invariant used <= turns && Precedes(old(trace), trace)
        invariant stop ==> Finished(outcome) && outcome != Stopped
        invariant !stop ==> Inv() && outcome == Stopped
        invariant Caused(stop, outcome, old(refusals), old(tickErrors), old(pollErrors), old(timeouts))
        invariant !a.tls && !b.tls ==> tickErrors == old(tickErrors)
        invariant polls + pendings >= old(polls + pendings) + used
        decreases turns - used, !stop
      {
        ghost var before := trace;
        var how: Outcome;
        stop, how := Turn();
        PrecedesTransitive(old(trace), before, trace);
        if stop {
          outcome := how;
        } else {
          used := used + 1;
        }
      }
      if !stop && !aActive && !bActive {
        outcome := Drained;
      }
      rc := if outcome.BrokenWrite? || outcome.TickFailed? || outcome.PollFailed? then -1 else 0;
      forall s
        ensures Given(old(trace), s) <= Given(trace, s) && Taken(old(trace), s) <= Taken(trace, s)
      {
        FlowGrows(old(trace), trace, s);
      }
    }

    /** `wcat_copy_stream`: pump one way until the source ends. */
    method CopyStream(turns: nat) returns (rc: int, used: nat)
      requires Inv() && aActive && Shuts(trace, B) == 0
      modifies this`trace, this`signals, this`refusals, this`quiet
      ensures Precedes(old(trace), trace)
      ensures rc == 0 || rc == -1
      ensures rc == -1 <==> refusals > old(refusals)
      ensures Orderly(trace) && Shuts(trace, B) == 0
      ensures rc == 0 ==> HasEnded(trace, A) || used == turns
      ensures rc == 0 ==> Given(trace, B) == Taken(trace, A)
      ensures rc == -1 ==> Given(trace, B) < Taken(trace, A)
    {
      rc, used := 0, 0;
      while used < turns
        invariant used <= turns && refusals == old(refusals) && Precedes(old(trace), trace)
        invariant Orderly(trace) && Conserved(trace) && !HasEnded(trace, A) && Shuts(trace, B) == 0
      {
        ghost var before := trace;
        rc := PumpOnce(A);
        PrecedesTransitive(old(trace), before, trace);
        if rc <= 0 {
          return;
        }
        used := used + 1;
      }
      return 0, used;
    }
  }

  /** A configured timeout that no run reports: one second, with a stream that
      has a tick. However many polls time out, the relay goes on. */
  method UnreportedTimeout(turns: nat, signals: nat) returns (relay: Relay, outcome: Outcome, used: nat)
    ensures relay.timeout == 1000 && relay.a.tls && !relay.b.tls
    ensures outcome != TimedOut && (outcome == Stopped ==> used == turns)
  {
    var a := new Stream(true, 3, 3, false, true, true);
    var b := new Stream(false, 0, 1, false, false, true);
    relay := new Relay(a, b, 1000, signals);
    var rc: int;
    rc, outcome, used := relay.Run(turns);
  }

  /** Two plain sockets: no tick ever fails, and without a timeout the relay
      returns -1 only after a refused write or a failed poll. */
  method PlainRelay(turns: nat, signals: nat) returns (relay: Relay, rc: int, outcome: Outcome, used: nat)
    ensures !relay.a.tls && !relay.b.tls && relay.timeout == -1
    ensures outcome != TickFailed && outcome != TimedOut
    ensures rc == -1 <==> relay.refusals + relay.pollErrors > 0
    ensures rc == 0 && !HasEnded(relay.trace, A) && !HasEnded(relay.trace, B) ==> outcome == Stopped && used == turns
  {
    var a := new Stream(false, 3, 3, true, true, true);
    var b := new Stream(false, 4, 4, true, true, true);
    relay := new Relay(a, b, -1, signals);
    rc, outcome, used := relay.Run(turns);
  }

  /** Over a whole orderly trace a stream is half-closed at most once. */
  lemma {:induction false} ShutAtMostOnce(tr: Trace, s: Side)
    requires Orderly(tr)
    ensures Shuts(tr, s) <= 1
  {
    if tr.Then? {
      ShutAtMostOnce(tr.past, s);
    }
  }

  /** What was read and written at one moment of a run is a prefix of what was
      read and written at a later one, and ends and half-closes stay. */
  lemma {:induction false} FlowGrows(early: Trace, late: Trace, s: Side)
    requires Precedes(early, late)
    ensures Taken(early, s) <= Taken(late, s) && Given(early, s) <= Given(late, s)
    ensures (HasEnded(early, s) ==> HasEnded(late, s)) && Shuts(early, s) <= Shuts(late, s)
    decreases late
  {
    if early != late {
      FlowGrows(early, late.past, s);
    }
  }

  /** Once a stream is half-closed, it had been given all that its opposite
      ever yields, and that is all it is ever given. */
  lemma {:induction false} HalfCloseIsFinal(early: Trace, late: Trace, s: Side)
    requires Orderly(late) && Precedes(early, late) && Shuts(early, s) > 0
    ensures Shuts(late, s) == 1
    ensures Given(late, s) == Given(early, s) == Taken(early, Other(s)) == Taken(late, Other(s))
    decreases late
  {
    ShutAtMostOnce(late, s);
    if early != late {
      HalfCloseIsFinal(early, late.past, s);
      EndIsFinal(late.past, s);
    } else if late.Then? && Shuts(late.past, s) > 0 {
      HalfCloseIsFinal(late.past, late.past, s);
      EndIsFinal(late.past, s);
    }
  }

  lemma {:induction false} EndIsFinal(tr: Trace, s: Side)
    requires Orderly(tr) && Shuts(tr, s) > 0
    ensures HasEnded(tr, Other(s))
  {
    if Shuts(tr.past, s) > 0 {
      EndIsFinal(tr.past, s);
    }
  }
}
