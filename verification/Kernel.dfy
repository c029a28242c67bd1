/** The operating system as the broker sees it.

    Every answer is chosen freely inside the method bodies, so a proof that
    goes through the contracts covers every behaviour of the descriptors.
    A connection is the number of the `accept` that produced it; descriptors
    are reused, connections never are. */
module Kernel {
  import opened Traces

  datatype Event =
    | Accepted(conn: nat)
    | Joined(conn: nat, id: nat, slot: nat)
    | Received(conn: nat, data: string)
    | Broadcast(conn: nat, payload: string)
    | Wrote(conn: nat, data: string)
    | Closed(conn: nat)

  type Trace = Traces.Trace<Event>

  // ----- what a trace says about one connection -----

  datatype Phase = Absent | Present | Gone

  /** Everything the trace shows about a connection: the octets read from it,
      the payloads broadcast on its behalf, the payloads broadcast by others
      while it was present, and the octets written to it. */
  datatype View = View(phase: Phase, id: nat, slot: nat,
                       received: string, sent: string, owed: string, delivered: string)

  const UNSEEN: View := View(Absent, 0, 0, "", "", "", "")

  ghost function Look(tr: Trace, c: nat): View {
    match tr
    case Start => UNSEEN
    case Then(past, e) => Observe(Look(past, c), e, c)
  }

  ghost function Observe(v: View, e: Event, c: nat): View {
    match e
    case Accepted(_) => v
    case Joined(d, id, slot) => if d == c then v.(phase := Present, id := id, slot := slot) else v
    case Received(d, data) => if d == c then v.(received := v.received + data) else v
    case Broadcast(d, payload) =>
      if d == c then v.(sent := v.sent + payload)
      else if v.phase.Present? then v.(owed := v.owed + payload)
      else v
    case Wrote(d, data) => if d == c then v.(delivered := v.delivered + data) else v
    case Closed(d) => if d == c && v.phase.Present? then v.(phase := Gone) else v
  }

  ghost function GoneAt(views: seq<View>, c: nat): seq<View> {
    if c < |views| && views[c].phase.Present? then views[c := views[c].(phase := Gone)] else views
  }

  /** What a connection sent, got and was owed at one moment of a run is a
      prefix of what it sent, got and was owed at a later one. */
  lemma {:induction false} HistoryGrows(early: Trace, late: Trace, c: nat)
    requires Precedes(early, late)
    ensures var v, w := Look(early, c), Look(late, c);
            && v.received <= w.received && v.sent <= w.sent
            && v.owed <= w.owed && v.delivered <= w.delivered
    decreases late
  {
    if early != late {
      HistoryGrows(early, late.past, c);
    }
  }

  /** What a connection got at one moment is a prefix of what it got later. */
  lemma NothingUnsent(early: Trace, late: Trace)
    requires Precedes(early, late)
    ensures forall c: nat :: Look(early, c).delivered <= Look(late, c).delivered
  {
    forall c: nat
      ensures Look(early, c).delivered <= Look(late, c).delivered
    {
      HistoryGrows(early, late, c);
    }
  }

  datatype ReadResult = Got(data: string) | Eof | ReadWouldBlock | ReadInterrupted | ReadFailed

  datatype WriteResult = Put(count: nat) | WriteWouldBlock | WriteInterrupted | WriteFailed

  datatype Revents = Revents(pollIn: bool, pollOut: bool, pollHup: bool, pollErr: bool, pollNval: bool)

  datatype PollEntry = PollEntry(fd: int, wantOut: bool)

  /** Input, an end or an error was reported. */
  predicate Hot(ev: Revents) {
    ev.pollIn || ev.pollHup || ev.pollErr || ev.pollNval
  }

  predicate Faulty(ev: Revents) {
    ev.pollErr || ev.pollNval
  }

  datatype PollResult =
    | PollInterrupted
    | PollFailed
    | PollTimeout
    | PollReady(listenerIn: bool, revents: seq<Revents>)

  /** What the last `poll` reported and was not acted on since: descriptors with
      input or an end and neither read nor closed, those that take output and
      were neither written nor closed, those in error and not closed, and peers
      that wait to be accepted. */
  datatype Duties = Duties(input: set<int>, output: set<int>, errors: set<int>, callers: bool)

  const NO_DUTY: Duties := Duties({}, {}, {}, false)

  ghost function AllOf(d: Duties): set<int> {
    d.input + d.output + d.errors
  }

  ghost predicate Fewer(now: Duties, before: Duties) {
    && now.input <= before.input && now.output <= before.output && now.errors <= before.errors
    && now.callers == before.callers
  }

  ghost function Without(d: Duties, fd: int): Duties {
    Duties(d.input - {fd}, d.output - {fd}, d.errors - {fd}, d.callers)
  }

  /** How often reads ended or failed, reads found nothing, writes failed, and
      descriptors were reported in error. */
  datatype Mishaps = Mishaps(ends: nat, stalls: nat, writeErrors: nat, faults: nat)

  ghost function AfterWrites(m: Mishaps, ok: bool): Mishaps {
    m.(writeErrors := m.writeErrors + if ok then 0 else 1)
  }

  class Kernel {
    ghost var trace: Trace
    /** The view of every connection accepted so far. */
    ghost var views: seq<View>
    /** Open peer descriptors and the connection behind each. */
    var open: map<int, nat>
    var accepted: nat
    /** Signals still to come; finitely many, so that EINTR loops end. */
    var signals: nat
    var allocFailures: nat
    /** Writes that took nothing, peers the access check refused, polls that failed. */
    ghost var refusals: nat
    ghost var turnedAway: nat
    ghost var pollErrors: nat
    ghost var polls: nat
    ghost var duties: Duties
    ghost var mishaps: Mishaps

    ghost predicate Valid()
      reads this`trace, this`views, this`open, this`accepted, this`duties
    {
      && |views| == accepted
      && (forall c: nat {:trigger Look(trace, c)} :: Look(trace, c) == if c < accepted then views[c] else UNSEEN)
      && duties.input <= open.Keys && duties.output <= open.Keys && duties.errors <= open.Keys
      && (forall f | f in open :: f >= 0 && open[f] < accepted)
    }

    constructor (signals: nat)
      ensures Valid() && open == map[] && trace == Start && accepted == 0
    {
      this.trace, this.views, this.open, this.accepted := Start, [], map[], 0;
      this.signals, this.allocFailures := signals, 0;
      this.refusals, this.turnedAway, this.pollErrors, this.polls := 0, 0, 0, 0;
      this.duties, this.mishaps := NO_DUTY, Mishaps(0, 0, 0, 0);
    }

    /** Puts an event on record. */
    ghost method Record(e: Event)
      requires Valid() && e.conn < accepted
      modifies this`trace, this`views
      ensures Valid() && trace == Then(old(trace), e)
      ensures forall c | 0 <= c < |views| :: views[c] == Observe(old(views)[c], e, c)
      ensures !e.Broadcast? ==> views == old(views)[e.conn := Observe(old(views)[e.conn], e, e.conn)]
    {
      var before := views;
      views := seq(|before|, c requires 0 <= c < |before| => Observe(before[c], e, c));
      forall c: nat
        ensures Look(Then(trace, e), c) == if c < accepted then views[c] else UNSEEN
      {
        assert Look(trace, c) == if c < accepted then before[c] else UNSEEN;
      }
      trace := Then(trace, e);
    }

    method Accept() returns (fd: int)
      requires Valid()
      modifies this`trace, this`views, this`open, this`accepted, this`duties
      ensures Valid() && Precedes(old(trace), trace) && duties == old(duties).(callers := false)
      ensures fd < 0 ==> trace == old(trace) && views == old(views) && open == old(open) && accepted == old(accepted)
      ensures fd >= 0 ==>
                && fd !in old(open) && open == old(open)[fd := old(accepted)]
                && accepted == old(accepted) + 1
                && trace == Then(old(trace), Accepted(old(accepted)))
                && views == old(views) + [UNSEEN]
    {
      fd := *;
      duties := duties.(callers := false);
      if fd in open {
        fd := -1;
      }
      if fd >= 0 {
        var conn := accepted;
        assert Look(trace, conn) == UNSEEN;
        open := open[fd := conn];
        accepted := accepted + 1;
        views := views + [UNSEEN];
        Record(Accepted(conn));
      }
    }

    method Read(fd: int, max: nat) returns (r: ReadResult)
      requires Valid() && fd in open && max > 0
      modifies this`trace, this`views, this`signals, this`duties, this`mishaps
      ensures Valid() && duties == old(duties).(input := old(duties).input - {fd})
      ensures mishaps == AfterRead(old(mishaps), r)
      ensures r.ReadInterrupted? ==> signals < old(signals)
      ensures !r.ReadInterrupted? ==> signals == old(signals)
      ensures r.Got? ==> 0 < |r.data| <= max && Heard(fd, r.data, old(trace), old(views))
      ensures !r.Got? ==> trace == old(trace) && views == old(views)
    {
      r := *;
      duties := duties.(input := duties.input - {fd});
      if r.Got? {
        if |r.data| == 0 {
          r := Eof;
        } else {
          if |r.data| > max {
            r := Got(r.data[..max]);
          }
          Record(Received(open[fd], r.data));
        }
      } else if r.ReadInterrupted? {
        if signals == 0 {
          r := ReadWouldBlock;
        } else {
          signals := signals - 1;
        }
      }
      mishaps := AfterRead(mishaps, r);
    }

    ghost function AfterRead(m: Mishaps, r: ReadResult): Mishaps {
      if r.Eof? || r.ReadFailed? then m.(ends := m.ends + 1)
      else if r.ReadWouldBlock? then m.(stalls := m.stalls + 1)
      else m
    }

    /** `data` was read from the connection on `fd`. */
    ghost predicate Heard(fd: int, data: string, before: Trace, seen: seq<View>)
      reads this`trace, this`views, this`open
    {
      && fd in open && open[fd] < |seen|
      && trace == Then(before, Received(open[fd], data))
      && views == seen[open[fd] := seen[open[fd]].(received := seen[open[fd]].received + data)]
    }

    /** `read`, repeated while it is interrupted. */
    method ReadRetrying(fd: int, max: nat) returns (r: ReadResult)
      requires Valid() && fd in open && max > 0
      modifies this`trace, this`views, this`signals, this`duties, this`mishaps
      ensures Valid() && !r.ReadInterrupted? && duties == old(duties).(input := old(duties).input - {fd})
      ensures mishaps == AfterRead(old(mishaps), r)
      ensures r.Got? ==> 0 < |r.data| <= max && Heard(fd, r.data, old(trace), old(views))
      ensures !r.Got? ==> trace == old(trace) && views == old(views)
    {
      r := Read(fd, max);
      while r.ReadInterrupted?
        invariant Valid() && duties == old(duties).(input := old(duties).input - {fd})
        invariant mishaps == AfterRead(old(mishaps), r)
        invariant r.Got? ==> 0 < |r.data| <= max && Heard(fd, r.data, old(trace), old(views))
        invariant !r.Got? ==> trace == old(trace) && views == old(views)
        decreases signals + if r.ReadInterrupted? then 1 else 0
      {
        r := Read(fd, max);
      }
    }

    /** `write`: the descriptor must be open and some prefix of `buf` goes out. */
    method Write(fd: int, buf: string) returns (r: WriteResult)
      requires Valid() && fd in open
      modifies this`trace, this`views, this`signals, this`refusals, this`duties, this`mishaps
      ensures Valid() && duties == old(duties).(output := old(duties).output - {fd})
      ensures mishaps == old(mishaps).(writeErrors := old(mishaps).writeErrors + if r.WriteFailed? then 1 else 0)
      ensures refusals == old(refusals) +
                          if r.WriteWouldBlock? || r.WriteFailed? || (r.Put? && r.count == 0) then 1 else 0
      ensures r.WriteInterrupted? ==> signals < old(signals)
      ensures !r.WriteInterrupted? ==> signals == old(signals)
      ensures r.Put? ==>
                && r.count <= |buf| && trace == Then(old(trace), Wrote(open[fd], buf[..r.count]))
                && var v := old(views)[open[fd]];
                   views == old(views)[open[fd] := v.(delivered := v.delivered + buf[..r.count])]
      ensures !r.Put? ==> trace == old(trace) && views == old(views)
    {
      r := *;
      duties := duties.(output := duties.output - {fd});
      if r.WriteFailed? {
        mishaps := mishaps.(writeErrors := mishaps.writeErrors + 1);
      }
      if r.Put? {
        var n: int := *;
        r := Put(if 0 <= n < |buf| then n else |buf|);
        Record(Wrote(open[fd], buf[..r.count]));
      } else if r.WriteInterrupted? {
        if signals == 0 {
          r := WriteWouldBlock;
        } else {
          signals := signals - 1;
        }
      }
      if r.WriteWouldBlock? || r.WriteFailed? || (r.Put? && r.count == 0) {
        refusals := refusals + 1;
      }
    }

    /** `close`: only ever called on an open descriptor. */
    method Close(fd: int)
      requires Valid() && fd in open
      modifies this`trace, this`views, this`open, this`duties
      ensures Valid()
      ensures open == old(open) - {fd} && duties == Without(old(duties), fd)
      ensures trace == Then(old(trace), Closed(old(open)[fd]))
      ensures views == GoneAt(old(views), old(open)[fd])
    {
      Record(Closed(open[fd]));
      open, duties := open - {fd}, Without(duties, fd);
    }

    method Allocate() returns (ok: bool)
      modifies this`allocFailures
      ensures allocFailures == old(allocFailures) + if ok then 0 else 1
    {
      ok := *;
      if !ok {
        allocFailures := allocFailures + 1;
      }
    }

    /** `poll` over the listener and the peers, all of them open; output is
        reported only where it was asked for. */
    method Poll(pfds: seq<PollEntry>) returns (r: PollResult)
      requires Valid() && forall j | 0 <= j < |pfds| :: pfds[j].fd in open
      modifies this`duties, this`pollErrors, this`polls, this`mishaps
      ensures Valid() && polls == old(polls) + 1
      ensures pollErrors == old(pollErrors) + if r.PollFailed? then 1 else 0
      ensures r.PollReady? ==>
                && |r.revents| == |pfds|
                && (forall j | 0 <= j < |pfds| && r.revents[j].pollOut :: pfds[j].wantOut)
                && duties == Due(pfds, r)
      ensures !r.PollReady? ==> duties == NO_DUTY
      ensures mishaps == old(mishaps).(faults := old(mishaps).faults + |duties.errors|)
    {
      r := *;
      if r.PollReady? && |r.revents| != |pfds| {
        r := PollTimeout;
      }
      if r.PollReady? {
        r := r.(revents := seq(|pfds|, j requires 0 <= j < |pfds| =>
                             r.revents[j].(pollOut := r.revents[j].pollOut && pfds[j].wantOut)));
      }
      duties := if r.PollReady? then Due(pfds, r) else NO_DUTY;
      polls, pollErrors := polls + 1, pollErrors + if r.PollFailed? then 1 else 0;
      mishaps := mishaps.(faults := mishaps.faults + |duties.errors|);
    }

    ghost function Due(pfds: seq<PollEntry>, r: PollResult): Duties
      requires r.PollReady? && |r.revents| == |pfds|
    {
      Duties(set j | 0 <= j < |pfds| && Hot(r.revents[j]) :: pfds[j].fd,
             set j | 0 <= j < |pfds| && r.revents[j].pollOut :: pfds[j].fd,
             set j | 0 <= j < |pfds| && Faulty(r.revents[j]) :: pfds[j].fd,
             r.listenerIn)
    }

    /** The answer of the access check for a new peer. */
    method Admit() returns (ok: bool)
      modifies this`turnedAway
      ensures turnedAway == old(turnedAway) + if ok then 0 else 1
    {
      ok := *;
      if !ok {
        turnedAway := turnedAway + 1;
      }
    }
  }
}
