/** The broker of src/broker.c: a table of client slots with bounded output
    queues, fan-out to every other client, and an event loop over `poll`. */
module Broker {
  import opened Text
  import opened Traces
  import opened Kernel
  import opened Chat

  /** What the broker must have broadcast for a client after reading `s` from it. */
  ghost function Expected(chat: bool, id: nat, s: string): string {
    if chat then Format(Label(id), true, s).text else s
  }

  ghost function ExpectedLineStart(chat: bool, id: nat, s: string): bool {
    if chat then Format(Label(id), true, s).lineStart else true
  }

  /** Reading one more chunk extends what must have been broadcast. */
  lemma ExpectedGrows(chat: bool, id: nat, s: string, data: string)
    ensures !chat ==> Expected(chat, id, s + data) == Expected(chat, id, s) + data
    ensures chat ==>
              var f := Format(Label(id), ExpectedLineStart(chat, id, s), data);
              && Expected(chat, id, s + data) == Expected(chat, id, s) + f.text
              && ExpectedLineStart(chat, id, s + data) == f.lineStart
  {
    FormatHomomorphism(Label(id), true, s, data);
  }

  /** What was broadcast for a client reads back as what it sent, in chat mode
      too, but for backslashes. */
  lemma BroadcastReadsBack(chat: bool, id: nat, s: string)
    requires '\\' !in s
    ensures (if chat then ReadBack(true, Expected(chat, id, s)) else Expected(chat, id, s)) == s
  {
    ChatReadsBack(id, true, s);
  }

  // ----- one client slot -----

  class Client {
    /** Where in the table this slot is. */
    ghost const slot: nat
    var fd: int
    var id: nat
    var lineStart: bool
    /** The queue allocation; `out[outOff..outLen]` is still to be written. */
    var out: string
    var outLen: nat
    var outOff: nat

    ghost predicate IsReset()
      reads this
    {
      fd == -1 && id == 0 && lineStart && out == "" && outLen == 0 && outOff == 0
    }

    ghost predicate Valid(maxBuffer: nat)
      reads this
    {
      && outOff <= outLen <= |out|
      && outLen <= maxBuffer
      && id < UINT_RANGE
      && (fd < 0 ==> IsReset())
    }

    ghost function Pending(): string
      requires outOff <= outLen <= |out|
      reads this
    {
      out[outOff..outLen]
    }

    /** The queue of a live client, none for a free slot. */
    ghost function Queue(): Option<string>
      requires outOff <= outLen <= |out|
      reads this
    {
      if fd < 0 then None else Some(Pending())
    }

    constructor (ghost slot: nat)
      ensures IsReset() && this.slot == slot
    {
      this.slot := slot;
      fd, id, lineStart, out, outLen, outOff := -1, 0, true, "", 0, 0;
    }

    /** A free slot takes a new connection; its queue is empty. */
    method Occupy(newFd: int, newId: nat)
      requires IsReset()
      modifies this
      ensures fd == newFd && id == newId && lineStart && out == "" && outLen == 0 && outOff == 0
    {
      fd, id, lineStart := newFd, newId, true;
    }

    method Drop(kernel: Kernel)
      requires kernel.Valid() && fd in kernel.open
      modifies this, kernel`trace, kernel`views, kernel`open, kernel`duties
      ensures IsReset() && kernel.Valid()
      ensures kernel.open == old(kernel.open) - {old(fd)} && kernel.duties == Without(old(kernel.duties), old(fd))
      ensures kernel.trace == Then(old(kernel.trace), Closed(old(kernel.open)[old(fd)]))
      ensures kernel.views == GoneAt(old(kernel.views), old(kernel.open[fd]))
    {
      kernel.Close(fd);
      fd, out, id, lineStart, outLen, outOff := -1, "", 0, true, 0, 0;
    }

    /** Queues `buf` behind what is pending, or refuses and queues none of it. */
    method QueueBytes(kernel: Kernel, buf: string, maxBuffer: nat) returns (ok: bool)
      requires Valid(maxBuffer) && fd >= 0
      modifies this`out, this`outLen, this`outOff, kernel`allocFailures
      ensures Valid(maxBuffer)
      ensures Pending() == old(Pending()) + if ok then buf else ""
      ensures old(|Pending()|) + |buf| > maxBuffer ==> !ok && kernel.allocFailures == old(kernel.allocFailures)
      ensures old(|Pending()|) + |buf| <= maxBuffer ==>
                kernel.allocFailures == old(kernel.allocFailures) + if ok then 0 else 1
    {
      var pending := outLen - outOff;
      if |buf| > maxBuffer || pending > maxBuffer - |buf| {
        return false;
      }
      if outOff > 0 && pending > 0 {
        out := out[outOff..outLen] + out[pending..];
        outLen, outOff := pending, 0;
      } else if pending == 0 {
        outLen, outOff := 0, 0;
      }
      var granted := kernel.Allocate();
      if !granted {
        return false;
      }
      out := out[..outLen] + buf;
      outLen := outLen + |buf|;
      return true;
    }

    /** Only what was delivered to `conn` has grown, by what left the queue. */
    ghost predicate Flushing(kernel: Kernel, conn: nat, before: seq<View>, queue: string)
      requires outOff <= outLen <= |out| && conn < |before|
      reads this, kernel`views
    {
      && |kernel.views| == |before|
      && var now := kernel.views[conn];
         && kernel.views == before[conn := before[conn].(delivered := now.delivered)]
         && now.delivered + Pending() == before[conn].delivered + queue
    }

    /** Since then, some of `queue` was written to `conn`, and nothing else happened. */
    ghost predicate WroteSince(kernel: Kernel, conn: nat, trace: Traces.Trace<Event>, views: seq<View>,
                               duties: Duties, queue: string)
      requires outOff <= outLen <= |out| && conn < |views|
      reads this, kernel`trace, kernel`views, kernel`duties
    {
      && Precedes(trace, kernel.trace)
      && Flushing(kernel, conn, views, queue)
      && kernel.duties == duties.(output := kernel.duties.output) && kernel.duties.output <= duties.output
      && (fd !in kernel.duties.output || Pending() == queue)
    }

    /** One `write` of what is left of the queue. */
    method WriteSome(kernel: Kernel, maxBuffer: nat, ghost conn: nat, ghost trace: Traces.Trace<Event>,
                     ghost views: seq<View>, ghost duties: Duties, ghost queue: string) returns (r: WriteResult)
      requires Valid(maxBuffer) && kernel.Valid() && fd in kernel.open && kernel.open[fd] == conn && outOff < outLen
      requires conn < |views| && WroteSince(kernel, conn, trace, views, duties, queue)
      modifies this`outOff, kernel`trace, kernel`views, kernel`signals, kernel`refusals, kernel`duties, kernel`mishaps
      ensures Valid(maxBuffer) && kernel.Valid() && WroteSince(kernel, conn, trace, views, duties, queue)
      ensures fd !in kernel.duties.output
      ensures kernel.mishaps == AfterWrites(old(kernel.mishaps), !r.WriteFailed?)
      ensures kernel.refusals == old(kernel.refusals) +
                                 if r.WriteWouldBlock? || r.WriteFailed? || (r.Put? && r.count == 0) then 1 else 0
      ensures outOff == old(outOff) + if r.Put? then r.count else 0
      ensures r.WriteInterrupted? ==> kernel.signals < old(kernel.signals)
      ensures !r.WriteInterrupted? ==> kernel.signals == old(kernel.signals)
    {
      ghost var left, written, sofar := Pending(), kernel.views[conn].delivered, kernel.trace;
      r := kernel.Write(fd, out[outOff..outLen]);
      PrecedesTransitive(trace, sofar, kernel.trace);
      if r.Put? {
        outOff := outOff + r.count;
        assert left == left[..r.count] + Pending();
        Assoc(written, left[..r.count], Pending());
      }
    }

    /** Writes as much of the queue as the descriptor takes: only this client's
        connection is written to, in queue order, and nothing is skipped. */
    method Flush(kernel: Kernel, maxBuffer: nat) returns (ok: bool)
      requires Valid(maxBuffer) && kernel.Valid() && fd in kernel.open
      modifies this`outLen, this`outOff, kernel`trace, kernel`views, kernel`signals, kernel`refusals
      modifies kernel`duties, kernel`mishaps
      ensures Valid(maxBuffer) && kernel.Valid() && Precedes(old(kernel.trace), kernel.trace)
      ensures kernel.duties == old(kernel.duties).(output := kernel.duties.output)
      ensures kernel.duties.output <= old(kernel.duties).output
      ensures old(Pending()) != "" ==> fd !in kernel.duties.output
      ensures kernel.mishaps == AfterWrites(old(kernel.mishaps), ok)
      ensures kernel.refusals == old(kernel.refusals) ==> ok && Pending() == ""
      ensures Flushing(kernel, kernel.open[fd], old(kernel.views), old(Pending()))
    {
      ghost var conn, trace, views := kernel.open[fd], kernel.trace, kernel.views;
      ghost var duties, queue := kernel.duties, Pending();
      while outOff < outLen
        invariant Valid(maxBuffer) && kernel.Valid() && WroteSince(kernel, conn, trace, views, duties, queue)
        invariant kernel.refusals == old(kernel.refusals) && kernel.mishaps == old(kernel.mishaps)
        invariant fd !in kernel.duties.output || Pending() == queue
        decreases outLen - outOff, kernel.signals
      {
        var r := WriteSome(kernel, maxBuffer, conn, trace, views, duties, queue);
        if r.WriteFailed? {
          return false;
        }
        if r.WriteWouldBlock? || (r.Put? && r.count == 0) {
          return true;
        }
      }
      outLen, outOff := 0, 0;
      return true;
    }

    method FormatByte(kernel: Kernel, buffer: GrowBuffer, c: char) returns (ok: bool)
      requires id < UINT_RANGE && buffer.Valid() && buffer.len + LABEL_MAX + 4 <= SIZE_MAX
      modifies this`lineStart, buffer, buffer.out, kernel`allocFailures
      ensures buffer.Valid() && (buffer.out == old(buffer.out) || fresh(buffer.out))
      ensures ok ==>
                && kernel.allocFailures == old(kernel.allocFailures)
                && Formatted(buffer.Contents(), lineStart) ==
                   Extend(Label(id), Formatted(old(buffer.Contents()), old(lineStart)), c)
      ensures !ok ==> kernel.allocFailures > old(kernel.allocFailures)
    {
      LabelShape(id);
      if lineStart {
        ok := buffer.Append(kernel, Label(id));
        if !ok {
          return;
        }
      }
      ok := buffer.Append(kernel, Shown(c));
      assert ok ==> buffer.Contents() == old(buffer.Contents()) + Piece(Label(id), lineStart, c);
      lineStart := c == '\n';
    }

    /** The message for a chunk, or a refusal when memory runs out. */
    method FormatChatMessage(kernel: Kernel, buf: string) returns (ok: bool, message: string)
      requires id < UINT_RANGE && |buf| <= READ_SIZE
      modifies this`lineStart, kernel`allocFailures
      ensures ok ==> Formatted(message, lineStart) == Format(Label(id), old(lineStart), buf)
      ensures if ok then kernel.allocFailures == old(kernel.allocFailures)
              else kernel.allocFailures > old(kernel.allocFailures)
    {
      var buffer := new GrowBuffer();
      assert buf[..0] == "";
      for i := 0 to |buf|
        invariant fresh(buffer) && fresh(buffer.out) && buffer.Valid()
        invariant Formatted(buffer.Contents(), lineStart) == Format(Label(id), old(lineStart), buf[..i])
        invariant kernel.allocFailures == old(kernel.allocFailures)
      {
        LabelShape(id);
        FormatFits(Label(id), old(lineStart), buf[..i]);
        ok := FormatByte(kernel, buffer, buf[i]);
        if !ok {
          return false, "";
        }
        assert buf[..i + 1][..i] == buf[..i];
      }
      assert buf[..|buf|] == buf;
      return true, buffer.out[..buffer.len];
    }
  }

  // ----- what happened between two moments, seen from the connections -----

  /** `payload` was broadcast for `conn`: every other one present is owed it. */
  ghost predicate Told(before: seq<View>, after: seq<View>, conn: nat, payload: string) {
    && |after| == |before| && conn < |after|
    && after[conn].sent == before[conn].sent + payload
    && after[conn].received == before[conn].received
    && forall d | 0 <= d < |after| && d != conn && before[d].phase.Present? :: after[d].owed == before[d].owed + payload
  }

  /** `data` was read from `conn`, and nothing else happened. */
  ghost predicate HeardMore(before: seq<View>, after: seq<View>, conn: nat, data: string) {
    && |after| == |before| && conn < |after|
    && after == before[conn := before[conn].(received := before[conn].received + data)]
  }

  /** `data` was read from `conn` and, if it is not empty, its payload broadcast. */
  ghost predicate Passed(before: seq<View>, after: seq<View>, conn: nat, data: string, payload: string) {
    && |after| == |before| && conn < |after|
    && after[conn].received == before[conn].received + data
    && (data != "" ==>
          && after[conn].sent == before[conn].sent + payload
          && forall d | 0 <= d < |after| && d != conn && before[d].phase.Present? ::
               after[d].owed == before[d].owed + payload)
  }

  /** Only what was delivered to `conn` changed. */
  ghost predicate OnlyDelivered(before: seq<View>, after: seq<View>, conn: nat) {
    && |after| == |before| && conn < |after|
    && after == before[conn := before[conn].(delivered := after[conn].delivered)]
  }

  lemma HeardThenTold(before: seq<View>, middle: seq<View>, after: seq<View>, conn: nat, data: string, payload: string)
    requires HeardMore(before, middle, conn, data)
    requires if data == "" then after == middle else Told(middle, after, conn, payload)
    ensures Passed(before, after, conn, data, payload)
  {
  }

  lemma DeliveredThenPassed(before: seq<View>, middle: seq<View>, after: seq<View>, conn: nat,
                            data: string, payload: string)
    requires OnlyDelivered(before, middle, conn) && Passed(middle, after, conn, data, payload)
    ensures Passed(before, after, conn, data, payload)
  {
  }

  // ----- the slot table and its event loop -----

  /** A broadcast as one slot sees it: the sender and free slots are left
      alone, a receiver gets all of it or is dropped for being too slow. */
  function ShareOf(queue: Option<string>, isSender: bool, payload: string, maxBuffer: nat): Option<string> {
    if isSender || queue.None? then queue
    else if |queue.value| + |payload| > maxBuffer then None
    else Some(queue.value + payload)
  }

  function Shared(queues: seq<Option<string>>, sender: nat, payload: string, maxBuffer: nat): seq<Option<string>> {
    seq(|queues|, k requires 0 <= k < |queues| => ShareOf(queues[k], k == sender, payload, maxBuffer))
  }

  /** A state of the broker, to measure later ones against. */
  datatype Moment = Moment(trace: Traces.Trace<Event>, open: map<int, nat>, duties: Duties, views: seq<View>,
                           fds: seq<int>, loads: seq<int>, allocFailures: nat, overflows: nat)

  /** How a turn of the event loop ended. */
  datatype TurnEnd = PollBroke | Idle | PeerRefused | Served

  class Broker {
    const kernel: Kernel
    const clients: seq<Client>
    const maxBuffer: nat
    const chat: bool
    var nextClientId: nat
    /** How many payloads did not fit the queue of a receiver. */
    ghost var overflows: nat

    ghost function Unqueued(i: int, lo: int, sender: int, payload: string): string {
      if i < lo || i == sender then "" else payload
    }

    /** The slot holds the connection of view `v`, whose queue is what it is owed
        minus what it got, short of a payload still on its way. */
    ghost predicate Serves(i: int, v: View, unqueued: string)
      requires 0 <= i < |clients| && clients[i].Valid(maxBuffer)
      reads clients[i]
    {
      var s := clients[i];
      && v.phase.Present? && v.slot == i && v.id == s.id
      && v.owed == v.delivered + s.Pending() + unqueued
      && v.sent == Expected(chat, s.id, v.received)
      && s.lineStart == ExpectedLineStart(chat, s.id, v.received)
    }

    /** The view of the connection in slot `i`. */
    ghost function ViewOf(i: int): View
      requires 0 <= i < |clients| && clients[i].fd in kernel.open && kernel.open[clients[i].fd] < |kernel.views|
      reads kernel`open, kernel`views, clients[i]
    {
      kernel.views[kernel.open[clients[i].fd]]
    }

    ghost predicate Connected(i: int)
      requires 0 <= i < |clients|
      reads kernel`open, kernel`views, clients[i]
    {
      clients[i].fd in kernel.open && kernel.open[clients[i].fd] < |kernel.views|
    }

    /** Slot `i` is free, or serves its connection; a payload of slot `sender` is
        still on its way to the slots from `lo` on. */
    ghost predicate SlotOk(i: int, lo: int, sender: int, payload: string)
      requires 0 <= i < |clients| && clients[i].Valid(maxBuffer)
      reads kernel`open, kernel`views, clients[i]
    {
      clients[i].fd >= 0 ==> Connected(i) && Serves(i, ViewOf(i), Unqueued(i, lo, sender, payload))
    }

    /** Slot `i` holds a present connection about to be dropped. */
    ghost predicate SlotClosing(i: nat)
      requires i < |clients|
      reads kernel`open, kernel`views, clients[i]
    {
      clients[i].fd >= 0 && Connected(i) && var v := ViewOf(i); v.phase.Present? && v.slot == i && Settled(v)
    }

    /** A connection got a prefix of what it was owed, and what was broadcast
        for it is a prefix of what it sent. */
    ghost predicate Settled(v: View) {
      v.delivered <= v.owed && v.sent <= Expected(chat, v.id, v.received)
    }

    ghost predicate Table()
      reads this`nextClientId, clients
    {
      && nextClientId < UINT_RANGE
      && forall i | 0 <= i < |clients| :: clients[i].slot == i && clients[i].Valid(maxBuffer)
    }

    /** The connection of view `v`, number `c`, is in the slot it says. */
    ghost predicate Placed(c: nat, v: View)
      reads kernel`open, clients
    {
      v.slot < |clients| && clients[v.slot].fd in kernel.open && kernel.open[clients[v.slot].fd] == c
    }

    /** Every connection that is present is in its slot, and the others are settled. */
    ghost predicate Accounted()
      reads kernel`open, kernel`views, clients
    {
      forall c | 0 <= c < |kernel.views| ::
        if kernel.views[c].phase.Present? then Placed(c, kernel.views[c]) else Settled(kernel.views[c])
    }

    /** The descriptor `f` is the one of the slot its connection is in. */
    ghost predicate Held(f: int)
      requires f in kernel.open && kernel.open[f] < |kernel.views|
      reads kernel`open, kernel`views, clients
    {
      var v := kernel.views[kernel.open[f]];
      v.phase.Present? && v.slot < |clients| && clients[v.slot].fd == f
    }

    /** The connections and the slots correspond one to one. */
    ghost predicate Located()
      reads this`nextClientId, kernel`trace, kernel`views, kernel`open, kernel`accepted, kernel`duties, clients
    {
      && kernel.Valid() && Accounted()
      && forall f | f in kernel.open :: Held(f)
    }

    /** The invariant while `payload` of slot `sender` is queued for the slots from `lo` on. */
    ghost predicate During(lo: int, sender: int, payload: string)
      reads this`nextClientId, kernel`trace, kernel`views, kernel`open, kernel`accepted, kernel`duties, clients
    {
      && Table() && Located()
      && forall i | 0 <= i < |clients| :: SlotOk(i, lo, sender, payload)
    }

    ghost predicate DuringExcept(hole: int, lo: int, sender: int, payload: string)
      reads this`nextClientId, kernel`trace, kernel`views, kernel`open, kernel`accepted, kernel`duties, clients
    {
      && Table() && Located()
      && 0 <= hole < |clients| && SlotClosing(hole)
      && forall i | 0 <= i < |clients| && i != hole :: SlotOk(i, lo, sender, payload)
    }

    ghost predicate Inv()
      reads this`nextClientId, kernel`trace, kernel`views, kernel`open, kernel`accepted, kernel`duties, clients
    {
      During(|clients|, -1, "")
    }

    /** The delivery theorem at any reachable state, in terms of the trace: the
        octets written to a live client followed by its queue are, in order,
        the payloads broadcast by others since it joined. */
    lemma DeliveredAndQueued(i: nat)
      requires Inv() && i < |clients| && clients[i].fd >= 0
      ensures clients[i].fd in kernel.open
      ensures var v := Look(kernel.trace, kernel.open[clients[i].fd]);
              && v.phase.Present? && v.slot == i && v.id == clients[i].id
              && v.delivered + clients[i].Pending() == v.owed
              && v.sent == Expected(chat, v.id, v.received)
    {
      assert SlotOk(i, |clients|, -1, "");
    }

    constructor (kernel: Kernel, maxClients: nat, maxBuffer: nat, chat: bool)
      requires kernel.Valid() && kernel.open == map[] && kernel.accepted == 0
      ensures Inv() && this.kernel == kernel && |clients| == maxClients
      ensures this.maxBuffer == maxBuffer && this.chat == chat && fresh(clients)
      ensures nextClientId == 1 && forall i | 0 <= i < |clients| :: clients[i].IsReset()
    {
      var table: seq<Client> := [];
      for i := 0 to maxClients
        invariant |table| == i
        invariant forall k | 0 <= k < i :: fresh(table[k]) && table[k].IsReset() && table[k].slot == k
      {
        var slot := new Client(i);
        table := table + [slot];
      }
      this.kernel, this.clients, this.maxBuffer, this.chat := kernel, table, maxBuffer, chat;
      nextClientId, overflows := 1, 0;
    }

    method DropClient(i: nat, ghost lo: int, ghost sender: int, ghost payload: string)
      requires DuringExcept(i, lo, sender, payload)
      modifies kernel`trace, kernel`views, kernel`open, kernel`duties, clients[i]
      ensures During(lo, sender, payload) && Precedes(old(kernel.trace), kernel.trace)
      ensures clients[i].IsReset()
      ensures kernel.open == old(kernel.open) - {old(clients[i].fd)}
      ensures kernel.duties == Without(old(kernel.duties), old(clients[i].fd)) && OnlyClosings()
    {
      clients[i].Drop(kernel);
      forall k | 0 <= k < |clients|
        ensures SlotOk(k, lo, sender, payload)
      {
        assert k != i ==> old(SlotOk(k, lo, sender, payload));
      }
    }

    /** The trace got no event but that connections were closed. */
    twostate predicate OnlyClosings()
      reads kernel`views
    {
      && |kernel.views| == |old(kernel.views)|
      && forall c | 0 <= c < |kernel.views| ::
           kernel.views[c] == old(kernel.views)[c].(phase := kernel.views[c].phase)
    }

    /** Every slot keeps its descriptor. */
    twostate predicate AllKept()
      reads clients
    {
      forall k | 0 <= k < |clients| :: clients[k].fd == old(clients[k].fd)
    }

    /** Every client that was there keeps its slot. */
    twostate predicate LiveKept()
      reads clients
    {
      forall k | 0 <= k < |clients| && old(clients[k].fd) >= 0 :: clients[k].fd == old(clients[k].fd)
    }

    /** Queues that were not dropped did not get shorter, but for one slot. */
    twostate predicate QueuesGrow(but: int)
      reads clients
    {
      forall k | 0 <= k < |clients| && k != but && clients[k].fd >= 0 ::
        clients[k].outLen - clients[k].outOff >= old(clients[k].outLen - clients[k].outOff)
    }

    lemma ReadyToDrop(i: nat, lo: int, sender: int, payload: string)
      requires During(lo, sender, payload) && i < |clients| && clients[i].fd >= 0
      ensures DuringExcept(i, lo, sender, payload)
    {
      assert SlotOk(i, lo, sender, payload);
    }

    method TryQueue(j: nat, ghost sender: int, payload: string) returns (queued: bool)
      requires During(j, sender, payload) && j < |clients| && j != sender && clients[j].fd >= 0
      modifies kernel`allocFailures, clients[j]
      ensures clients[j].fd == old(clients[j].fd)
      ensures if queued then During(j + 1, sender, payload) else DuringExcept(j, j + 1, sender, payload)
      ensures clients[j].Pending() == old(clients[j].Pending()) + if queued then payload else ""
      ensures old(|clients[j].Pending()|) + |payload| > maxBuffer ==>
                !queued && kernel.allocFailures == old(kernel.allocFailures)
      ensures old(|clients[j].Pending()|) + |payload| <= maxBuffer ==>
                kernel.allocFailures == old(kernel.allocFailures) + if queued then 0 else 1
    {
      assert SlotOk(j, j, sender, payload);
      Assoc(ViewOf(j).delivered, clients[j].Pending(), payload);
      queued := clients[j].QueueBytes(kernel, payload, maxBuffer);
      ghost var next := j + 1;
      forall k | 0 <= k < |clients| && (k != j || queued)
        ensures SlotOk(k, next, sender, payload)
      {
        assert old(SlotOk(k, j, sender, payload));
      }
    }

    /** One receiver of a fan-out: the payload goes behind its queue or it is
        dropped; with memory to spare it is dropped exactly when the payload
        would take its queue past the limit. */
    method QueueFor(j: nat, ghost sender: int, payload: string)
      requires During(j, sender, payload) && j < |clients| && j != sender && clients[j].fd >= 0
      modifies this`overflows, kernel`trace, kernel`views, kernel`open, kernel`duties, kernel`allocFailures, clients[j]
      ensures During(j + 1, sender, payload) && Narrowed()
      ensures clients[j].fd >= 0 ==>
                clients[j].fd == old(clients[j].fd) && clients[j].Pending() == old(clients[j].Pending()) + payload
      ensures kernel.allocFailures >= old(kernel.allocFailures)
      ensures kernel.allocFailures == old(kernel.allocFailures) ==>
                clients[j].Queue() == ShareOf(old(clients[j].Queue()), false, payload, maxBuffer)
      ensures overflows == old(overflows) + if old(|clients[j].Pending()|) + |payload| > maxBuffer then 1 else 0
      ensures OnlyClosings() && QueuesGrow(-1)
      ensures kernel.allocFailures == old(kernel.allocFailures) && overflows == old(overflows) ==>
                clients[j].fd == old(clients[j].fd)
    {
      if |clients[j].Pending()| + |payload| > maxBuffer {
        overflows := overflows + 1;
      }
      var queued := TryQueue(j, sender, payload);
      if !queued {
        DropClient(j, j + 1, sender, payload);
      }
    }

    /** Descriptors were only closed and slots only freed; nothing was reported anew. */
    twostate predicate Narrowed()
      reads kernel`trace, kernel`open, kernel`duties, clients
    {
      && Precedes(old(kernel.trace), kernel.trace)
      && Shrunk(old(kernel.open), kernel.open)
      && Fewer(kernel.duties, old(kernel.duties))
      && (forall f | f in kernel.open && f in old(kernel.duties).errors :: f in kernel.duties.errors)
      && forall k | 0 <= k < |clients| :: clients[k].fd == old(clients[k].fd) || clients[k].fd < 0
    }

    ghost predicate Shrunk(before: map<int, nat>, after: map<int, nat>) {
      forall f | f in after :: f in before && after[f] == before[f]
    }

    /** The slots hold these queues. */
    ghost predicate QueuesAre(queues: seq<Option<string>>)
      requires Table()
      reads this`nextClientId, clients
    {
      |queues| == |clients| && forall k | 0 <= k < |clients| :: clients[k].Queue() == queues[k]
    }

    /** The queues once the slots below `j` have their share. */
    ghost predicate SharedUpTo(j: int, queues: seq<Option<string>>, sender: int, payload: string)
      requires Table()
      reads this`nextClientId, clients
    {
      && |queues| == |clients|
      && (forall k | 0 <= k < |clients| && k < j ::
            clients[k].Queue() == ShareOf(queues[k], k == sender, payload, maxBuffer))
      && (forall k | 0 <= k < |clients| && j <= k :: clients[k].Queue() == queues[k])
    }

    /** One slot of a fan-out: the sender and free slots are passed over. */
    method OfferTo(j: nat, sender: nat, payload: string, ghost queues: seq<Option<string>>)
      requires During(j, sender, payload) && j < |clients|
      modifies this`overflows, kernel`trace, kernel`views, kernel`open, kernel`duties, kernel`allocFailures, clients[j]
      ensures During(j + 1, sender, payload) && Narrowed() && OnlyClosings() && QueuesGrow(-1)
      ensures overflows >= old(overflows)
      ensures kernel.allocFailures == old(kernel.allocFailures) && overflows == old(overflows) ==> AllKept()
      ensures j == sender ==> clients[j].fd == old(clients[j].fd) && clients[j].Pending() == old(clients[j].Pending())
      ensures kernel.allocFailures >= old(kernel.allocFailures)
      ensures kernel.allocFailures == old(kernel.allocFailures) && old(SharedUpTo(j, queues, sender, payload)) ==>
                SharedUpTo(j + 1, queues, sender, payload)
    {
      if clients[j].fd >= 0 && j != sender {
        QueueFor(j, sender, payload);
      } else {
        NothingToQueue(j, sender, payload);
      }
    }

    /** `m` is the state now. */
    ghost predicate IsNow(m: Moment)
      reads this`overflows, kernel`trace, kernel`open, kernel`duties, kernel`views, kernel`allocFailures, clients
    {
      && m.trace == kernel.trace && m.open == kernel.open && m.duties == kernel.duties && m.views == kernel.views
      && m.allocFailures == kernel.allocFailures && m.overflows == overflows
      && |m.fds| == |clients| && |m.loads| == |clients|
      && forall k | 0 <= k < |clients| ::
           clients[k].fd == m.fds[k] && clients[k].outLen - clients[k].outOff == m.loads[k]
    }

    lemma Now() returns (m: Moment)
      ensures IsNow(m)
    {
      var fds, loads := [], [];
      for k := 0 to |clients|
        invariant |fds| == k && |loads| == k
        invariant forall j | 0 <= j < k ::
                    clients[j].fd == fds[j] && clients[j].outLen - clients[j].outOff == loads[j]
      {
        fds, loads := fds + [clients[k].fd], loads + [clients[k].outLen - clients[k].outOff];
      }
      m := Moment(kernel.trace, kernel.open, kernel.duties, kernel.views,
                  fds, loads, kernel.allocFailures, overflows);
    }

    /** Since `m`, payloads were queued and receivers dropped, and no more. */
    ghost predicate FannedSince(m: Moment)
      reads this`overflows, kernel`trace, kernel`open, kernel`duties, kernel`views, kernel`allocFailures, clients
    {
      && Precedes(m.trace, kernel.trace) && Shrunk(m.open, kernel.open) && Fewer(kernel.duties, m.duties)
      && (forall f | f in kernel.open && f in m.duties.errors :: f in kernel.duties.errors)
      && |kernel.views| == |m.views|
      && (forall c | 0 <= c < |kernel.views| ::
            kernel.views[c] == m.views[c].(phase := kernel.views[c].phase))
      && |m.fds| == |clients| && |m.loads| == |clients|
      && (forall k | 0 <= k < |clients| :: clients[k].fd == m.fds[k] || clients[k].fd < 0)
      && (forall k | 0 <= k < |clients| && clients[k].fd >= 0 :: clients[k].outLen - clients[k].outOff >= m.loads[k])
      && kernel.allocFailures >= m.allocFailures && overflows >= m.overflows
      && (kernel.allocFailures == m.allocFailures && overflows == m.overflows ==>
            forall k | 0 <= k < |clients| :: clients[k].fd == m.fds[k])
    }

    method OfferNext(j: nat, sender: nat, payload: string, ghost queues: seq<Option<string>>, ghost m: Moment,
                     ghost own: Option<string>)
      requires During(j, sender, payload) && j < |clients| && sender < |clients|
      requires Offered(j, sender, payload, queues, m, own)
      modifies this`overflows, kernel`trace, kernel`views, kernel`open, kernel`duties, kernel`allocFailures, clients[j]
      ensures During(j + 1, sender, payload) && Offered(j + 1, sender, payload, queues, m, own)
    {
      ghost var sofar := kernel.trace;
      OfferTo(j, sender, payload, queues);
      PrecedesTransitive(m.trace, sofar, kernel.trace);
    }

    /** The fan-out of one payload. With memory to spare the queues end up as
        `Shared` says: a receiver is dropped exactly when it does not fit. */
    method FanOut(sender: nat, payload: string, ghost queues: seq<Option<string>>)
      requires During(0, sender, payload) && sender < |clients| && QueuesAre(queues)
      modifies this`overflows, kernel`trace, kernel`views, kernel`open, kernel`duties, kernel`allocFailures, clients
      ensures Inv() && Narrowed() && OnlyClosings() && QueuesGrow(-1)
      ensures overflows >= old(overflows)
      ensures kernel.allocFailures == old(kernel.allocFailures) && overflows == old(overflows) ==> AllKept()
      ensures clients[sender].fd == old(clients[sender].fd)
      ensures clients[sender].Pending() == old(clients[sender].Pending())
      ensures kernel.allocFailures >= old(kernel.allocFailures)
      ensures kernel.allocFailures == old(kernel.allocFailures) ==>
                QueuesAre(Shared(queues, sender, payload, maxBuffer))
    {
      ghost var m := Now();
      OfferAll(sender, payload, queues, m, clients[sender].Queue());
      if kernel.allocFailures == m.allocFailures {
        AllShared(queues, sender, payload);
      }
    }

    lemma AllShared(queues: seq<Option<string>>, sender: nat, payload: string)
      requires Table() && SharedUpTo(|clients|, queues, sender, payload)
      ensures QueuesAre(Shared(queues, sender, payload, maxBuffer))
    {
    }

    method OfferAll(sender: nat, payload: string, ghost queues: seq<Option<string>>, ghost m: Moment,
                    ghost own: Option<string>)
      requires During(0, sender, payload) && sender < |clients| && Offered(0, sender, payload, queues, m, own)
      modifies this`overflows, kernel`trace, kernel`views, kernel`open, kernel`duties, kernel`allocFailures, clients
      ensures Inv() && Offered(|clients|, sender, payload, queues, m, own)
    {
      for j := 0 to |clients|
        invariant During(j, sender, payload) && Offered(j, sender, payload, queues, m, own)
      {
        OfferNext(j, sender, payload, queues, m, own);
      }
      Done(sender, payload);
    }

    /** The slots below `j` were offered the payload since `m`. */
    ghost predicate Offered(j: int, sender: nat, payload: string, queues: seq<Option<string>>, m: Moment,
                            own: Option<string>)
      requires Table() && sender < |clients|
      reads this`nextClientId, this`overflows
      reads kernel`trace, kernel`open, kernel`duties, kernel`views, kernel`allocFailures, clients
    {
      && FannedSince(m) && clients[sender].fd == m.fds[sender] && clients[sender].Queue() == own
      && (kernel.allocFailures == m.allocFailures ==> SharedUpTo(j, queues, sender, payload))
    }

    lemma NothingToQueue(j: int, sender: int, payload: string)
      requires During(j, sender, payload) && 0 <= j < |clients| && (clients[j].fd < 0 || j == sender)
      ensures During(j + 1, sender, payload)
    {
      var next := j + 1;
      forall k | 0 <= k < |clients|
        ensures SlotOk(k, next, sender, payload)
      {
        assert SlotOk(k, j, sender, payload);
      }
    }

    lemma Done(sender: int, payload: string)
      requires During(|clients|, sender, payload)
      ensures Inv()
    {
      forall k | 0 <= k < |clients|
        ensures SlotOk(k, |clients|, -1, "")
      {
        assert SlotOk(k, |clients|, sender, payload);
      }
    }

    /** Every slot but `i` is as the invariant wants it. */
    ghost predicate OthersOk(i: nat)
      reads this`nextClientId, kernel`trace, kernel`views, kernel`open, kernel`accepted, kernel`duties, clients
    {
      && Table() && Located() && i < |clients| && Connected(i)
      && forall k | 0 <= k < |clients| && k != i :: SlotOk(k, |clients|, -1, "")
    }

    /** Slot `i` just read `data`, after `earlier`, and broadcast none of it yet. */
    ghost predicate Heard(i: nat, earlier: string, data: string)
      reads this`nextClientId, kernel`trace, kernel`views, kernel`open, kernel`accepted, kernel`duties, clients
    {
      && OthersOk(i)
      && var v := ViewOf(i);
         && v.received == earlier + data
         && Serves(i, v.(received := earlier), "")
    }

    /** What is broadcast for a chunk of a client. */
    ghost function Payload(id: nat, lineStart: bool, data: string): string {
      if chat then Format(Label(id), lineStart, data).text else data
    }

    /** `payload` is what the octets read from slot `i` call for next. */
    ghost predicate Due(i: nat, payload: string)
      reads this`nextClientId, kernel`trace, kernel`views, kernel`open, kernel`accepted, kernel`duties, clients
    {
      OthersOk(i) && var v := ViewOf(i); Serves(i, v.(sent := v.sent + payload), "")
    }

    /** Puts the broadcast of `payload` for slot `i` on record: from now on the
        others are owed it. */
    ghost method Announce(i: nat, payload: string)
      requires Due(i, payload)
      modifies kernel`trace, kernel`views
      ensures During(0, i, payload)
      ensures kernel.trace == Then(old(kernel.trace), Broadcast(kernel.open[clients[i].fd], payload))
      ensures Told(old(kernel.views), kernel.views, kernel.open[clients[i].fd], payload)
    {
      kernel.Record(Broadcast(kernel.open[clients[i].fd], payload));
      forall k | 0 <= k < |clients|
        ensures SlotOk(k, 0, i, payload)
      {
        if k != i && clients[k].fd >= 0 {
          assert old(SlotOk(k, |clients|, -1, ""));
          OweMore(k, old(ViewOf(k)), payload);
        }
      }
    }

    lemma OweMore(k: int, v: View, payload: string)
      requires 0 <= k < |clients| && clients[k].Valid(maxBuffer) && Serves(k, v, "")
      ensures Serves(k, v.(owed := v.owed + payload), payload)
    {
      var s := clients[k];
      assert v.delivered + s.Pending() + "" == v.delivered + s.Pending();
    }

    /** Broadcasts what slot `i` just read, as it is or as a chat message. With
        memory to spare the sender stays, and a receiver is dropped exactly when
        the payload does not fit behind its queue. */
    method Relay(i: nat, ghost earlier: string, data: string, ghost queues: seq<Option<string>>)
      requires Heard(i, earlier, data) && |data| <= READ_SIZE && QueuesAre(queues)
      modifies this`overflows, kernel`trace, kernel`views, kernel`open, kernel`duties, kernel`allocFailures, clients
      ensures Inv() && Narrowed() && QueuesGrow(-1)
      ensures kernel.allocFailures >= old(kernel.allocFailures) && overflows >= old(overflows)
      ensures kernel.allocFailures == old(kernel.allocFailures) ==>
                Told(old(kernel.views), kernel.views, old(kernel.open[clients[i].fd]),
                     Payload(old(clients[i].id), old(clients[i].lineStart), data))
      ensures kernel.allocFailures == old(kernel.allocFailures) && overflows == old(overflows) ==> AllKept()
      ensures clients[i].fd >= 0 ==> clients[i].Pending() == old(clients[i].Pending())
      ensures kernel.allocFailures == old(kernel.allocFailures) ==>
                QueuesAre(Shared(queues, i, Payload(old(clients[i].id), old(clients[i].lineStart), data), maxBuffer))
    {
      var ok, message := Compose(i, earlier, data);
      if ok {
        Spread(i, message, queues);
      } else {
        DropClient(i, |clients|, -1, "");
      }
    }

    /** Announces a payload and queues it for all the others. */
    method Spread(i: nat, payload: string, ghost queues: seq<Option<string>>)
      requires Due(i, payload) && QueuesAre(queues)
      modifies this`overflows, kernel`trace, kernel`views, kernel`open, kernel`duties, kernel`allocFailures, clients
      ensures Inv() && Narrowed() && QueuesGrow(-1)
      ensures kernel.allocFailures >= old(kernel.allocFailures) && overflows >= old(overflows)
      ensures Told(old(kernel.views), kernel.views, old(kernel.open[clients[i].fd]), payload)
      ensures clients[i].fd == old(clients[i].fd) && clients[i].Pending() == old(clients[i].Pending())
      ensures kernel.allocFailures == old(kernel.allocFailures) && overflows == old(overflows) ==> AllKept()
      ensures kernel.allocFailures == old(kernel.allocFailures) ==>
                QueuesAre(Shared(queues, i, payload, maxBuffer))
    {
      Announce(i, payload);
      ghost var announced := kernel.trace;
      FanOut(i, payload, queues);
      PrecedesTransitive(old(kernel.trace), announced, kernel.trace);
    }

    /** What is to be broadcast for `data`; a refusal means memory ran out. */
    method Compose(i: nat, ghost earlier: string, data: string) returns (ok: bool, payload: string)
      requires Heard(i, earlier, data) && |data| <= READ_SIZE
      modifies kernel`allocFailures, clients[i]
      ensures clients[i].fd == old(clients[i].fd) && clients[i].id == old(clients[i].id)
      ensures clients[i].Valid(maxBuffer) && clients[i].Pending() == old(clients[i].Pending())
      ensures clients[i].outLen == old(clients[i].outLen) && clients[i].outOff == old(clients[i].outOff)
      ensures if ok then Due(i, payload) else DuringExcept(i, |clients|, -1, "")
      ensures ok ==> payload == Payload(clients[i].id, old(clients[i].lineStart), data)
      ensures if ok then kernel.allocFailures == old(kernel.allocFailures)
              else kernel.allocFailures > old(kernel.allocFailures)
    {
      ExpectedGrows(chat, clients[i].id, earlier, data);
      if !chat {
        return true, data;
      }
      ok, payload := ComposeChat(i, data);
    }

    /** The chat message for `data`; only the line state of slot `i` changes. */
    method ComposeChat(i: nat, data: string) returns (ok: bool, message: string)
      requires OthersOk(i) && |data| <= READ_SIZE
      modifies kernel`allocFailures, clients[i]
      ensures OthersOk(i) && clients[i].fd == old(clients[i].fd) && clients[i].id == old(clients[i].id)
      ensures clients[i].Pending() == old(clients[i].Pending())
      ensures clients[i].outLen == old(clients[i].outLen) && clients[i].outOff == old(clients[i].outOff)
      ensures ok ==>
                Formatted(message, clients[i].lineStart) ==
                Format(Label(clients[i].id), old(clients[i].lineStart), data)
      ensures if ok then kernel.allocFailures == old(kernel.allocFailures)
              else kernel.allocFailures > old(kernel.allocFailures)
    {
      ok, message := clients[i].FormatChatMessage(kernel, data);
      forall k | 0 <= k < |clients| && k != i
        ensures SlotOk(k, |clients|, -1, "")
      {
        assert old(SlotOk(k, |clients|, -1, ""));
      }
    }

    lemma Snapshot() returns (queues: seq<Option<string>>)
      requires Table()
      ensures QueuesAre(queues)
    {
      queues := [];
      for j := 0 to |clients|
        invariant |queues| == j && forall k | 0 <= k < j :: clients[k].Queue() == queues[k]
      {
        queues := queues + [clients[j].Queue()];
      }
    }

    /** `read` from the client in slot `i`, repeated while it is interrupted. */
    method Hear(i: nat) returns (n: ReadResult, ghost earlier: string)
      requires Inv() && i < |clients| && clients[i].fd in kernel.open
      modifies kernel`trace, kernel`views, kernel`duties, kernel`signals, kernel`mishaps
      ensures Precedes(old(kernel.trace), kernel.trace)
      ensures kernel.mishaps == kernel.AfterRead(old(kernel.mishaps), n)
      ensures HeardMore(old(kernel.views), kernel.views, kernel.open[clients[i].fd], if n.Got? then n.data else "")
      ensures if n.Got? then Heard(i, earlier, n.data) && 0 < |n.data| && |n.data| <= READ_SIZE
              else Inv() && kernel.trace == old(kernel.trace)
      ensures !n.ReadInterrupted?
      ensures kernel.duties == old(kernel.duties).(input := old(kernel.duties).input - {clients[i].fd})
    {
      assert SlotOk(i, |clients|, -1, "");
      earlier := ViewOf(i).received;
      n := kernel.ReadRetrying(clients[i].fd, READ_SIZE);
      forall k | 0 <= k < |clients| && (k != i || !n.Got?)
        ensures SlotOk(k, |clients|, -1, "")
      {
        assert old(SlotOk(k, |clients|, -1, ""));
      }
      ghost var v := old(ViewOf(i));
      assert v.received + "" == v.received;
    }

    /** Nothing went wrong: no read ended, no write failed, no descriptor was in
        error, memory sufficed and every payload fitted its queues. */
    twostate predicate Calm()
      reads this`overflows, kernel`allocFailures, kernel`mishaps
    {
      && kernel.mishaps.ends == old(kernel.mishaps).ends
      && kernel.mishaps.writeErrors == old(kernel.mishaps).writeErrors
      && kernel.mishaps.faults == old(kernel.mishaps).faults
      && kernel.allocFailures == old(kernel.allocFailures)
      && overflows == old(overflows)
    }

    /** The counts never go back. */
    twostate predicate CountsGrow()
      reads this`overflows, kernel`allocFailures, kernel`mishaps
    {
      && kernel.mishaps.ends >= old(kernel.mishaps).ends
      && kernel.mishaps.stalls >= old(kernel.mishaps).stalls
      && kernel.mishaps.writeErrors >= old(kernel.mishaps).writeErrors
      && kernel.mishaps.faults >= old(kernel.mishaps).faults
      && kernel.allocFailures >= old(kernel.allocFailures)
      && overflows >= old(overflows)
    }

    /** A read from the client in slot `i`: the end of the stream or an error
        drops it, and what was read is shared with all the others. */
    method Receive(i: nat, ghost queues: seq<Option<string>>) returns (n: ReadResult)
      requires Inv() && i < |clients| && clients[i].fd in kernel.open && QueuesAre(queues)
      modifies this`overflows, kernel`trace, kernel`views, kernel`open, kernel`duties
      modifies kernel`allocFailures, kernel`signals, kernel`mishaps, clients
      ensures Inv() && Narrowed() && QueuesGrow(-1)
      ensures old(clients[i].fd) !in kernel.duties.input
      ensures n.Eof? || n.ReadFailed? ==> clients[i].IsReset()
      ensures n.ReadWouldBlock? ==> kernel.trace == old(kernel.trace)
      ensures !n.ReadInterrupted?
      ensures clients[i].fd >= 0 ==> clients[i].Pending() == old(clients[i].Pending())
      ensures n.Got? && kernel.allocFailures == old(kernel.allocFailures) ==>
                QueuesAre(Shared(queues, i, Payload(old(clients[i].id), old(clients[i].lineStart), n.data), maxBuffer))
      ensures CountsGrow() && kernel.mishaps == kernel.AfterRead(old(kernel.mishaps), n)
      ensures n.Got? ==> n.data != ""
      ensures Calm() ==> AllKept()
      ensures Calm() ==>
                var data := if n.Got? then n.data else "";
                Passed(old(kernel.views), kernel.views, old(kernel.open[clients[i].fd]), data,
                       Payload(old(clients[i].id), old(clients[i].lineStart), data))
    {
      ghost var earlier: string;
      n, earlier := Hear(i);
      ghost var heard := kernel.trace;
      ghost var conn, middle := kernel.open[clients[i].fd], kernel.views;
      Answer(i, n, earlier, queues);
      PrecedesTransitive(old(kernel.trace), heard, kernel.trace);
      if Calm() {
        ghost var data := if n.Got? then n.data else "";
        ghost var payload := Payload(old(clients[i].id), old(clients[i].lineStart), data);
        HeardThenTold(old(kernel.views), middle, kernel.views, conn, data, payload);
      }
    }

    /** What the answer of a read calls for. */
    method Answer(i: nat, n: ReadResult, ghost earlier: string, ghost queues: seq<Option<string>>)
      requires i < |clients| && clients[i].fd in kernel.open && Table() && QueuesAre(queues) && !n.ReadInterrupted?
      requires if n.Got? then Heard(i, earlier, n.data) && |n.data| <= READ_SIZE else Inv()
      modifies this`overflows, kernel`trace, kernel`views, kernel`open, kernel`duties, kernel`allocFailures, clients
      ensures Inv() && Narrowed() && QueuesGrow(-1)
      ensures n.Eof? || n.ReadFailed? ==> clients[i].IsReset()
      ensures n.ReadWouldBlock? ==> kernel.trace == old(kernel.trace)
      ensures clients[i].fd >= 0 ==> clients[i].Pending() == old(clients[i].Pending())
      ensures kernel.allocFailures >= old(kernel.allocFailures) && overflows >= old(overflows)
      ensures n.Got? && kernel.allocFailures == old(kernel.allocFailures) ==>
                var payload := Payload(old(clients[i].id), old(clients[i].lineStart), n.data);
                && QueuesAre(Shared(queues, i, payload, maxBuffer))
                && Told(old(kernel.views), kernel.views, old(kernel.open[clients[i].fd]), payload)
      ensures n.ReadWouldBlock? ==> kernel.views == old(kernel.views)
      ensures n.Got? || n.ReadWouldBlock? ==>
                (kernel.allocFailures == old(kernel.allocFailures) && overflows == old(overflows) ==> AllKept())
    {
      if n.Got? {
        Relay(i, earlier, n.data, queues);
      } else if !n.ReadWouldBlock? {
        ReadyToDrop(i, |clients|, -1, "");
        DropClient(i, |clients|, -1, "");
      }
    }

    method FlushSlot(i: nat) returns (ok: bool)
      requires Inv() && i < |clients| && clients[i].fd in kernel.open
      modifies kernel`trace, kernel`views, kernel`signals, kernel`refusals, kernel`duties, kernel`mishaps, clients[i]
      ensures Inv() && clients[i].fd == old(clients[i].fd) && Precedes(old(kernel.trace), kernel.trace)
      ensures clients[i].id == old(clients[i].id) && clients[i].lineStart == old(clients[i].lineStart)
      ensures kernel.refusals == old(kernel.refusals) ==> ok && clients[i].Pending() == ""
      ensures kernel.duties == old(kernel.duties).(output := kernel.duties.output)
      ensures kernel.duties.output <= old(kernel.duties).output
      ensures OnlyDelivered(old(kernel.views), kernel.views, kernel.open[clients[i].fd])
      ensures old(clients[i].Pending()) != "" ==> clients[i].fd !in kernel.duties.output
      ensures kernel.mishaps == AfterWrites(old(kernel.mishaps), ok)
    {
      assert SlotOk(i, |clients|, -1, "");
      ok := clients[i].Flush(kernel, maxBuffer);
      forall k | 0 <= k < |clients|
        ensures SlotOk(k, |clients|, -1, "")
      {
        assert old(SlotOk(k, |clients|, -1, ""));
      }
    }

    /** The events of one client. They were reported for the connection that is
        in the slot now; an error drops it, a writable one gets its queue as far
        as it takes it, and input is read and passed to every other. A client is
        dropped only for a cause; `data` is what was read. */
    method HandleEvents(i: nat, ev: Revents, ghost reportedFor: nat) returns (ghost data: string)
      requires Inv() && i < |clients|
      requires clients[i].fd in kernel.open && kernel.open[clients[i].fd] == reportedFor
      modifies this`overflows, kernel`trace, kernel`views, kernel`open, kernel`duties
      modifies kernel`allocFailures, kernel`signals, kernel`refusals, kernel`mishaps, clients
      ensures Inv() && Narrowed() && QueuesGrow(i) && CountsGrow()
      ensures Hot(ev) ==> old(clients[i].fd) !in kernel.duties.input
      ensures Faulty(ev) ==> clients[i].IsReset() && old(clients[i].fd) !in kernel.open
      ensures !Faulty(ev) && ev.pollOut && old(clients[i].Pending()) != "" ==>
                old(clients[i].fd) !in kernel.duties.output
      ensures ev.pollOut && clients[i].fd >= 0 && kernel.refusals == old(kernel.refusals) ==> clients[i].Pending() == ""
      ensures !Faulty(ev) && Calm() ==>
                && AllKept()
                && Passed(old(kernel.views), kernel.views, reportedFor, data,
                          Payload(old(clients[i].id), old(clients[i].lineStart), data))
      ensures !Faulty(ev) && (ev.pollIn || ev.pollHup) && Calm() && data == "" ==>
                kernel.mishaps.stalls > old(kernel.mishaps).stalls
    {
      data := "";
      if Faulty(ev) {
        DropSlot(i);
      } else {
        data := HandleHealthy(i, ev, reportedFor);
      }
    }

    method DropSlot(i: nat)
      requires Inv() && i < |clients| && clients[i].fd in kernel.open
      modifies kernel`trace, kernel`views, kernel`open, kernel`duties, clients[i]
      ensures Inv() && Narrowed() && QueuesGrow(i)
      ensures clients[i].IsReset() && old(clients[i].fd) !in kernel.open && old(clients[i].fd) !in Busy()
    {
      ReadyToDrop(i, |clients|, -1, "");
      DropClient(i, |clients|, -1, "");
    }

    method HandleHealthy(i: nat, ev: Revents, ghost conn: nat) returns (ghost data: string)
      requires Inv() && i < |clients| && !Faulty(ev)
      requires clients[i].fd in kernel.open && kernel.open[clients[i].fd] == conn
      modifies this`overflows, kernel`trace, kernel`views, kernel`open, kernel`duties
      modifies kernel`allocFailures, kernel`signals, kernel`refusals, kernel`mishaps, clients
      ensures Inv() && Narrowed() && QueuesGrow(i) && CountsGrow()
      ensures ev.pollIn || ev.pollHup ==> old(clients[i].fd) !in kernel.duties.input
      ensures ev.pollOut && old(clients[i].Pending()) != "" ==> old(clients[i].fd) !in kernel.duties.output
      ensures ev.pollOut && clients[i].fd >= 0 && kernel.refusals == old(kernel.refusals) ==> clients[i].Pending() == ""
      ensures Calm() ==>
                && AllKept()
                && Passed(old(kernel.views), kernel.views, conn, data,
                          Payload(old(clients[i].id), old(clients[i].lineStart), data))
      ensures (ev.pollIn || ev.pollHup) && Calm() && data == "" ==>
                kernel.mishaps.stalls > old(kernel.mishaps).stalls
    {
      data := "";
      var ok := FlushIfAsked(i, ev.pollOut);
      ghost var flushed, middle := kernel.trace, kernel.views;
      if ok {
        data := ReadIfAsked(i, ev.pollIn || ev.pollHup);
      } else {
        DropSlot(i);
      }
      PrecedesTransitive(old(kernel.trace), flushed, kernel.trace);
      if Calm() {
        ghost var payload := Payload(old(clients[i].id), old(clients[i].lineStart), data);
        DeliveredThenPassed(old(kernel.views), middle, kernel.views, conn, data, payload);
      }
    }

    method FlushIfAsked(i: nat, asked: bool) returns (ok: bool)
      requires Inv() && i < |clients| && clients[i].fd in kernel.open
      modifies kernel`trace, kernel`views, kernel`signals, kernel`refusals, kernel`duties, kernel`mishaps, clients[i]
      ensures Inv() && clients[i].fd == old(clients[i].fd) && Precedes(old(kernel.trace), kernel.trace)
      ensures clients[i].id == old(clients[i].id) && clients[i].lineStart == old(clients[i].lineStart)
      ensures asked && kernel.refusals == old(kernel.refusals) ==> ok && clients[i].Pending() == ""
      ensures kernel.duties == old(kernel.duties).(output := kernel.duties.output)
      ensures kernel.duties.output <= old(kernel.duties).output
      ensures OnlyDelivered(old(kernel.views), kernel.views, kernel.open[clients[i].fd])
      ensures asked && old(clients[i].Pending()) != "" ==> clients[i].fd !in kernel.duties.output
      ensures kernel.mishaps == AfterWrites(old(kernel.mishaps), ok)
    {
      ok := true;
      if asked {
        ok := FlushSlot(i);
      }
    }

    method ReadIfAsked(i: nat, asked: bool) returns (ghost data: string)
      requires Inv() && i < |clients| && clients[i].fd in kernel.open
      modifies this`overflows, kernel`trace, kernel`views, kernel`open, kernel`duties
      modifies kernel`allocFailures, kernel`signals, kernel`mishaps, clients
      ensures Inv() && Narrowed() && QueuesGrow(-1) && CountsGrow()
      ensures asked ==> old(clients[i].fd) !in kernel.duties.input
      ensures clients[i].fd >= 0 ==> clients[i].Pending() == old(clients[i].Pending())
      ensures Calm() ==>
                && AllKept()
                && Passed(old(kernel.views), kernel.views, old(kernel.open[clients[i].fd]), data,
                          Payload(old(clients[i].id), old(clients[i].lineStart), data))
      ensures asked && Calm() && data == "" ==> kernel.mishaps.stalls > old(kernel.mishaps).stalls
    {
      data := "";
      if asked {
        ghost var queues := Snapshot();
        var n := Receive(i, queues);
        data := if n.Got? then n.data else "";
      } else {
        ghost var v := ViewOf(i);
        assert v.received + "" == v.received;
      }
    }

    /** A descriptor that was polled and is still open is the same connection. */
    ghost predicate StillPolled(pfds: seq<PollEntry>, conns: seq<nat>)
      reads kernel`open
    {
      && |pfds| == |conns|
      && forall j | 0 <= j < |pfds| :: pfds[j].fd in kernel.open ==> kernel.open[pfds[j].fd] == conns[j]
    }

    /** Live slots hold distinct open descriptors. */
    ghost predicate LiveFds()
      reads kernel`open, kernel`duties, clients
    {
      && (forall i | 0 <= i < |clients| && clients[i].fd >= 0 :: clients[i].fd in kernel.open)
      && (forall i, j | 0 <= i < j < |clients| && clients[i].fd >= 0 :: clients[i].fd != clients[j].fd)
    }

    lemma InvLiveFds()
      requires Inv()
      ensures LiveFds()
    {
      forall i | 0 <= i < |clients| && clients[i].fd >= 0
        ensures Connected(i) && ViewOf(i).slot == i
      {
        assert SlotOk(i, |clients|, -1, "");
      }
    }

    /** What slot `i` is polled for: input, and output when its queue is not empty. */
    ghost function Interest(i: nat): PollEntry
      requires i < |clients| && clients[i].Valid(maxBuffer)
      reads clients[i]
    {
      PollEntry(clients[i].fd, |clients[i].Pending()| > 0)
    }

    method CollectPollSet() returns (pfds: seq<PollEntry>, ghost owner: seq<nat>)
      requires Table()
      ensures |owner| == |pfds|
      ensures forall j | 0 <= j < |pfds| ::
                owner[j] < |clients| && clients[owner[j]].fd >= 0 && pfds[j] == Interest(owner[j])
      ensures forall j, k | 0 <= j < k < |pfds| :: owner[j] < owner[k]
      ensures forall k | 0 <= k < |clients| && clients[k].fd >= 0 :: k in owner
    {
      pfds, owner := [], [];
      for i := 0 to |clients|
        invariant |owner| == |pfds|
        invariant forall j | 0 <= j < |pfds| ::
                    owner[j] < i && clients[owner[j]].fd >= 0 && pfds[j] == Interest(owner[j])
        invariant forall j, k | 0 <= j < k < |pfds| :: owner[j] < owner[k]
        invariant forall k | 0 <= k < i && clients[k].fd >= 0 :: k in owner
      {
        if clients[i].fd >= 0 {
          pfds := pfds + [PollEntry(clients[i].fd, clients[i].outLen > clients[i].outOff)];
          owner := owner + [i];
        }
      }
    }

    /** Every live client is polled once, and for output exactly when it has a queue. */
    method BuildPollSet() returns (pfds: seq<PollEntry>, ghost conns: seq<nat>)
      requires Table() && LiveFds()
      ensures StillPolled(pfds, conns)
      ensures forall j | 0 <= j < |pfds| :: pfds[j].fd in kernel.open
      ensures forall i | 0 <= i < |clients| && clients[i].fd >= 0 ::
                Interest(i) in pfds && Interest(i) == PollEntry(clients[i].fd, clients[i].Pending() != "")
      ensures forall j, k | 0 <= j < k < |pfds| :: pfds[j].fd != pfds[k].fd
    {
      ghost var owner: seq<nat>;
      pfds, owner := CollectPollSet();
      forall i | 0 <= i < |clients| && clients[i].fd >= 0
        ensures Interest(i) in pfds && Interest(i) == PollEntry(clients[i].fd, clients[i].Pending() != "")
      {
        var j :| 0 <= j < |owner| && owner[j] == i;
        assert pfds[j] == Interest(i);
      }
      ghost var polled, table := pfds, kernel.open;
      conns := seq(|polled|, j requires 0 <= j < |polled| && polled[j].fd in table => table[polled[j].fd]);
    }

    ghost function Busy(): set<int>
      reads kernel`duties
    {
      AllOf(kernel.duties)
    }

    /** What is still to be acted on is in the poll result. */
    ghost predicate Listed(open: map<int, nat>, duties: Duties, pfds: seq<PollEntry>, revents: seq<Revents>)
      requires |revents| == |pfds|
    {
      && (forall j | 0 <= j < |pfds| ::
            && (pfds[j].fd in duties.input ==> Hot(revents[j]))
            && (pfds[j].fd in duties.output ==> revents[j].pollOut)
            && (pfds[j].fd in duties.errors ==> Faulty(revents[j]))
            && (Faulty(revents[j]) && pfds[j].fd in open ==> pfds[j].fd in duties.errors))
      && (forall f | f in AllOf(duties) :: exists j :: 0 <= j < |pfds| && pfds[j].fd == f)
    }

    lemma StillListed(open: map<int, nat>, duties: Duties, fewer: map<int, nat>, left: Duties,
                      pfds: seq<PollEntry>, revents: seq<Revents>)
      requires |revents| == |pfds| && Listed(open, duties, pfds, revents)
      requires (forall f | f in fewer :: f in open) && Fewer(left, duties)
      requires forall f | f in fewer && f in duties.errors :: f in left.errors
      ensures Listed(fewer, left, pfds, revents)
    {
      assert AllOf(left) <= AllOf(duties);
    }

    /** And belongs to no slot below `i`; output is due only where there is a queue. */
    ghost predicate NotBelow(i: int)
      reads kernel`duties, clients
    {
      && (forall k | 0 <= k < |clients| && k < i :: clients[k].fd !in Busy())
      && (forall k | 0 <= k < |clients| && i <= k && clients[k].fd in kernel.duties.output ::
            clients[k].outLen > clients[k].outOff)
    }

    ghost predicate Waiting(i: int, pfds: seq<PollEntry>, revents: seq<Revents>)
      requires |revents| == |pfds|
      reads kernel`open, kernel`duties, clients
    {
      Listed(kernel.open, kernel.duties, pfds, revents) && NotBelow(i)
    }

    method FindEntry(pfds: seq<PollEntry>, fd: int) returns (j: nat)
      ensures j <= |pfds| && (j < |pfds| ==> pfds[j].fd == fd)
      ensures j == |pfds| ==> forall k | 0 <= k < |pfds| :: pfds[k].fd != fd
    {
      j := 0;
      while j < |pfds| && pfds[j].fd != fd
        invariant j <= |pfds| && forall k | 0 <= k < j :: pfds[k].fd != fd
      {
        j := j + 1;
      }
    }

    /** Finds the events of slot `i` in the poll table and handles them; a
        client that joined after the poll is left for the next turn. */
    method ServeSlot(i: nat, pfds: seq<PollEntry>, revents: seq<Revents>, ghost conns: seq<nat>)
      requires Inv() && i < |clients| && |revents| == |pfds| && StillPolled(pfds, conns)
      requires Waiting(i, pfds, revents)
      modifies this`overflows, kernel`trace, kernel`views, kernel`open, kernel`duties
      modifies kernel`allocFailures, kernel`signals, kernel`refusals, kernel`mishaps, clients
      ensures Inv() && Narrowed() && StillPolled(pfds, conns) && CountsGrow()
      ensures Waiting(i + 1, pfds, revents)
      ensures Calm() && old(kernel.duties).errors == {} ==> AllKept()
    {
      if clients[i].fd < 0 {
        return;
      }
      assert SlotOk(i, |clients|, -1, "");
      var j := FindEntry(pfds, clients[i].fd);
      if j < |pfds| {
        ServeEntry(i, j, pfds, revents, conns[j]);
      } else {
        Unlisted(clients[i].fd, pfds, revents);
      }
    }

    /** Handles the events of slot `i`, which are those of entry `j`. */
    method ServeEntry(i: nat, j: nat, pfds: seq<PollEntry>, revents: seq<Revents>, ghost conn: nat)
      requires Inv() && i < |clients| && |revents| == |pfds| && j < |pfds| && Waiting(i, pfds, revents)
      requires clients[i].fd in kernel.open && kernel.open[clients[i].fd] == conn && pfds[j].fd == clients[i].fd
      modifies this`overflows, kernel`trace, kernel`views, kernel`open, kernel`duties
      modifies kernel`allocFailures, kernel`signals, kernel`refusals, kernel`mishaps, clients
      ensures Inv() && Narrowed() && CountsGrow()
      ensures Waiting(i + 1, pfds, revents)
      ensures Calm() && old(kernel.duties).errors == {} ==> AllKept()
    {
      ghost var open, duties := kernel.open, kernel.duties;
      ActOnEntry(i, revents[j], conn);
      StillListed(open, duties, kernel.open, kernel.duties, pfds, revents);
    }

    /** Nothing that was reported for slot `i` is left. */
    method ActOnEntry(i: nat, ev: Revents, ghost conn: nat)
      requires Inv() && i < |clients| && clients[i].fd in kernel.open && kernel.open[clients[i].fd] == conn
      requires clients[i].fd in kernel.duties.input ==> Hot(ev)
      requires clients[i].fd in kernel.duties.output ==> ev.pollOut && clients[i].outLen > clients[i].outOff
      requires clients[i].fd in kernel.duties.errors <==> Faulty(ev)
      modifies this`overflows, kernel`trace, kernel`views, kernel`open, kernel`duties
      modifies kernel`allocFailures, kernel`signals, kernel`refusals, kernel`mishaps, clients
      ensures Inv() && Narrowed() && QueuesGrow(i) && CountsGrow()
      ensures old(clients[i].fd) !in Busy()
      ensures Calm() && old(kernel.duties).errors == {} ==> AllKept()
    {
      ghost var data := HandleEvents(i, ev, conn);
    }

    lemma Unlisted(fd: int, pfds: seq<PollEntry>, revents: seq<Revents>)
      requires |revents| == |pfds| && Listed(kernel.open, kernel.duties, pfds, revents)
      requires forall j | 0 <= j < |pfds| :: pfds[j].fd != fd
      ensures fd !in Busy()
    {
    }

    lemma SlotsCoverOpen()
      requires Inv()
      ensures forall f | f in kernel.open :: exists k :: 0 <= k < |clients| && clients[k].fd == f
    {
      forall f | f in kernel.open
        ensures exists k :: 0 <= k < |clients| && clients[k].fd == f
      {
        assert Held(f);
      }
    }

    /** A connection was accepted on `fd` and has no slot yet. */
    ghost predicate Knocking(fd: int)
      reads this`nextClientId, kernel`trace, kernel`views, kernel`open, kernel`accepted, kernel`duties, clients
    {
      && Table() && kernel.Valid() && Accounted()
      && fd in kernel.open && kernel.views[kernel.open[fd]] == UNSEEN
      && (forall f | f in kernel.open && f != fd :: Held(f))
      && (forall k | 0 <= k < |clients| :: SlotOk(k, |clients|, -1, ""))
    }

    method TurnAway(fd: int)
      requires Knocking(fd) && fd !in Busy()
      modifies kernel`trace, kernel`views, kernel`open, kernel`duties
      ensures Precedes(old(kernel.trace), kernel.trace)
      ensures kernel.duties == old(kernel.duties) && kernel.views == old(kernel.views)
      ensures Inv() && kernel.open == old(kernel.open) - {fd}
    {
      kernel.Close(fd);
      forall k | 0 <= k < |clients|
        ensures SlotOk(k, |clients|, -1, "")
      {
        assert old(SlotOk(k, |clients|, -1, ""));
      }
    }

    /** A newcomer has sent nothing and is owed nothing. */
    lemma NewcomerServed(i: int, v: View)
      requires 0 <= i < |clients| && clients[i].Valid(maxBuffer) && v == View(Present, clients[i].id, i, "", "", "", "")
      requires clients[i].Pending() == "" && clients[i].lineStart
      ensures Serves(i, v, "")
    {
    }

    /** Puts the newcomer on `fd` into slot `i`: every connection is in its place. */
    method Enter(i: nat, fd: int)
      requires Knocking(fd) && i < |clients| && clients[i].fd < 0
      modifies this`nextClientId, kernel`trace, kernel`views, clients[i]
      ensures nextClientId == (old(nextClientId) + 1) % UINT_RANGE
      ensures Table() && Located() && Precedes(old(kernel.trace), kernel.trace)
      ensures clients[i].fd == fd && clients[i].lineStart && clients[i].Pending() == ""
      ensures kernel.views == old(kernel.views)[kernel.open[fd] := View(Present, clients[i].id, i, "", "", "", "")]
      ensures clients[i].id == old(nextClientId)
    {
      clients[i].Occupy(fd, nextClientId);
      kernel.Record(Joined(kernel.open[fd], nextClientId, i));
      nextClientId := (nextClientId + 1) % UINT_RANGE;
      forall c | 0 <= c < |kernel.views|
        ensures if kernel.views[c].phase.Present? then Placed(c, kernel.views[c]) else Settled(kernel.views[c])
      {
        assert old(kernel.views[c]).phase.Present? ==> old(Placed(c, kernel.views[c]));
      }
    }

    method TakeSlot(i: nat, fd: int)
      requires Knocking(fd) && i < |clients| && clients[i].fd < 0
      modifies this`nextClientId, kernel`trace, kernel`views, clients[i]
      ensures nextClientId == (old(nextClientId) + 1) % UINT_RANGE
      ensures Inv() && clients[i].fd == fd && Precedes(old(kernel.trace), kernel.trace)
      ensures kernel.views[kernel.open[fd]] == View(Present, old(nextClientId), i, "", "", "", "")
    {
      Enter(i, fd);
      NewcomerServed(i, kernel.views[kernel.open[fd]]);
      forall k | 0 <= k < |clients| && k != i
        ensures SlotOk(k, |clients|, -1, "")
      {
        assert old(SlotOk(k, |clients|, -1, ""));
      }
    }

    method AcceptOne() returns (fd: int)
      requires Inv()
      modifies kernel`trace, kernel`views, kernel`open, kernel`accepted, kernel`duties
      ensures Precedes(old(kernel.trace), kernel.trace)
      ensures kernel.duties == old(kernel.duties).(callers := false) && Busy() <= old(kernel.open).Keys
      ensures fd < 0 ==> Inv() && kernel.open == old(kernel.open) && kernel.accepted == old(kernel.accepted)
      ensures fd >= 0 ==>
                && Knocking(fd) && fd !in old(kernel.open) && kernel.open - {fd} == old(kernel.open)
                && kernel.open[fd] == old(kernel.accepted) && kernel.accepted == old(kernel.accepted) + 1
    {
      fd := kernel.Accept();
      forall k | 0 <= k < |clients|
        ensures SlotOk(k, |clients|, -1, "")
      {
        assert old(SlotOk(k, |clients|, -1, ""));
      }
    }

    method FirstFree() returns (i: nat)
      ensures i <= |clients| && (forall k | 0 <= k < i :: clients[k].fd >= 0) && (i < |clients| ==> clients[i].fd < 0)
    {
      i := 0;
      while i < |clients| && clients[i].fd >= 0
        invariant 0 <= i <= |clients| && forall k | 0 <= k < i :: clients[k].fd >= 0
      {
        i := i + 1;
      }
    }

    /** `accept`: an admitted peer takes the first free slot with the next id,
        owed nothing so far; others are closed. Returns whether the turn goes
        on to the clients. */
    method AcceptPeer() returns (goOn: bool)
      requires Inv()
      modifies this`nextClientId, kernel`trace, kernel`views, kernel`open, kernel`accepted
      modifies kernel`duties, kernel`turnedAway, clients
      ensures Inv() && Shrunk(kernel.open, old(kernel.open))
      ensures kernel.duties == old(kernel.duties).(callers := false)
      ensures Precedes(old(kernel.trace), kernel.trace)
      ensures kernel.turnedAway == old(kernel.turnedAway) + if goOn then 0 else 1
      ensures kernel.accepted > old(kernel.accepted) ==>
                var v := kernel.views[old(kernel.accepted)];
                if v.phase.Present? then
                  && goOn && v.id == old(nextClientId) && v.owed == "" && v.slot < |clients|
                  && old(clients[v.slot].fd) < 0 && (forall k | 0 <= k < v.slot :: old(clients[k].fd) >= 0)
                  && nextClientId == (old(nextClientId) + 1) % UINT_RANGE
                else
                  !goOn || forall k | 0 <= k < |clients| :: old(clients[k].fd) >= 0
      ensures LiveKept()
      ensures forall k | 0 <= k < |clients| :: unchanged(clients[k]) || clients[k].fd !in old(kernel.open)
    {
      var fd := AcceptOne();
      ghost var offered := kernel.trace;
      if fd < 0 {
        return true;
      }
      goOn := kernel.Admit();
      Seat(fd, goOn);
      PrecedesTransitive(old(kernel.trace), offered, kernel.trace);
    }

    /** An admitted peer takes the first free slot; others are closed. */
    method Seat(fd: int, admitted: bool)
      requires Knocking(fd) && fd !in Busy()
      modifies this`nextClientId, kernel`trace, kernel`views, kernel`open, kernel`duties, clients
      ensures Inv() && Precedes(old(kernel.trace), kernel.trace) && kernel.duties == old(kernel.duties)
      ensures forall f | f in old(kernel.open) && f != fd :: f in kernel.open && kernel.open[f] == old(kernel.open)[f]
      ensures |kernel.views| == |old(kernel.views)|
      ensures var v := kernel.views[old(kernel.open)[fd]];
              if v.phase.Present? then
                && admitted && v.id == old(nextClientId) && v.owed == "" && v.slot < |clients|
                && old(clients[v.slot].fd) < 0 && (forall k | 0 <= k < v.slot :: old(clients[k].fd) >= 0)
                && nextClientId == (old(nextClientId) + 1) % UINT_RANGE
              else
                !admitted || forall k | 0 <= k < |clients| :: old(clients[k].fd) >= 0
      ensures LiveKept()
      ensures forall k | 0 <= k < |clients| :: unchanged(clients[k]) || clients[k].fd == fd
    {
      var i := FirstFree();
      if !admitted || i == |clients| {
        TurnAway(fd);
      } else {
        TakeSlot(i, fd);
      }
    }

    /** One turn of the event loop: one poll, and unless a peer was refused all
        that it reported is acted on. No client leaves but for a cause. */
    method Iterate() returns (end: TurnEnd)
      requires Inv()
      modifies this, kernel, clients
      ensures Inv() && Precedes(old(kernel.trace), kernel.trace) && CountsGrow()
      ensures kernel.polls == old(kernel.polls) + 1
      ensures if end == PeerRefused then kernel.turnedAway > old(kernel.turnedAway) && !kernel.duties.callers
              else kernel.duties == NO_DUTY
      ensures kernel.pollErrors == old(kernel.pollErrors) + if end == PollBroke then 1 else 0
      ensures Calm() ==> LiveKept()
    {
      InvLiveFds();
      var pfds, conns := BuildPollSet();
      end := PollAndAct(pfds, conns);
    }

    method PollAndAct(pfds: seq<PollEntry>, ghost conns: seq<nat>) returns (end: TurnEnd)
      requires Inv() && StillPolled(pfds, conns) && forall j | 0 <= j < |pfds| :: pfds[j].fd in kernel.open
      requires forall j, k | 0 <= j < k < |pfds| :: pfds[j].fd != pfds[k].fd
      requires forall i | 0 <= i < |clients| && clients[i].fd >= 0 :: Interest(i) in pfds
      modifies this, kernel, clients
      ensures Inv() && Precedes(old(kernel.trace), kernel.trace) && CountsGrow()
      ensures kernel.polls == old(kernel.polls) + 1
      ensures if end == PeerRefused then kernel.turnedAway > old(kernel.turnedAway) && !kernel.duties.callers
              else kernel.duties == NO_DUTY
      ensures kernel.pollErrors == old(kernel.pollErrors) + if end == PollBroke then 1 else 0
      ensures Calm() ==> LiveKept()
    {
      var r := PollClients(pfds, conns);
      if r.PollReady? {
        end := ActOn(pfds, r, conns);
      } else {
        end := if r.PollFailed? then PollBroke else Idle;
      }
    }

    /** Acts on a poll result: a peer that waits is accepted, and unless it is
        refused every slot is served. */
    method ActOn(pfds: seq<PollEntry>, r: PollResult, ghost conns: seq<nat>) returns (end: TurnEnd)
      requires Inv() && r.PollReady? && |r.revents| == |pfds| && StillPolled(pfds, conns)
      requires Waiting(0, pfds, r.revents) && kernel.duties.callers == r.listenerIn
      requires forall j | 0 <= j < |pfds| :: pfds[j].fd in kernel.open
      modifies this, kernel`trace, kernel`views, kernel`open, kernel`accepted, kernel`duties, kernel`turnedAway
      modifies kernel`allocFailures, kernel`signals, kernel`refusals, kernel`mishaps, clients
      ensures Inv() && Precedes(old(kernel.trace), kernel.trace) && CountsGrow()
      ensures end == PeerRefused || end == Served
      ensures if end == PeerRefused then kernel.turnedAway > old(kernel.turnedAway) && !kernel.duties.callers
              else kernel.duties == NO_DUTY
      ensures Calm() && old(kernel.duties).errors == {} ==> LiveKept()
    {
      if r.listenerIn {
        var goOn := AcceptPeer();
        if !goOn {
          return PeerRefused;
        }
        assert Busy() == old(Busy());
        forall k | 0 <= k < |clients| && clients[k].fd in kernel.duties.output
          ensures clients[k].outLen > clients[k].outOff
        {
          assert clients[k].fd in old(kernel.open);
        }
      }
      ghost var sofar := kernel.trace;
      ServeAll(pfds, r.revents, conns);
      PrecedesTransitive(old(kernel.trace), sofar, kernel.trace);
      return Served;
    }

    /** Serves every slot; nothing that was reported is left. */
    method ServeAll(pfds: seq<PollEntry>, revents: seq<Revents>, ghost conns: seq<nat>)
      requires Inv() && |revents| == |pfds| && StillPolled(pfds, conns) && Waiting(0, pfds, revents)
      modifies this`overflows, kernel`trace, kernel`views, kernel`open, kernel`duties
      modifies kernel`allocFailures, kernel`signals, kernel`refusals, kernel`mishaps, clients
      ensures Inv() && Precedes(old(kernel.trace), kernel.trace) && CountsGrow()
      ensures Busy() == {} && kernel.duties.callers == old(kernel.duties).callers
      ensures Calm() && old(kernel.duties).errors == {} ==> AllKept()
    {
      for i := 0 to |clients|
        invariant Inv() && StillPolled(pfds, conns) && Waiting(i, pfds, revents)
        invariant Precedes(old(kernel.trace), kernel.trace) && CountsGrow()
        invariant Fewer(kernel.duties, old(kernel.duties))
        invariant Calm() && old(kernel.duties).errors == {} ==> AllKept()
      {
        ghost var sofar := kernel.trace;
        ServeSlot(i, pfds, revents, conns);
        PrecedesTransitive(old(kernel.trace), sofar, kernel.trace);
      }
      SlotsCoverOpen();
      assert forall f | f in kernel.open :: f !in Busy();
    }

    method PollClients(pfds: seq<PollEntry>, ghost conns: seq<nat>) returns (r: PollResult)
      requires Inv() && StillPolled(pfds, conns) && forall j | 0 <= j < |pfds| :: pfds[j].fd in kernel.open
      requires forall j, k | 0 <= j < k < |pfds| :: pfds[j].fd != pfds[k].fd
      requires forall i | 0 <= i < |clients| && clients[i].fd >= 0 :: Interest(i) in pfds
      modifies kernel`duties, kernel`pollErrors, kernel`polls, kernel`mishaps
      ensures Inv() && StillPolled(pfds, conns) && kernel.polls == old(kernel.polls) + 1
      ensures kernel.pollErrors == old(kernel.pollErrors) + if r.PollFailed? then 1 else 0
      ensures r.PollReady? ==>
                |r.revents| == |pfds| && Waiting(0, pfds, r.revents) && kernel.duties.callers == r.listenerIn
      ensures !r.PollReady? ==> kernel.duties == NO_DUTY
      ensures CountsGrow() && (Calm() ==> kernel.duties.errors == {})
    {
      r := Ask(pfds);
      if r.PollReady? {
        OutputWasWanted(pfds, r);
        NewlyWaiting(pfds, r);
      }
    }

    method Ask(pfds: seq<PollEntry>) returns (r: PollResult)
      requires Inv() && forall j | 0 <= j < |pfds| :: pfds[j].fd in kernel.open
      modifies kernel`duties, kernel`pollErrors, kernel`polls, kernel`mishaps
      ensures Inv() && kernel.polls == old(kernel.polls) + 1
      ensures kernel.pollErrors == old(kernel.pollErrors) + if r.PollFailed? then 1 else 0
      ensures r.PollReady? ==>
                && |r.revents| == |pfds| && kernel.duties == kernel.Due(pfds, r)
                && forall j | 0 <= j < |pfds| && r.revents[j].pollOut :: pfds[j].wantOut
      ensures !r.PollReady? ==> kernel.duties == NO_DUTY
      ensures kernel.mishaps == old(kernel.mishaps).(faults := old(kernel.mishaps).faults + |kernel.duties.errors|)
    {
      r := kernel.Poll(pfds);
      forall k | 0 <= k < |clients|
        ensures SlotOk(k, |clients|, -1, "")
      {
        assert old(SlotOk(k, |clients|, -1, ""));
      }
    }

    /** What was just reported waits for every slot. */
    lemma NewlyWaiting(pfds: seq<PollEntry>, r: PollResult)
      requires r.PollReady? && |r.revents| == |pfds|
      requires forall j, k | 0 <= j < k < |pfds| :: pfds[j].fd != pfds[k].fd
      requires kernel.duties == kernel.Due(pfds, r)
      requires forall k | 0 <= k < |clients| && clients[k].fd in kernel.duties.output ::
                 clients[k].outLen > clients[k].outOff
      ensures Waiting(0, pfds, r.revents)
    {
      forall j | 0 <= j < |pfds|
        ensures pfds[j].fd in kernel.duties.input ==> Hot(r.revents[j])
        ensures pfds[j].fd in kernel.duties.output ==> r.revents[j].pollOut
        ensures pfds[j].fd in kernel.duties.errors <==> Faulty(r.revents[j])
      {
        SameEntry(pfds, j);
      }
    }

    lemma SameEntry(pfds: seq<PollEntry>, j: nat)
      requires j < |pfds| && forall j, k | 0 <= j < k < |pfds| :: pfds[j].fd != pfds[k].fd
      ensures forall k | 0 <= k < |pfds| && pfds[k].fd == pfds[j].fd :: k == j
    {
    }

    /** A descriptor reported to take output is that of a client with a queue. */
    lemma OutputWasWanted(pfds: seq<PollEntry>, r: PollResult)
      requires Table() && r.PollReady? && |r.revents| == |pfds|
      requires forall j, k | 0 <= j < k < |pfds| :: pfds[j].fd != pfds[k].fd
      requires forall i | 0 <= i < |clients| && clients[i].fd >= 0 :: Interest(i) in pfds
      requires forall j | 0 <= j < |pfds| && r.revents[j].pollOut :: pfds[j].wantOut
      requires kernel.Valid() && kernel.duties == kernel.Due(pfds, r)
      ensures forall k | 0 <= k < |clients| && clients[k].fd in kernel.duties.output ::
                clients[k].outLen > clients[k].outOff
    {
      forall k | 0 <= k < |clients| && clients[k].fd in kernel.duties.output
        ensures clients[k].outLen > clients[k].outOff
      {
        assert Interest(k) in pfds;
        var j :| 0 <= j < |pfds| && pfds[j] == Interest(k);
        assert r.revents[j].pollOut;
      }
    }

    /** Any number of turns: the invariant holds in every reachable state, only
        a failed poll ends the loop early, and clients leave only for a cause. */
    method Serve(turns: nat) returns (running: bool, t: nat)
      requires Inv()
      modifies this, kernel, clients
      ensures Inv() && Precedes(old(kernel.trace), kernel.trace) && CountsGrow()
      ensures running <==> kernel.pollErrors == old(kernel.pollErrors)
      ensures running ==> t == turns
      ensures kernel.polls == old(kernel.polls) + t
      ensures Calm() ==> LiveKept()
      ensures forall c: nat :: Look(old(kernel.trace), c).delivered <= Look(kernel.trace, c).delivered
    {
      running, t := true, 0;
      while t < turns && running
        invariant Inv() && t <= turns && Precedes(old(kernel.trace), kernel.trace) && CountsGrow()
        invariant kernel.pollErrors == old(kernel.pollErrors) + if running then 0 else 1
        invariant kernel.polls == old(kernel.polls) + t && (Calm() ==> LiveKept())
      {
        ghost var sofar := kernel.trace;
        var end := Iterate();
        PrecedesTransitive(old(kernel.trace), sofar, kernel.trace);
        running := end != PollBroke;
        t := t + 1;
      }
      NothingUnsent(old(kernel.trace), kernel.trace);
    }

    /** A whole run: at its end every descriptor is closed, every connection
        got a prefix of what it was owed, and all that was broadcast for it is
        a prefix of what it sent. */
    method Run(turns: nat) returns (status: int)
      requires Inv()
      modifies this, kernel, clients
      ensures Inv() && kernel.open == map[] && Precedes(old(kernel.trace), kernel.trace)
      ensures forall c: nat :: !Look(kernel.trace, c).phase.Present? && Settled(Look(kernel.trace, c))
      ensures forall c: nat :: Look(old(kernel.trace), c).delivered <= Look(kernel.trace, c).delivered
      ensures forall i | 0 <= i < |clients| :: clients[i].IsReset()
      ensures status == if kernel.pollErrors == old(kernel.pollErrors) then 0 else 1
      ensures status == 0 ==> kernel.polls == old(kernel.polls) + turns
    {
      var running, t := Serve(turns);
      for i := 0 to |clients|
        invariant Inv() && (running <==> kernel.pollErrors == old(kernel.pollErrors))
        invariant kernel.polls == old(kernel.polls) + t
        invariant forall k | 0 <= k < i :: clients[k].IsReset()
        invariant Precedes(old(kernel.trace), kernel.trace)
      {
        if clients[i].fd >= 0 {
          ghost var sofar := kernel.trace;
          ReadyToDrop(i, |clients|, -1, "");
          DropClient(i, |clients|, -1, "");
          PrecedesTransitive(old(kernel.trace), sofar, kernel.trace);
        }
      }
      SlotsCoverOpen();
      assert forall f :: f !in kernel.open;
      NothingUnsent(old(kernel.trace), kernel.trace);
      status := if running then 0 else 1;
    }
  }
}
