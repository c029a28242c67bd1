/** The terminal side of `run_multi_listen` (src/main.c): standard input goes to
    the session attached, or is cut into lines that the control plane executes;
    what the attached session sends is shown, but for the echo of what was typed. */
module Console {
  import opened Text
  import opened Traces
  import opened Sessions
  import Splitter
  import LineEditor
  import Attached
  import Echo
  import Navigation

  const ATTACHED_READ: nat := 512
  const INTERACTIVE_READ: nat := 128

  datatype Input =
    | Read(size: nat)                    // that many octets of standard input are there
    | Arrived(fd: int)                   // an admitted peer
    | Data(slot: nat, data: string)      // octets from a peer
    | Left(slot: nat)                    // a peer closed or failed

  // ----- where the octets of standard input went -----

  /** The text of one read, for the session with that id or, for 0, for the lines. */
  datatype Routed = Routed(to: nat, text: string)

  ghost function Joined(routed: Trace<Routed>): string {
    match routed
    case Start => ""
    case Then(past, last) => Joined(past) + last.text
  }

  /** The part that went to the lines, or to sessions. */
  ghost function Part(routed: Trace<Routed>, lines: bool): string {
    match routed
    case Start => ""
    case Then(past, last) => if lines <==> last.to == 0 then Part(past, lines) + last.text else Part(past, lines)
  }

  /** Of `stdin`, `used` octets were read and routed: `toLines` and `toSessions`. */
  ghost predicate Balanced(stdin: string, used: nat, routed: Trace<Routed>, toLines: string, toSessions: string) {
    && used <= |stdin| && Joined(routed) == stdin[..used]
    && Part(routed, true) == toLines && Part(routed, false) == toSessions
  }

  lemma BalancedMore(stdin: string, used: nat, routed: Trace<Routed>, toLines: string, toSessions: string,
                     to: nat, chunk: string)
    requires Balanced(stdin, used, routed, toLines, toSessions)
    requires used + |chunk| <= |stdin| && chunk == stdin[used..used + |chunk|]
    ensures Balanced(stdin, used + |chunk|, Then(routed, Routed(to, chunk)),
                     if to == 0 then toLines + chunk else toLines, if to == 0 then toSessions else toSessions + chunk)
  {
    assert stdin[..used] + chunk == stdin[..used + |chunk|];
  }

  /** Where a run stands: what it keeps is measured against where it began. */
  datatype Moment = Moment(peers: set<nat>, admitted: nat, forsaken: nat, live: bool,
                           executed: seq<string>, used: nat, givenUp: nat, routed: Trace<Routed>)

  /** How many of the inputs are reads that can take something. */
  function Reads(inputs: seq<Input>): nat {
    if |inputs| == 0 then 0
    else
      var last := inputs[|inputs| - 1];
      Reads(inputs[..|inputs| - 1]) + if last.Read? && last.size > 0 then 1 else 0
  }

  class Terminal {
    const plane: ControlPlane
    const reader: Splitter.LineReader
    const editor: LineEditor.InputLine
    const typist: Attached.AttachedInput
    const interactive: bool
    /** Everything that standard input will ever yield, and how much it has. */
    const stdin: string
    var used: nat
    /** Where it went, and what of it was typed in earlier attachments. */
    ghost var routed: Trace<Routed>
    ghost var typedBefore: string
    /** Reads that only found out that the attached session is gone. */
    ghost var givenUp: nat
    /** What attached sessions were shown to say. */
    ghost var shown: string

    /** The buffers are different ones. */
    ghost predicate Apart() {
      && reader.input != editor.input && reader.input != typist.line && editor.input != typist.line
      && typist.echo.pending != reader.input && typist.echo.pending != editor.input
      && typist.echo.pending != typist.line
    }

    /** The lines that standard input amounts to so far, and the octets they are from. */
    ghost function Lines(): seq<string>
      reads reader, editor
    {
      if interactive then editor.submitted else reader.lines
    }

    ghost function Seen(): string
      reads reader, editor
    {
      if interactive then editor.seen else reader.seen
    }

    ghost predicate InStep()
      reads plane, typist
    {
      typist.attached <==> plane.attachedId != 0
    }

    /** Attached mode and the control plane agree. */
    ghost predicate Attuned()
      reads plane, plane.sessions, typist, typist.line, typist.echo, typist.echo.pending
    {
      plane.Inv() && typist.Faithful() && InStep()
    }

    /** Every octet of standard input went, in order, to where it belongs. */
    ghost predicate Accounted()
      reads this, reader, editor, typist
    {
      Balanced(stdin, used, routed, Seen(), typedBefore + typist.typed)
    }

    /** The control plane has executed exactly the lines of the input, in order. */
    ghost predicate Inv()
      reads this, plane, plane.sessions, reader, reader.input, editor, editor.input
      reads typist, typist.line, typist.echo, typist.echo.pending
    {
      && Apart() && Accounted() && Attuned()
      && reader.Valid() && editor.Tracks() && plane.executed == Lines()
    }

    constructor (plane: ControlPlane, reader: Splitter.LineReader, editor: LineEditor.InputLine,
                 typist: Attached.AttachedInput, interactive: bool, stdin: string)
      requires reader.input != editor.input && reader.input != typist.line && editor.input != typist.line
      requires typist.echo.pending != reader.input && typist.echo.pending != editor.input
      requires plane.Inv() && reader.Valid() && editor.Tracks() && typist.Faithful()
      requires plane.executed == [] && reader.lines == [] && editor.submitted == []
      requires reader.seen == "" && editor.seen == "" && typist.typed == ""
      requires plane.attachedId == 0 && !typist.attached
      ensures Inv() && this.plane == plane && this.reader == reader && this.editor == editor
      ensures this.typist == typist && this.interactive == interactive && this.stdin == stdin && used == 0
    {
      this.plane, this.reader, this.editor, this.typist := plane, reader, editor, typist;
      this.interactive, this.stdin := interactive, stdin;
      used, routed, typedBefore, givenUp, shown := 0, Start, "", 0, "";
    }

    /** In every reachable state: the octets read are those that went to the
        lines and those typed in attached mode, in order, and what was executed
        is a function of the former, however they were cut into reads. */
    lemma ExecutedIsInput()
      requires Inv()
      ensures Joined(routed) == stdin[..used] && Part(routed, false) == typedBefore + typist.typed
      ensures var typed := Part(routed, true);
              plane.executed ==
              if interactive then LineEditor.After(typed).submitted else Splitter.Split(typed).lines
    {
    }

    /** In attached mode, for text typed from a line boundary up to a detach:
        what was passed on and what is held are what was typed. */
    lemma AttachedIsTransparent()
      requires Inv() && typist.clean && Attached.FirstDetach(typist.typed).None?
      ensures plane.attachedId != 0
      ensures typist.sent + Attached.HeldText(typist.Now()) == Attached.Norm(typist.typed)
    {
      Attached.RightMeans(typist.Now());
    }

    // ----- reading -----

    /** How much one `read` asks for. */
    ghost function Limit(): nat
      requires reader.inputLen <= INPUT_MAX
      reads plane, reader
    {
      if plane.attachedId != 0 then ATTACHED_READ
      else if interactive then INTERACTIVE_READ
      else INPUT_MAX - reader.inputLen
    }

    /** What a `read` returns when `size` octets are there. */
    ghost function Offer(size: nat): string
      requires used <= |stdin| && reader.inputLen <= INPUT_MAX
      reads this, plane, reader
    {
      var n := if size < Limit() then size else Limit();
      stdin[used..used + if n < |stdin| - used then n else |stdin| - used]
    }

    /** One `read`, and the record of where its octets go. */
    method Fetch(size: nat, limit: nat, to: nat, ghost toLines: string, ghost toSessions: string)
      returns (chunk: string)
      requires Balanced(stdin, used, routed, toLines, toSessions)
      requires reader.inputLen <= INPUT_MAX && limit == Limit()
      modifies this`used, this`routed
      ensures chunk == old(Offer(size)) && Consumed(to, chunk) && |chunk| <= limit
      ensures Balanced(stdin, used, routed,
                       if to == 0 then toLines + chunk else toLines, if to == 0 then toSessions else toSessions + chunk)
      ensures size > 0 && limit > 0 && old(used) < |stdin| ==> |chunk| > 0
    {
      var n := if size < limit then size else limit;
      n := if n < |stdin| - used then n else |stdin| - used;
      chunk := stdin[used..used + n];
      BalancedMore(stdin, used, routed, toLines, toSessions, to, chunk);
      used := used + n;
      routed := Then(routed, Routed(to, chunk));
    }

    /** The read's octets went to `to`. */
    twostate predicate Consumed(to: nat, chunk: string)
      reads this
    {
      && used == old(used) + |chunk|
      && routed == Then(old(routed), Routed(to, chunk))
      && givenUp == old(givenUp)
    }

    /** Follows the control plane into or out of attached mode. */
    method Follow()
      requires typist.Faithful()
      modifies this`typedBefore, typist
      ensures typist.Faithful() && InStep()
      ensures typedBefore + typist.typed == old(typedBefore + typist.typed)
    {
      if plane.attachedId != 0 && !typist.attached {
        typedBefore := typedBefore + typist.typed;
        typist.Attach();
      } else if plane.attachedId == 0 && typist.attached {
        typist.Release();
      }
    }

    // ----- a read outside attached mode -----

    /** Executes lines one after the other. */
    method Execute(lines: seq<string>)
      requires plane.Inv()
      modifies plane, plane.sessions
      ensures plane.Inv() && plane.executed == old(plane.executed) + lines
      ensures plane.NoRevival() && plane.StaysActive()
    {
      for i := 0 to |lines|
        invariant plane.Inv() && plane.executed == old(plane.executed) + lines[..i]
        invariant plane.NoRevival() && plane.StaysActive()
      {
        assert lines[i..i + 1] == [lines[i]];
        TakeMore(old(plane.executed), lines, i, i + 1);
        plane.HandleInputLine(lines[i]);
      }
      assert lines[..|lines|] == lines;
    }

    /** `lines` are those that the chunk completes. */
    method Split(chunk: string) returns (lines: seq<string>)
      requires reader.input != editor.input && reader.Valid() && editor.Tracks()
      requires !interactive ==> |chunk| <= INPUT_MAX - reader.inputLen
      modifies reader, reader.input, editor, editor.input
      ensures reader.Valid() && editor.Tracks()
      ensures Lines() == old(Lines()) + lines && Seen() == old(Seen()) + chunk
    {
      if interactive {
        lines := editor.HandleStdin(chunk);
      } else {
        lines := reader.HandleStdin(chunk);
      }
    }

    method RunLines(chunk: string)
      requires plane.Inv() && reader.input != editor.input && reader.Valid() && editor.Tracks()
      requires !interactive ==> |chunk| <= INPUT_MAX - reader.inputLen
      requires plane.executed == Lines()
      modifies plane, plane.sessions, reader, reader.input, editor, editor.input
      ensures plane.Inv() && reader.Valid() && editor.Tracks() && plane.executed == Lines()
      ensures old(plane.executed) <= plane.executed && Seen() == old(Seen()) + chunk
      ensures plane.NoRevival() && plane.StaysActive()
    {
      var lines := Split(chunk);
      Execute(lines);
    }

    method FetchLines(size: nat)
      requires plane.attachedId == 0 && plane.executed == Lines() && Accounted()
      requires plane.Inv() && reader.input != editor.input && reader.Valid() && editor.Tracks()
      modifies this`used, this`routed, plane, plane.sessions, reader, reader.input, editor, editor.input
      ensures plane.Inv() && reader.Valid() && editor.Tracks() && plane.executed == Lines() && Accounted()
      ensures plane.NoRevival() && plane.StaysActive()
      ensures Consumed(0, old(Offer(size))) && Seen() == old(Seen()) + old(Offer(size))
      ensures old(plane.executed) <= plane.executed
      ensures size > 0 && old(used) < |stdin| ==> used > old(used)
    {
      var limit := if interactive then INTERACTIVE_READ else INPUT_MAX - reader.inputLen;
      var chunk := Fetch(size, limit, 0, Seen(), typedBefore + typist.typed);
      RunLines(chunk);
    }

    /** As `Inv`, before attached mode has followed the control plane. */
    ghost predicate Unfollowed()
      reads this, plane, plane.sessions, reader, reader.input, editor, editor.input
      reads typist, typist.line, typist.echo, typist.echo.pending
    {
      && Apart() && Accounted()
      && plane.Inv() && typist.Faithful() && reader.Valid() && editor.Tracks() && plane.executed == Lines()
    }

    method ExecuteRead(size: nat)
      requires Inv() && plane.attachedId == 0
      modifies this`used, this`routed, plane, plane.sessions, reader, reader.input, editor, editor.input
      ensures Unfollowed() && plane.NoRevival() && plane.StaysActive()
      ensures Consumed(0, old(Offer(size))) && Seen() == old(Seen()) + old(Offer(size))
      ensures old(plane.executed) <= plane.executed
      ensures size > 0 && old(used) < |stdin| ==> used > old(used)
    {
      FetchLines(size);
    }

    method FollowUp()
      requires Unfollowed()
      modifies this`typedBefore, typist
      ensures Inv()
    {
      Follow();
    }

    /** A read outside attached mode: the lines it completes are executed. */
    method ReadLines(size: nat)
      requires Inv() && plane.attachedId == 0
      modifies this`used, this`routed, this`typedBefore, plane, plane.sessions
      modifies reader, reader.input, editor, editor.input, typist
      ensures Inv() && plane.NoRevival() && plane.StaysActive()
      ensures Consumed(0, old(Offer(size))) && Seen() == old(Seen()) + old(Offer(size))
      ensures old(plane.executed) <= plane.executed
      ensures size > 0 && old(used) < |stdin| ==> used > old(used)
    {
      ExecuteRead(size);
      FollowUp();
    }

    // ----- a read in attached mode -----

    /** What one read in attached mode passed on: it was attempted to the
        attached session, piece by piece, and to no other, and it is what
        attached mode makes of these octets. */
    twostate predicate PassedOn(chunk: string)
      reads plane, typist, typist.line, typist.echo, typist.echo.pending
    {
      && old(plane.outbox) <= plane.outbox
      && var out := plane.outbox[|old(plane.outbox)|..];
         && Attempts(out) == ToPeer(old(plane.attachedId), Texts(out))
         && typist.sent == old(typist.sent) + Flatten(Texts(out))
         && typist.Valid() && old(typist.Valid())
         && typist.Now() == Attached.Octets(old(typist.Now()), chunk)
    }

    method PassOn(chunk: string)
      requires plane.Inv() && typist.Faithful() && InStep()
      requires plane.attachedId != 0 && plane.attachedId in plane.Ids()
      modifies plane, plane.sessions, typist, typist.line, typist.echo, typist.echo.pending
      ensures plane.Inv() && typist.Faithful() && InStep()
      ensures plane.NoRevival() && plane.StaysActive() && plane.executed == old(plane.executed)
      ensures plane.admitted == old(plane.admitted) && typist.typed == old(typist.typed) + chunk
      ensures plane.admitted < UINT_RANGE && old(plane.attachedId in plane.Peers()) ==> PassedOn(chunk)
    {
      typist.HandleStdin(chunk);
      ghost var id := plane.attachedId;
      Deliver(typist.pieces, !typist.attached);
      if plane.admitted < UINT_RANGE && id in plane.Peers() {
        TextsToPeer(plane.outbox[|old(plane.outbox)|..], id, typist.pieces);
      }
    }

    /** The writes of one read in attached mode. */
    method Deliver(pieces: seq<string>, detaches: bool)
      requires plane.Inv() && plane.attachedId != 0 && plane.attachedId in plane.Ids()
      modifies plane, plane.sessions
      ensures plane.Inv() && plane.NoRevival() && plane.StaysActive()
      ensures plane.executed == old(plane.executed) && plane.Peers() == old(plane.Peers())
      ensures plane.attachedId == if detaches then 0 else old(plane.attachedId)
      ensures old(plane.outbox) <= plane.outbox
      ensures plane.admitted < UINT_RANGE && old(plane.attachedId) in plane.Peers() ==>
                Attempts(plane.outbox[|old(plane.outbox)|..]) == ToPeer(old(plane.attachedId), pieces)
      ensures plane.admitted == old(plane.admitted)
    {
      plane.HandleAttached(pieces, detaches);
    }

    method FetchTyped(size: nat, ghost toLines: string)
      requires Attuned() && reader.inputLen <= INPUT_MAX
      requires plane.attachedId != 0 && plane.attachedId in plane.Ids()
      requires Balanced(stdin, used, routed, toLines, typedBefore + typist.typed)
      modifies this`used, this`routed, plane, plane.sessions
      modifies typist, typist.line, typist.echo, typist.echo.pending
      ensures Attuned() && plane.NoRevival() && plane.StaysActive() && plane.executed == old(plane.executed)
      ensures Balanced(stdin, used, routed, toLines, typedBefore + typist.typed)
      ensures Consumed(old(plane.attachedId), old(Offer(size)))
      ensures size > 0 && old(used) < |stdin| ==> used > old(used)
      ensures plane.admitted < UINT_RANGE ==> PassedOn(old(Offer(size)))
    {
      if plane.admitted < UINT_RANGE {
        LiveIdIsPeer(plane.sessions[..], plane.admitted, plane.attachedId);
      }
      var chunk := Fetch(size, ATTACHED_READ, plane.attachedId, toLines, typedBefore + typist.typed);
      Assoc(typedBefore, typist.typed, chunk);
      PassOn(chunk);
    }

    /** The attached session is gone: the mode ends and nothing is read. */
    twostate predicate GaveUp()
      reads this, plane
    {
      && plane.attachedId == 0 && plane.outbox == old(plane.outbox)
      && used == old(used) && routed == old(routed) && givenUp == old(givenUp) + 1
    }

    method EndStale()
      requires plane.Inv() && typist.Faithful()
      modifies this`givenUp, plane, typist
      ensures Attuned() && plane.NoRevival() && plane.StaysActive() && plane.executed == old(plane.executed)
      ensures GaveUp() && typist.typed == old(typist.typed)
    {
      plane.GiveUpAttached();
      typist.Release();
      givenUp := givenUp + 1;
    }

    /** What a read in attached mode does: what is attempted to the attached
        session and to no other is, octet for octet, what attached mode passes
        on of the octets read; or the session is gone. */
    twostate predicate ReadTyped(size: nat)
      requires old(used) <= |stdin| && old(reader.inputLen) <= INPUT_MAX
      reads this, plane, plane.sessions, reader, typist, typist.line, typist.echo, typist.echo.pending
    {
      if old(plane.attachedId in plane.Ids()) then
        && Consumed(old(plane.attachedId), old(Offer(size)))
        && (plane.admitted < UINT_RANGE ==> PassedOn(old(Offer(size))))
      else
        GaveUp()
    }

    method FetchOrEnd(size: nat, ghost toLines: string)
      requires Attuned() && reader.inputLen <= INPUT_MAX && plane.attachedId != 0
      requires Balanced(stdin, used, routed, toLines, typedBefore + typist.typed)
      modifies this`used, this`routed, this`givenUp, plane, plane.sessions
      modifies typist, typist.line, typist.echo, typist.echo.pending
      ensures Attuned() && plane.NoRevival() && plane.StaysActive() && plane.executed == old(plane.executed)
      ensures Balanced(stdin, used, routed, toLines, typedBefore + typist.typed)
      ensures ReadTyped(size) && used >= old(used) && givenUp >= old(givenUp)
      ensures size > 0 && old(used) < |stdin| ==> used + givenUp > old(used + givenUp)
    {
      var i := plane.Lookup(plane.attachedId);
      if i < 0 {
        EndStale();
      } else {
        FetchTyped(size, toLines);
      }
    }

    /** A read in attached mode. */
    method ReadAttached(size: nat)
      requires Inv() && plane.attachedId != 0
      modifies this`used, this`routed, this`givenUp, plane, plane.sessions
      modifies typist, typist.line, typist.echo, typist.echo.pending
      ensures Inv() && plane.NoRevival() && plane.StaysActive() && plane.executed == old(plane.executed)
      ensures ReadTyped(size) && used >= old(used) && givenUp >= old(givenUp)
      ensures size > 0 && old(used) < |stdin| ==> used + givenUp > old(used + givenUp)
    {
      FetchOrEnd(size, Seen());
    }

    // ----- what peers do -----

    /** Nothing was read or executed. */
    twostate predicate Untouched()
      reads this, plane
    {
      used == old(used) && routed == old(routed) && givenUp == old(givenUp) && plane.executed == old(plane.executed)
    }

    /** What the attached session sends is shown, but for the expected echo: an
        exact echo shows nothing. A standard output that fails has shown less. */
    method Show(data: string) returns (ok: bool)
      requires typist.Faithful()
      modifies this`shown, typist.echo, typist.echo.pending
      ensures typist.Faithful()
      ensures var f := Echo.Suppress(old(typist.echo.Contents()), data);
              if ok then shown == old(shown) + f.printed && typist.echo.Contents() == f.pending
              else shown <= old(shown) + f.printed
      ensures ok && data == Echo.AsShown(old(typist.echo.Contents())) ==>
                shown == old(shown) && typist.echo.Contents() == ""
    {
      Echo.ExactEchoIsHidden(typist.echo.Contents());
      var printed: string;
      ok, printed := typist.echo.WriteOutput(data);
      assert shown + "" == shown;
      shown := shown + printed;
    }

    /** Octets from a peer on their way to standard output: filtered when it is
        the attached one, with a label otherwise. */
    method Print(data: string, attached: bool) returns (ok: bool)
      requires typist.Faithful()
      modifies this`shown, typist.echo, typist.echo.pending
      ensures typist.Faithful()
      ensures var f := Echo.Suppress(old(typist.echo.Contents()), data);
              if !attached then shown == old(shown) && typist.echo.Contents() == old(typist.echo.Contents())
              else if ok then shown == old(shown) + f.printed && typist.echo.Contents() == f.pending
              else shown <= old(shown) + f.printed
    {
      if attached {
        ok := Show(data);
      } else {
        ok := *;
      }
    }

    /** What the octets from a slot do to what is shown. */
    twostate predicate Shown(slot: nat, data: string, ok: bool)
      requires slot < plane.sessions.Length && old(typist.echo.Valid())
      reads this, plane, plane.sessions, typist, typist.echo, typist.echo.pending
    {
      var f := Echo.Suppress(old(typist.echo.Contents()), data);
      if old(plane.attachedId != plane.sessions[slot].id) then shown == old(shown)
      else if ok then shown == old(shown) + f.printed && typist.echo.Valid() && typist.echo.Contents() == f.pending
      else shown <= old(shown) + f.printed
    }

    method ReceiveData(slot: nat, data: string) returns (ok: bool, oneShot: bool)
      requires Attuned() && slot < plane.sessions.Length && Navigation.Live(plane.sessions[slot])
      modifies this`shown, plane.sessions, typist.echo, typist.echo.pending
      ensures Attuned() && plane.Still() && Navigation.Live(plane.sessions[slot])
      ensures Shown(slot, data, ok) && plane.sessions[slot].id == old(plane.sessions[slot].id)
      ensures oneShot <==> old(plane.sessions[slot].rxBytes == 0) && LooksHttp(data)
      ensures plane.sessions[slot].peer == old(plane.sessions[slot].peer)
    {
      var attached := plane.attachedId == plane.sessions[slot].id;
      oneShot := plane.Receive(slot, data);
      ok := Print(data, attached);
    }

    /** Nothing of standard input was read, executed or sent, and nobody joined. */
    twostate predicate OnlyPeers()
      reads this, plane, plane.sessions, typist
    {
      && Untouched() && plane.outbox == old(plane.outbox)
      && plane.Peers() <= old(plane.Peers()) && plane.admitted == old(plane.admitted)
      && typedBefore + typist.typed == old(typedBefore + typist.typed)
    }

    method LeaveSession(slot: nat)
      requires Attuned() && slot < plane.sessions.Length && Navigation.Live(plane.sessions[slot])
      modifies this`typedBefore, plane, plane.sessions, typist
      ensures Attuned() && plane.NoRevival() && plane.StaysActive() && OnlyPeers() && plane.Gone(slot)
    {
      plane.Leave(slot);
      Follow();
    }

    /** Octets from the peer in a slot; a one-shot request ends the session. */
    method HandleData(slot: nat, data: string) returns (ok: bool)
      requires Attuned() && slot < plane.sessions.Length && Navigation.Live(plane.sessions[slot])
      modifies this`shown, this`typedBefore, plane, plane.sessions, typist, typist.echo, typist.echo.pending
      ensures Attuned() && plane.NoRevival() && plane.StaysActive() && OnlyPeers()
      ensures Shown(slot, data, ok)
      ensures if ok && old(plane.sessions[slot].rxBytes == 0) && LooksHttp(data)
              then plane.Gone(slot) else plane.Still()
    {
      var oneShot: bool;
      ok, oneShot := ReceiveData(slot, data);
      if ok && oneShot {
        LeaveSession(slot);
      }
    }

    // ----- runs -----

    /** What one input did to standard input and the control plane. */
    twostate predicate Handled(input: Input, ok: bool)
      requires old(used) <= |stdin| && old(reader.inputLen) <= INPUT_MAX
      reads this, plane, plane.sessions, reader, typist, typist.line, typist.echo, typist.echo.pending
    {
      match input
      case Read(size) =>
        if old(plane.attachedId) == 0 then Consumed(0, old(Offer(size)))
        else ReadTyped(size) && plane.executed == old(plane.executed)
      case _ => PeerHandled(input, ok)
    }

    /** Only what the attached session sends is shown as it is, but for its echo. */
    twostate predicate Displayed(input: Input, ok: bool)
      requires old(typist.echo.Valid())
      reads this, plane, plane.sessions, typist, typist.echo, typist.echo.pending
    {
      if input.Data? && input.slot < plane.sessions.Length && old(Navigation.Live(plane.sessions[input.slot])) then
        Shown(input.slot, input.data, ok)
      else
        shown == old(shown)
    }

    twostate predicate PeerHandled(input: Input, ok: bool)
      reads this, plane, plane.sessions, typist
    {
      && Untouched() && plane.outbox == old(plane.outbox)
      && (!input.Arrived? ==> plane.admitted == old(plane.admitted))
      && match input
         case Arrived(fd) => plane.Joined(fd)
         case Data(i, data) => if ok && old(OneShot(i, data)) then plane.Gone(i) else plane.Still()
         case Left(i) => if old(LiveAt(i)) then plane.Gone(i) else plane.Still()
         case Read(_) => true
    }

    ghost predicate LiveAt(i: nat)
      reads plane, plane.sessions
    {
      i < plane.sessions.Length && Navigation.Live(plane.sessions[i])
    }

    /** The first octets of the session in a slot, when they are a request. */
    ghost predicate OneShot(i: nat, data: string)
      reads plane, plane.sessions
    {
      LiveAt(i) && plane.sessions[i].rxBytes == 0 && LooksHttp(data)
    }

    /** A read of standard input, in the mode in force. */
    method TakeRead(size: nat)
      requires Inv()
      modifies this`used, this`routed, this`givenUp, this`typedBefore, plane, plane.sessions
      modifies reader, reader.input, editor, editor.input, typist, typist.line, typist.echo, typist.echo.pending
      ensures Inv() && plane.NoRevival() && plane.StaysActive() && Handled(Read(size), true)
      ensures used >= old(used) && givenUp >= old(givenUp)
      ensures old(plane.executed) <= plane.executed && Precedes(old(routed), routed)
      ensures size > 0 && old(used) < |stdin| ==> used + givenUp > old(used + givenUp)
    {
      if plane.attachedId != 0 {
        ReadAttached(size);
      } else {
        ReadLines(size);
      }
    }

    /** What a peer does; only a failing standard output is not ok. */
    method TakePeer(input: Input) returns (ok: bool)
      requires Attuned() && !input.Read?
      modifies this`shown, this`typedBefore, plane, plane.sessions, typist, typist.echo, typist.echo.pending
      ensures Attuned() && plane.NoRevival() && plane.StaysActive()
      ensures PeerHandled(input, ok) && (!ok ==> input.Data?) && Displayed(input, ok)
      ensures typedBefore + typist.typed == old(typedBefore + typist.typed)
    {
      ok := true;
      match input
      case Arrived(fd) =>
        if fd >= 0 {
          plane.Join(fd);
        }
      case Data(slot, data) =>
        if slot < plane.sessions.Length && Navigation.Live(plane.sessions[slot]) {
          ok := HandleData(slot, data);
        }
      case Left(slot) =>
        if slot < plane.sessions.Length && Navigation.Live(plane.sessions[slot]) {
          LeaveSession(slot);
        }
    }

    /** One input. Only a failing standard output stops the program. */
    method Take(input: Input) returns (ok: bool)
      requires Inv()
      modifies this, plane, plane.sessions, reader, reader.input, editor, editor.input
      modifies typist, typist.line, typist.echo, typist.echo.pending
      ensures Inv() && plane.NoRevival() && plane.StaysActive() && Handled(input, ok) && Displayed(input, ok)
      ensures !ok ==> input.Data?
      ensures used >= old(used) && givenUp >= old(givenUp)
      ensures old(plane.executed) <= plane.executed && Precedes(old(routed), routed)
      ensures input.Read? && input.size > 0 && old(used) < |stdin| ==> used + givenUp > old(used + givenUp)
    {
      if input.Read? {
        TakeRead(input.size);
        return true;
      }
      ok := TakePeer(input);
    }

    ghost function Now(): Moment
      reads this, plane, plane.sessions
    {
      Moment(plane.Peers(), plane.admitted, plane.forsaken, plane.ActiveLive(), plane.executed, used, givenUp, routed)
    }

    /** What a run keeps since the moment it began: nothing that was read or
        executed is taken back, no session comes back, and the active id stays
        live unless refused. */
    ghost predicate Since(m: Moment)
      reads this, plane, plane.sessions
    {
      && plane.admitted >= m.admitted && plane.forsaken >= m.forsaken
      && (forall p | p in plane.Peers() :: p in m.peers || p > m.admitted)
      && (plane.admitted < UINT_RANGE && m.live && plane.forsaken == m.forsaken ==> plane.ActiveLive())
      && m.executed <= plane.executed
      && used >= m.used && givenUp >= m.givenUp && Precedes(m.routed, routed)
    }

    /** Every read took something, up to the end of the input, but for those
        that found the attached session gone. */
    ghost predicate Progress(inputs: seq<Input>, handled: nat, m: Moment)
      requires handled <= |inputs|
      reads this
    {
      used >= |stdin| || used - m.used + givenUp - m.givenUp >= Reads(inputs[..handled])
    }

    lemma ReadsOneMore(inputs: seq<Input>, i: nat)
      requires i < |inputs|
      ensures Reads(inputs[..i + 1]) == Reads(inputs[..i]) + if inputs[i].Read? && inputs[i].size > 0 then 1 else 0
    {
      assert inputs[..i + 1][..i] == inputs[..i];
    }

    /** The next input of a run that began at `m`. */
    method Next(inputs: seq<Input>, i: nat, ghost m: Moment) returns (ok: bool)
      requires i < |inputs| && Inv() && Since(m) && Progress(inputs, i, m)
      modifies this, plane, plane.sessions, reader, reader.input, editor, editor.input
      modifies typist, typist.line, typist.echo, typist.echo.pending
      ensures Inv() && Since(m) && Progress(inputs, i + 1, m)
      ensures !ok ==> inputs[i].Data?
    {
      ReadsOneMore(inputs, i);
      ghost var before := routed;
      ok := Take(inputs[i]);
      PrecedesTransitive(m.routed, before, routed);
    }

    /** Every moment is since itself. */
    lemma Begins(inputs: seq<Input>)
      requires used <= |stdin|
      ensures Since(Now()) && Progress(inputs, 0, Now())
    {
    }

    method RunFrom(inputs: seq<Input>, ghost m: Moment) returns (handled: nat)
      requires Inv() && Since(m) && Progress(inputs, 0, m)
      modifies this, plane, plane.sessions, reader, reader.input, editor, editor.input
      modifies typist, typist.line, typist.echo, typist.echo.pending
      ensures handled <= |inputs| && (handled < |inputs| ==> handled > 0 && inputs[handled - 1].Data?)
      ensures Inv() && Since(m) && Progress(inputs, handled, m)
    {
      var ok := true;
      handled := 0;
      while handled < |inputs| && ok
        invariant Inv() && handled <= |inputs| && Since(m) && Progress(inputs, handled, m)
        invariant !ok ==> handled > 0 && inputs[handled - 1].Data?
      {
        ok := Next(inputs, handled, m);
        handled := handled + 1;
      }
    }

    /** Any run, stopped early only by a failing standard output: what was read
        of standard input went, in order, to the lines, which were executed, or
        to attached sessions, and is never taken back. */
    method Run(inputs: seq<Input>) returns (handled: nat)
      requires Inv()
      modifies this, plane, plane.sessions, reader, reader.input, editor, editor.input
      modifies typist, typist.line, typist.echo, typist.echo.pending
      ensures handled <= |inputs| && (handled < |inputs| ==> handled > 0 && inputs[handled - 1].Data?)
      ensures Inv() && Since(old(Now())) && Progress(inputs, handled, old(Now()))
    {
      Begins(inputs);
      handled := RunFrom(inputs, Now());
    }
  }
}
