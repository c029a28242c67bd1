/** The multi-session control plane of src/main.c: the session table, the
    active and attached ids, and every step of a run that touches them. */
module Sessions {
  import opened Text
  import opened Navigation
  import opened Commands

  const NAME_MAX: nat := 31

  /** The id of the n-th admitted session, from the `unsigned int` counter. */
  function IdOf(n: nat): nat {
    if n < UINT_RANGE then n else n % UINT_RANGE
  }

  lemma NextIdOf(n: nat)
    ensures (IdOf(n) + 1) % UINT_RANGE == IdOf(n + 1)
  {
  }

  /** Ids stay distinct and non-zero exactly up to 2^32 - 1 sessions. */
  lemma IdsUniqueIff(n: nat)
    ensures n < UINT_RANGE <==>
            (forall k | 1 <= k <= n :: IdOf(k) != 0) &&
            (forall j, k | 1 <= j < k <= n :: IdOf(j) != IdOf(k))
  {
    if n >= UINT_RANGE {
      assert IdOf(UINT_RANGE) == 0;
    }
  }

  /** The id that counts after asking for `id`: it must name a live session. */
  function Chosen(ids: seq<nat>, current: nat, id: nat): nat {
    if id != 0 && id in ids then id else current
  }

  function CutName(name: string): string {
    if |name| <= NAME_MAX then name else name[..NAME_MAX]
  }

  datatype Step =
    | Accepted(fd: int)
    | InputLine(line: string)
    | AttachedInput(pieces: seq<string>, detaches: bool)
    | PeerData(slot: nat, data: string)
    | PeerClosed(slot: nat)

  /** The lines that a run executes, in order. */
  function LinesOf(steps: seq<Step>): seq<string> {
    if |steps| == 0 then []
    else
      var last := steps[|steps| - 1];
      LinesOf(steps[..|steps| - 1]) + if last.InputLine? then [last.line] else []
  }

  const HTTP_METHODS: seq<string> := ["GET ", "POST ", "HEAD ", "PUT ", "DELETE ", "OPTIONS ",
                                      "PATCH ", "TRACE ", "CONNECT ", "PRI * HTTP/2.0"]

  /** `multi_looks_http_request`. */
  predicate LooksHttp(data: string) {
    exists i | 0 <= i < |HTTP_METHODS| :: HTTP_METHODS[i] <= data
  }

  /** The requests that are taken for HTTP. */
  lemma HttpRequests(data: string)
    ensures LooksHttp(data) <==>
            || "GET " <= data || "POST " <= data || "HEAD " <= data || "PUT " <= data || "DELETE " <= data
            || "OPTIONS " <= data || "PATCH " <= data || "TRACE " <= data || "CONNECT " <= data
            || "PRI * HTTP/2.0" <= data
  {
    assert forall i | 0 <= i < |HTTP_METHODS| ::
        HTTP_METHODS[i] in {"GET ", "POST ", "HEAD ", "PUT ", "DELETE ", "OPTIONS ", "PATCH ", "TRACE ", "CONNECT ",
                            "PRI * HTTP/2.0"};
    assert HTTP_METHODS[0] == "GET " && HTTP_METHODS[1] == "POST " && HTTP_METHODS[2] == "HEAD ";
    assert HTTP_METHODS[3] == "PUT " && HTTP_METHODS[4] == "DELETE " && HTTP_METHODS[5] == "OPTIONS ";
    assert HTTP_METHODS[6] == "PATCH " && HTTP_METHODS[7] == "TRACE " && HTTP_METHODS[8] == "CONNECT ";
    assert HTTP_METHODS[9] == "PRI * HTTP/2.0";
  }

  /** An attempt to send, and whether the peer took all of it. */
  datatype Delivery = Delivery(peer: nat, text: string, taken: bool)

  /** Attempts regardless of how they went. */
  function Attempts(out: seq<Delivery>): seq<Delivery> {
    seq(|out|, i requires 0 <= i < |out| => out[i].(taken := true))
  }

  function Texts(out: seq<Delivery>): seq<string> {
    seq(|out|, i requires 0 <= i < |out| => out[i].text)
  }

  function Refusers(out: seq<Delivery>): set<nat> {
    set i | 0 <= i < |out| && !out[i].taken :: out[i].peer
  }

  lemma AttemptsJoin(a: seq<Delivery>, b: seq<Delivery>)
    ensures Attempts(a + b) == Attempts(a) + Attempts(b)
  {
  }

  lemma RefusersJoin(a: seq<Delivery>, b: seq<Delivery>)
    ensures Refusers(a + b) == Refusers(a) + Refusers(b)
  {
    var all := a + b;
    forall p | p in Refusers(a)
      ensures p in Refusers(all)
    {
      var i :| 0 <= i < |a| && !a[i].taken && a[i].peer == p;
      assert all[i] == a[i];
    }
    forall p | p in Refusers(b)
      ensures p in Refusers(all)
    {
      var i :| 0 <= i < |b| && !b[i].taken && b[i].peer == p;
      assert all[|a| + i] == b[i];
    }
  }

  lemma OneDelivery(d: Delivery)
    ensures Attempts([d]) == [d.(taken := true)]
    ensures Refusers([d]) == if d.taken then {} else {d.peer}
  {
    assert [d][0] == d;
  }

  /** What was sent between two moments was sent to some of `peers`. */
  ghost predicate Reaches(before: seq<Delivery>, after: seq<Delivery>, peers: set<nat>) {
    before <= after && forall i | |before| <= i < |after| :: after[i].peer in peers
  }

  lemma ReachesOn(first: seq<Delivery>, second: seq<Delivery>, third: seq<Delivery>, few: set<nat>, peers: set<nat>)
    requires Reaches(first, second, peers) && Reaches(second, third, few) && few <= peers
    ensures Reaches(first, third, peers)
  {
    forall i | |first| <= i < |third|
      ensures third[i].peer in peers
    {
      assert i < |second| ==> third[i] == second[i];
    }
  }

  /** `text` for every live session, in table order. */
  function ToAll(s: seq<Session>, text: string): seq<Delivery> {
    if |s| == 0 then []
    else ToAll(s[..|s| - 1], text) + if Live(s[|s| - 1]) then [Delivery(s[|s| - 1].peer, text, true)] else []
  }

  lemma ToAllStep(s: seq<Session>, i: nat, text: string)
    requires i < |s|
    ensures ToAll(s[..i + 1], text) ==
            ToAll(s[..i], text) + if Live(s[i]) then [Delivery(s[i].peer, text, true)] else []
  {
    assert s[..i + 1][..i] == s[..i];
  }

  // ----- the session table as a value -----

  const CLOSED: Session := Session(-1, 0, 0, "", 0, 0)

  /** The n-th admitted session is peer n for good, and has the n-th id. */
  predicate WellFormed(s: seq<Session>, admitted: nat) {
    && (forall i | 0 <= i < |s| && Live(s[i]) :: 1 <= s[i].peer <= admitted && s[i].id == IdOf(s[i].peer))
    && (forall i, j | 0 <= i < j < |s| && Live(s[i]) && Live(s[j]) :: s[i].peer != s[j].peer)
  }

  /** The peers in the table. */
  function PeersOf(s: seq<Session>): set<nat> {
    set i | 0 <= i < |s| && Live(s[i]) :: s[i].peer
  }

  lemma SlotClosed(s: seq<Session>, i: nat, admitted: nat)
    requires WellFormed(s, admitted) && i < |s|
    ensures WellFormed(s[i := CLOSED], admitted)
    ensures PeersOf(s[i := CLOSED]) == PeersOf(s) - if Live(s[i]) then {s[i].peer} else {}
  {
    var t := s[i := CLOSED];
    forall p | p in PeersOf(s) && !(Live(s[i]) && p == s[i].peer)
      ensures p in PeersOf(t)
    {
      var k :| 0 <= k < |s| && Live(s[k]) && s[k].peer == p;
      assert t[k] == s[k];
    }
  }

  /** Changing the name or a counter leaves the peers alone. */
  lemma SlotTouched(s: seq<Session>, i: nat, x: Session, admitted: nat)
    requires WellFormed(s, admitted) && i < |s|
    requires Live(x) == Live(s[i]) && x.peer == s[i].peer && x.id == s[i].id
    ensures WellFormed(s[i := x], admitted) && PeersOf(s[i := x]) == PeersOf(s)
  {
    var t := s[i := x];
    assert forall k | 0 <= k < |s| :: Live(t[k]) == Live(s[k]) && t[k].peer == s[k].peer;
  }

  lemma SlotFilled(s: seq<Session>, i: nat, x: Session, admitted: nat)
    requires WellFormed(s, admitted) && i < |s| && !Live(s[i])
    requires Live(x) && x.peer == admitted + 1 && x.id == IdOf(x.peer)
    ensures WellFormed(s[i := x], admitted + 1) && PeersOf(s[i := x]) == PeersOf(s) + {x.peer}
  {
    var t := s[i := x];
    assert t[i] == x;
    forall p | p in PeersOf(s)
      ensures p in PeersOf(t)
    {
      var k :| 0 <= k < |s| && Live(s[k]) && s[k].peer == p;
      assert t[k] == s[k];
    }
  }

  /** Until the counter wraps, the live ids are the peers. */
  lemma LiveIdIsPeer(s: seq<Session>, admitted: nat, id: nat)
    requires WellFormed(s, admitted) && admitted < UINT_RANGE
    ensures id in LiveIds(s) <==> id in PeersOf(s)
  {
    LiveIdsMembers(s, id);
    if id in LiveIds(s) {
      var i :| 0 <= i < |s| && Live(s[i]) && s[i].id == id;
      assert s[i].peer == id;
    }
    if id in PeersOf(s) {
      var i :| 0 <= i < |s| && Live(s[i]) && s[i].peer == id;
      assert s[i].id == id;
    }
  }

  /** The first live id names a live session, and is 0 only when there is none. */
  lemma FirstIsPeer(s: seq<Session>, admitted: nat)
    requires WellFormed(s, admitted) && admitted < UINT_RANGE
    ensures var first := FirstOf(LiveIds(s));
            first <= admitted && if first == 0 then PeersOf(s) == {} else first in PeersOf(s)
  {
    var ids := LiveIds(s);
    if |ids| > 0 {
      LiveIdIsPeer(s, admitted, ids[0]);
    }
    forall p | p in PeersOf(s)
      ensures |ids| > 0
    {
      LiveIdIsPeer(s, admitted, p);
    }
  }

  /** Distinct peers have distinct ids until the counter wraps. */
  lemma OneSlotPerId(s: seq<Session>, admitted: nat, i: nat)
    requires WellFormed(s, admitted) && admitted < UINT_RANGE && i < |s| && Live(s[i])
    ensures s[i].peer == s[i].id && 0 < s[i].id <= admitted
    ensures forall j | 0 <= j < |s| && Live(s[j]) && s[j].id == s[i].id :: j == i
    ensures Distinct(LiveIds(s))
  {
    DistinctIds(s);
  }

  lemma {:induction false} DistinctIds(s: seq<Session>)
    requires forall i, j | 0 <= i < j < |s| && Live(s[i]) && Live(s[j]) :: s[i].id != s[j].id
    ensures Distinct(LiveIds(s))
  {
    if |s| > 0 {
      DistinctIds(s[..|s| - 1]);
      LiveIdsMembers(s[..|s| - 1], s[|s| - 1].id);
    }
  }

  lemma OnlyHere(s: seq<Session>, admitted: nat, i: nat)
    requires WellFormed(s, admitted) && admitted < UINT_RANGE && i < |s| && Live(s[i])
    ensures s[i].id !in LiveIds(s[..i]) && s[i].id in LiveIds(s) && s[i].id > 0
  {
    OneSlotPerId(s, admitted, i);
    LiveIdsMembers(s[..i], s[i].id);
    LiveIdsMembers(s, s[i].id);
  }

  /** Next and previous from a live session, by their places in the table. */
  lemma ChosenByPlace(s: seq<Session>, admitted: nat, i: nat, j: nat)
    requires WellFormed(s, admitted) && admitted < UINT_RANGE && i < |s| && Live(s[i]) && j < |s| && Live(s[j])
    ensures IsNext(s, i, j) ==> Chosen(LiveIds(s), s[i].id, NextOf(LiveIds(s), s[i].id)) == s[j].id
    ensures IsPrev(s, i, j) ==> Chosen(LiveIds(s), s[i].id, PrevOf(LiveIds(s), s[i].id)) == s[j].id
  {
    OnlyHere(s, admitted, i);
    OnlyHere(s, admitted, j);
    if IsNext(s, i, j) {
      NextByPlace(s, i, j);
    }
    if IsPrev(s, i, j) {
      PrevByPlace(s, i, j);
    }
  }

  /** `pieces`, one after the other, for one session. */
  function ToPeer(peer: nat, pieces: seq<string>): seq<Delivery> {
    seq(|pieces|, k requires 0 <= k < |pieces| => Delivery(peer, pieces[k], true))
  }

  lemma TextsToPeer(out: seq<Delivery>, peer: nat, pieces: seq<string>)
    requires Attempts(out) == ToPeer(peer, pieces)
    ensures Texts(out) == pieces
  {
    assert |out| == |Attempts(out)|;
    assert forall i | 0 <= i < |out| :: Attempts(out)[i] == out[i].(taken := true);
  }

  lemma OneAttempt(out: seq<Delivery>, d: Delivery)
    requires Attempts(out) == [d]
    ensures |out| == 1 && out[0] == d.(taken := out[0].taken)
    ensures Refusers(out) == if out[0].taken then {} else {d.peer}
  {
    assert |out| == |Attempts(out)|;
    assert Attempts(out)[0] == d;
  }

  lemma AttemptsAt(out: seq<Delivery>)
    ensures |Attempts(out)| == |out|
    ensures forall k | 0 <= k < |out| :: Attempts(out)[k].peer == out[k].peer && Attempts(out)[k].text == out[k].text
  {
  }

  /** One attempt, at one session. */
  predicate IsTo(out: seq<Delivery>, peer: nat, text: string) {
    |out| == 1 && out[0].peer == peer && out[0].text == text
  }

  /** One attempt at each of these sessions. */
  predicate IsToEach(out: seq<Delivery>, peers: set<nat>, text: string) {
    && |out| == |peers|
    && (forall k | 0 <= k < |out| :: out[k].text == text)
    && (forall p | p in peers :: Reached(out, p))
  }

  predicate Reached(out: seq<Delivery>, peer: nat) {
    exists k :: 0 <= k < |out| && out[k].peer == peer
  }

  /** A text and, once it was taken, a newline. */
  predicate IsSentTo(out: seq<Delivery>, peer: nat, text: string) {
    && |out| > 0 && out[0].peer == peer && out[0].text == text
    && |out| == (if out[0].taken then 2 else 1)
    && (out[0].taken ==> out[1].peer == peer && out[1].text == "\n")
  }

  predicate IsRename(line: string, n: nat, name: string) {
    && 0 < n < UINT_RANGE && IsArgument(name) && name[0] != ' ' && name[0] != '\t'
    && line == ":rename " + (Decimal(n) + (" " + name)) + "\n"
  }

  predicate IsSend(line: string, n: nat, text: string) {
    && 0 < n < UINT_RANGE && IsArgument(text) && text[0] != ' ' && text[0] != '\t'
    && line == ":send " + (Decimal(n) + (" " + text)) + "\n"
  }

  lemma ReachedMore(out: seq<Delivery>, d: Delivery, peer: nat)
    requires Reached(out, peer) || d.peer == peer
    ensures Reached(out + [d], peer)
  {
    if Reached(out, peer) {
      var k :| 0 <= k < |out| && out[k].peer == peer;
      assert (out + [d])[k].peer == peer;
    } else {
      assert (out + [d])[|out|].peer == peer;
    }
  }

  /** A text for all is one delivery for every live session. */
  lemma {:induction false} ToAllCovers(s: seq<Session>, text: string, admitted: nat)
    requires WellFormed(s, admitted)
    ensures IsToEach(ToAll(s, text), PeersOf(s), text)
  {
    if |s| > 0 {
      var before, x := s[..|s| - 1], s[|s| - 1];
      LastPeer(s, admitted);
      ToAllCovers(before, text, admitted);
      if Live(x) {
        OneMoreReached(ToAll(before, text), PeersOf(before), x.peer, text);
      } else {
        assert ToAll(before, text) + [] == ToAll(before, text) && PeersOf(before) + {} == PeersOf(before);
      }
    }
  }

  lemma OneMoreReached(out: seq<Delivery>, peers: set<nat>, peer: nat, text: string)
    requires IsToEach(out, peers, text) && peer !in peers
    ensures IsToEach(out + [Delivery(peer, text, true)], peers + {peer}, text)
  {
    var d := Delivery(peer, text, true);
    forall p | p in peers + {peer}
      ensures Reached(out + [d], p)
    {
      ReachedMore(out, d, p);
    }
  }

  lemma EachIsReached(out: seq<Delivery>, s: seq<Session>, text: string, admitted: nat)
    requires WellFormed(s, admitted) && Attempts(out) == ToAll(s, text)
    ensures IsToEach(out, PeersOf(s), text)
  {
    AttemptsAt(out);
    ToAllCovers(s, text, admitted);
    forall p | p in PeersOf(s)
      ensures Reached(out, p)
    {
      assert Reached(Attempts(out), p);
      var k :| 0 <= k < |Attempts(out)| && Attempts(out)[k].peer == p;
      assert out[k].peer == p;
    }
  }

  lemma LastPeer(s: seq<Session>, admitted: nat)
    requires WellFormed(s, admitted) && |s| > 0
    ensures var before, x := s[..|s| - 1], s[|s| - 1];
            && WellFormed(before, admitted)
            && PeersOf(s) == PeersOf(before) + (if Live(x) then {x.peer} else {})
            && (Live(x) ==> x.peer !in PeersOf(before))
  {
    var before, x := s[..|s| - 1], s[|s| - 1];
    assert forall k | 0 <= k < |before| :: before[k] == s[k];
    forall p | p in PeersOf(before)
      ensures p in PeersOf(s)
    {
      var k :| 0 <= k < |before| && Live(before[k]) && before[k].peer == p;
      assert s[k].peer == p;
    }
  }

  class ControlPlane {
    const sessions: array<Session>
    var nextId: nat
    var activeId: nat
    var attachedId: nat
    var stop: bool
    /** Sessions admitted so far. */
    var admitted: nat
    /** Every attempt to send, and every line executed, in order. */
    ghost var outbox: seq<Delivery>
    ghost var executed: seq<string>
    /** How often an `:all` was refused by the session active at the time. */
    ghost var forsaken: nat

    ghost function Peers(): set<nat>
      reads this, sessions
    {
      PeersOf(sessions[..])
    }

    ghost function Ids(): seq<nat>
      reads this, sessions
    {
      LiveIds(sessions[..])
    }

    ghost predicate Table()
      reads this, sessions
    {
      nextId == IdOf(admitted + 1) && WellFormed(sessions[..], admitted)
    }

    /** Until the id counter wraps, the ids in use name sessions already
        admitted, and no active id means no session. */
    ghost predicate Inv()
      reads this, sessions
    {
      && Table()
      && (admitted < UINT_RANGE ==>
            activeId <= admitted && (activeId == 0 ==> Peers() == {}) && attachedId <= admitted)
    }

    /** The active id names a live session, when there is one. */
    ghost predicate ActiveLive()
      reads this, sessions
    {
      activeId == 0 || activeId in Peers()
    }

    /** An id resolves to the session that was given it, or to none: never to
        another one. */
    lemma IdsNeverAlias(id: nat, i: nat)
      requires Inv() && admitted < UINT_RANGE && i < sessions.Length
      requires Live(sessions[i]) && sessions[i].id == id
      ensures sessions[i].peer == id && 0 < id <= admitted
      ensures forall j | 0 <= j < sessions.Length && Live(sessions[j]) && sessions[j].id == id :: j == i
      ensures Distinct(Ids())
    {
      OneSlotPerId(sessions[..], admitted, i);
      assert forall j | 0 <= j < sessions.Length :: sessions[..][j] == sessions[j];
    }

    /** No step but an accept brings a peer into the table, and an accept only
        a new one. */
    twostate predicate NoRevival()
      reads this, sessions
    {
      admitted >= old(admitted) && forall p | p in Peers() :: p in old(Peers()) || p > old(admitted)
    }

    /** An active id that names a live session keeps doing so, exactly unless
        that session refused an `:all`. */
    twostate predicate KeepsActive()
      reads this, sessions
    {
      admitted < UINT_RANGE && old(ActiveLive()) ==> (ActiveLive() <==> forsaken == old(forsaken))
    }

    /** Over several steps: as long as no active session refused an `:all`, the
        active id keeps naming a live session. */
    twostate predicate StaysActive()
      reads this, sessions
    {
      && forsaken >= old(forsaken)
      && (admitted < UINT_RANGE && old(ActiveLive()) && forsaken == old(forsaken) ==> ActiveLive())
    }

    constructor (maxSessions: nat)
      ensures Inv() && Peers() == {} && admitted == 0 && activeId == 0 && attachedId == 0 && fresh(sessions)
      ensures forall k | 0 <= k < sessions.Length :: !Live(sessions[k])
      ensures outbox == [] && executed == [] && forsaken == 0 && sessions.Length == maxSessions
    {
      sessions := new Session[maxSessions](_ => CLOSED);
      nextId, activeId, attachedId, stop := 1, 0, 0, false;
      admitted, outbox, executed, forsaken := 0, [], [], 0;
    }

    method SendLine(i: nat, text: string) returns (ok: bool)
      requires Inv() && i < sessions.Length && Live(sessions[i])
      modifies sessions, this`outbox
      ensures Inv() && Peers() == old(Peers())
      ensures outbox == old(outbox) + [Delivery(old(sessions[i].peer), text, ok)]
      ensures var x := old(sessions[i]);
              sessions[..] == old(sessions[..])[i := x.(txBytes := x.txBytes + if ok then |text| else 0)]
    {
      ok := *;
      outbox := outbox + [Delivery(sessions[i].peer, text, ok)];
      var x := sessions[i].(txBytes := sessions[i].txBytes + if ok then |text| else 0);
      SlotTouched(sessions[..], i, x, admitted);
      sessions[i] := x;
      assert sessions[..] == old(sessions[..])[i := x];
    }

    method CloseSession(i: nat)
      requires Table() && i < sessions.Length
      modifies sessions
      ensures Table() && sessions[..] == old(sessions[..])[i := CLOSED]
      ensures Peers() == old(Peers()) - (if old(Live(sessions[i])) then {old(sessions[i].peer)} else {})
    {
      SlotClosed(sessions[..], i, admitted);
      sessions[i] := CLOSED;
      assert sessions[..] == old(sessions[..])[i := CLOSED];
    }

    method UseFirst()
      requires Table() && (admitted < UINT_RANGE ==> attachedId <= admitted)
      modifies this`activeId
      ensures Inv() && activeId == FirstOf(Ids())
      ensures admitted < UINT_RANGE ==> ActiveLive()
    {
      activeId := FirstSessionId(sessions[..]);
      if admitted < UINT_RANGE {
        FirstIsPeer(sessions[..], admitted);
      }
    }

    /** `multi_find_by_id` over the table: the id's own session or none. */
    method Lookup(id: nat) returns (i: int)
      requires Table()
      ensures -1 <= i < sessions.Length
      ensures i >= 0 <==> id in Ids()
      ensures i >= 0 ==> Live(sessions[i]) && sessions[i].id == id
      ensures admitted < UINT_RANGE ==>
                (i >= 0 <==> id in Peers()) && (i >= 0 ==> sessions[i].peer == id && 0 < id <= admitted)
    {
      i := FindById(sessions[..], id);
      if admitted < UINT_RANGE {
        LiveIdIsPeer(sessions[..], admitted, id);
        if i >= 0 {
          OneSlotPerId(sessions[..], admitted, i);
        }
      }
    }

    /** Closes a session and, if it was the active one, moves on. */
    method CloseAndRepair(i: nat, id: nat)
      requires Inv() && i < sessions.Length && Live(sessions[i]) && sessions[i].id == id
      modifies sessions, this`activeId
      ensures Inv() && KeepsActive() && Peers() == old(Peers()) - {old(sessions[i].peer)}
      ensures activeId == if old(activeId) == id then FirstOf(Ids()) else old(activeId)
    {
      if admitted < UINT_RANGE {
        OneSlotPerId(sessions[..], admitted, i);
      }
      CloseSession(i);
      if activeId == id {
        UseFirst();
      }
    }

    // ----- commands that choose a session -----

    method SetActive(id: nat)
      requires Inv()
      modifies this`activeId
      ensures Inv() && KeepsActive() && activeId == Chosen(Ids(), old(activeId), id)
    {
      var i := Lookup(id);
      if id != 0 && i >= 0 {
        activeId := id;
      }
    }

    method Attach(id: Option<nat>)
      requires Inv()
      modifies this`activeId, this`attachedId
      ensures Inv() && KeepsActive()
      ensures activeId == Chosen(Ids(), old(activeId), id.GetOr(0))
      ensures attachedId == Chosen(Ids(), old(attachedId), id.GetOr(0))
    {
      if id.Some? && id.value != 0 {
        var i := Lookup(id.value);
        if i >= 0 {
          activeId, attachedId := id.value, id.value;
        }
      }
    }

    predicate Picks(c: Command) {
      c.Next? || c.Prev? || c.Use? || c.AttachActive? || c.AttachTo?
    }

    twostate predicate Picked(c: Command)
      requires Picks(c)
      reads this, sessions
    {
      var ids, active, attached := Ids(), old(activeId), old(attachedId);
      match c
      case Next => activeId == Chosen(ids, active, NextOf(ids, active)) && attachedId == attached
      case Prev => activeId == Chosen(ids, active, PrevOf(ids, active)) && attachedId == attached
      case Use(id) => activeId == Chosen(ids, active, id.GetOr(0)) && attachedId == attached
      case AttachActive => activeId == active && attachedId == Chosen(ids, attached, active)
      case AttachTo(id) =>
        activeId == Chosen(ids, active, id.GetOr(0)) && attachedId == Chosen(ids, attached, id.GetOr(0))
    }

    method Pick(c: Command)
      requires Inv() && Picks(c)
      modifies this`activeId, this`attachedId
      ensures Inv() && KeepsActive() && Picked(c)
    {
      match c
      case Next =>
        var id := NextSessionId(sessions[..], activeId);
        SetActive(id);
      case Prev =>
        var id := PrevSessionId(sessions[..], activeId);
        SetActive(id);
      case Use(id) =>
        if id.Some? {
          SetActive(id.value);
        }
      case AttachActive => Attach(Some(activeId));
      case AttachTo(id) => Attach(id);
    }

    // ----- commands that act on sessions -----

    /** Exactly the session with that id has the new name. */
    twostate predicate Renamed(id: Option<nat>, name: string)
      reads this, sessions
    {
      && Peers() == old(Peers())
      && forall k | 0 <= k < sessions.Length ::
           sessions[k] == if old(Live(sessions[k])) && id == Some(old(sessions[k].id)) && |name| > 0
                          then old(sessions[k]).(name := CutName(name)) else old(sessions[k])
    }

    method RenameSession(id: Option<nat>, name: string)
      requires Inv()
      modifies sessions
      ensures Inv() && Peers() == old(Peers())
      ensures admitted < UINT_RANGE ==> Renamed(id, name)
    {
      if id.Some? {
        var i := Lookup(id.value);
        if i >= 0 && |name| > 0 {
          if admitted < UINT_RANGE {
            IdsNeverAlias(id.value, i);
          }
          var x := sessions[i].(name := CutName(name));
          SlotTouched(sessions[..], i, x, admitted);
          sessions[i] := x;
          assert sessions[..] == old(sessions[..])[i := x];
        } else if i < 0 {
          LiveIdsMembers(sessions[..], id.value);
          assert forall k | 0 <= k < sessions.Length :: sessions[..][k] == sessions[k];
        }
      }
    }

    twostate predicate Killed(id: Option<nat>)
      reads this, sessions
    {
      && Peers() == old(Peers()) - (if id.Some? then {id.value} else {})
      && activeId == if id == Some(old(activeId)) && old(activeId in Peers()) then FirstOf(Ids()) else old(activeId)
    }

    method KillSession(id: Option<nat>)
      requires Inv()
      modifies sessions, this`activeId
      ensures Inv() && KeepsActive() && Peers() <= old(Peers())
      ensures admitted < UINT_RANGE ==> Killed(id)
    {
      if id.Some? {
        var i := Lookup(id.value);
        if i >= 0 {
          CloseAndRepair(i, id.value);
        }
      }
    }

    /** What was put on record last. */
    twostate lemma Latest(out: seq<Delivery>)
      requires outbox == old(outbox) + out
      ensures old(outbox) <= outbox && outbox[|old(outbox)|..] == out
    {
    }

    /** What was sent since: these attempts, and exactly the peers that did
        not take theirs were closed. */
    twostate predicate Sent(attempts: seq<Delivery>)
      reads this, sessions
    {
      && old(outbox) <= outbox
      && Attempts(outbox[|old(outbox)|..]) == attempts
      && Peers() == old(Peers()) - Refusers(outbox[|old(outbox)|..])
    }

    twostate lemma SentOut(out: seq<Delivery>)
      requires outbox == old(outbox) + out && Peers() == old(Peers()) - Refusers(out)
      ensures Sent(Attempts(out)) && outbox[|old(outbox)|..] == out
    {
      Latest(out);
    }

    twostate predicate SentTo(id: Option<nat>, payload: string)
      reads this, sessions
    {
      && (if id.Some? && |payload| > 0 && id.value in old(Peers()) then
            && |outbox| > |old(outbox)|
            && Sent([Delivery(id.value, payload, true)] +
                    if outbox[|old(outbox)|].taken then [Delivery(id.value, "\n", true)] else [])
          else
            outbox == old(outbox) && Peers() == old(Peers()))
      && activeId == if id == Some(old(activeId)) && old(activeId in Peers()) && old(activeId) !in Peers()
                     then FirstOf(Ids()) else old(activeId)
    }

    /** What one write to the session in slot `i` leaves: the attempt on record. */
    twostate predicate Wrote(i: nat, out: seq<Delivery>)
      requires i < sessions.Length
      reads this, sessions
    {
      && outbox == old(outbox) + out
      && Peers() == old(Peers())
      && sessions[..] == old(sessions[..])[i := sessions[i]]
      && Live(sessions[i]) && sessions[i].id == old(sessions[i].id) && sessions[i].peer == old(sessions[i].peer)
    }

    /** One write to the session in slot `i`. */
    method SendOne(i: nat, text: string) returns (ok: bool, ghost out: seq<Delivery>)
      requires Inv() && i < sessions.Length && Live(sessions[i])
      modifies sessions, this`outbox
      ensures Inv() && Wrote(i, out)
      ensures Attempts(out) == [Delivery(old(sessions[i].peer), text, true)] && |out| == 1 && out[0].taken == ok
      ensures Refusers(out) == if ok then {} else {old(sessions[i].peer)}
      ensures Reaches(old(outbox), outbox, old(Peers()))
    {
      ghost var peer := sessions[i].peer;
      assert sessions[..][i] == sessions[i];
      ok := SendLine(i, text);
      out := [Delivery(peer, text, ok)];
      OneDelivery(out[0]);
    }

    /** The two writes of `:send` to the session in slot `i`. */
    method SendBoth(i: nat, payload: string) returns (ok: bool, ghost out: seq<Delivery>)
      requires Inv() && i < sessions.Length && Live(sessions[i])
      modifies sessions, this`outbox
      ensures Inv() && Wrote(i, out) && |out| > 0
      ensures var peer := old(sessions[i].peer);
              && Attempts(out) == [Delivery(peer, payload, true)] +
                                  (if out[0].taken then [Delivery(peer, "\n", true)] else [])
              && Refusers(out) == if ok then {} else {peer}
      ensures Reaches(old(outbox), outbox, old(Peers()))
    {
      ok, out := SendOne(i, payload);
      if ok {
        ghost var more: seq<Delivery>;
        ghost var sofar := outbox;
        ok, more := SendOne(i, "\n");
        ReachesOn(old(outbox), sofar, outbox, Peers(), Peers());
        AttemptsJoin(out, more);
        RefusersJoin(out, more);
        Assoc(old(outbox), out, more);
        out := out + more;
      }
    }

    /** `:send`: the payload and, once that was taken, a newline, to the session
        with that id and no other. */
    method SendTo(id: Option<nat>, payload: string)
      requires Inv()
      modifies sessions, this`activeId, this`outbox
      ensures Inv() && KeepsActive() && Peers() <= old(Peers())
      ensures admitted < UINT_RANGE ==> SentTo(id, payload)
      ensures Reaches(old(outbox), outbox, old(Peers()))
    {
      if id.None? || |payload| == 0 {
        return;
      }
      var i := Lookup(id.value);
      if i >= 0 {
        var ok, out := SendBoth(i, payload);
        Latest(out);
        if !ok {
          CloseAndRepair(i, id.value);
        }
      }
    }

    /** One delivery to the session with that id, none if it is gone. */
    ghost function ToOne(id: nat, text: string): seq<Delivery>
      reads this, sessions
    {
      if id in Peers() then [Delivery(id, text, true)] else []
    }

    twostate predicate TypedTo(line: string)
      reads this, sessions
    {
      && Sent(old(ToOne(activeId, line)))
      && activeId == if old(activeId) == 0 || old(activeId) in Peers() then old(activeId) else FirstOf(Ids())
    }

    /** Text without a colon: to the active session and no other. If it fails
        or is gone, the first session becomes the active one. */
    method TypeLine(line: string)
      requires Inv()
      modifies sessions, this`activeId, this`outbox
      ensures Inv() && KeepsActive() && Peers() <= old(Peers())
      ensures admitted < UINT_RANGE ==> TypedTo(line)
      ensures Reaches(old(outbox), outbox, old(Peers()))
    {
      ghost var out: seq<Delivery> := [];
      if activeId != 0 {
        var i := Lookup(activeId);
        if i >= 0 {
          out := ShoutAt(i, line);
        }
        if i < 0 || !Live(sessions[i]) {
          UseFirst();
        }
      }
      if admitted < UINT_RANGE {
        SentOut(out);
      }
    }

    /** `:all`: every session; those that fail are closed, and the active id is
        left as it is. So it stays the id of a live session exactly when that
        session did not refuse the text. */
    method Broadcast(payload: string)
      requires Inv()
      modifies sessions, this`outbox, this`forsaken
      ensures Inv() && KeepsActive() && Peers() <= old(Peers())
      ensures Shouted(payload)
      ensures old(ActiveLive()) && activeId != 0 ==>
                (ActiveLive() <==> activeId !in Refusers(outbox[|old(outbox)|..]))
      ensures Reaches(old(outbox), outbox, old(Peers()))
    {
      ghost var out := ShoutAll(payload);
      if activeId != 0 && activeId in Refusers(out) {
        forsaken := forsaken + 1;
      }
    }

    twostate predicate Shouted(payload: string)
      reads this, sessions
    {
      && Sent(ToAll(old(sessions[..]), payload))
      && forsaken == old(forsaken) + if activeId != 0 && activeId in Refusers(outbox[|old(outbox)|..]) then 1 else 0
    }

    /** One slot of `multi_broadcast`: a live session is sent the text, and is
        closed if it refuses. */
    method ShoutAt(i: nat, payload: string) returns (ghost out: seq<Delivery>)
      requires Inv() && i < sessions.Length
      modifies sessions, this`outbox
      ensures Inv() && outbox == old(outbox) + out && Peers() == old(Peers()) - Refusers(out)
      ensures sessions[..] == old(sessions[..])[i := sessions[i]]
      ensures Attempts(out) == if old(Live(sessions[i])) then [Delivery(old(sessions[i].peer), payload, true)] else []
      ensures old(Live(sessions[i])) ==> Refusers(out) == if Live(sessions[i]) then {} else {old(sessions[i].peer)}
      ensures Reaches(old(outbox), outbox, old(Peers()))
    {
      if !Live(sessions[i]) {
        return [];
      }
      var ok: bool;
      ok, out := SendOne(i, payload);
      if !ok {
        CloseSession(i);
      }
    }

    /** `multi_broadcast`. */
    method ShoutAll(payload: string) returns (ghost out: seq<Delivery>)
      requires Inv()
      modifies sessions, this`outbox
      ensures Inv() && Sent(ToAll(old(sessions[..]), payload)) && out == outbox[|old(outbox)|..]
      ensures Reaches(old(outbox), outbox, old(Peers()))
    {
      out := [];
      ghost var table := sessions[..];
      for i := 0 to sessions.Length
        invariant Inv() && Peers() == old(Peers()) - Refusers(out)
        invariant sessions[i..] == table[i..]
        invariant outbox == old(outbox) + out
        invariant Attempts(out) == ToAll(table[..i], payload)
        invariant Reaches(old(outbox), outbox, old(Peers()))
      {
        ToAllStep(table, i, payload);
        assert sessions[i..][0] == table[i];
        ghost var sofar, present := outbox, Peers();
        ghost var more := ShoutAt(i, payload);
        ReachesOn(old(outbox), sofar, outbox, present, old(Peers()));
        AttemptsJoin(out, more);
        RefusersJoin(out, more);
        Assoc(old(outbox), out, more);
        out := out + more;
        assert sessions[i + 1..] == table[i..][1..];
      }
      assert table[..sessions.Length] == table;
      Latest(out);
    }

    predicate Acts(c: Command) {
      c.Rename? || c.Kill? || c.Send? || c.All? || c.Typed?
    }

    twostate predicate Acted(c: Command, line: string)
      requires Acts(c)
      reads this, sessions
    {
      && (c.Rename? || c.Kill? ==> outbox == old(outbox))
      && (!c.All? ==> forsaken == old(forsaken))
      && match c
         case Rename(id, name) => activeId == old(activeId) && Renamed(id, name)
         case Kill(id) => Killed(id)
         case Send(id, payload) => SentTo(id, payload)
         case All(payload) => activeId == old(activeId) && Shouted(payload)
         case Typed => TypedTo(line)
    }

    method Act(c: Command, line: string)
      requires Inv() && Acts(c)
      modifies this`activeId, this`outbox, this`forsaken, sessions
      ensures Inv() && KeepsActive() && Peers() <= old(Peers())
      ensures forsaken >= old(forsaken)
      ensures admitted < UINT_RANGE ==> Acted(c, line)
      ensures Reaches(old(outbox), outbox, old(Peers()))
    {
      match c
      case Rename(id, name) => RenameSession(id, name);
      case Kill(id) => KillSession(id);
      case Send(id, payload) => SendTo(id, payload);
      case All(payload) => Broadcast(payload);
      case Typed => TypeLine(line);
    }

    /** What a command does, by kind: it acts on sessions, it chooses one, or it
        only reports, quits or detaches. */
    twostate predicate Effect(c: Command, line: string)
      reads this, sessions
    {
      if Acts(c) then
        Acted(c, line) && attachedId == old(attachedId) && stop == old(stop)
      else
        && sessions[..] == old(sessions[..]) && outbox == old(outbox) && forsaken == old(forsaken)
        && stop == (old(stop) || c.Quit?)
        && if Picks(c) then Picked(c)
           else activeId == old(activeId) && attachedId == if c.Detach? then 0 else old(attachedId)
    }

    // ----- what the commands do, by what is typed -----

    /** `:next` and `:prev` go to the next and the previous slot in use, around
        the ends of the table. */
    twostate predicate MovesAsTyped(line: string)
      reads this, sessions
    {
      forall i, j | 0 <= i < sessions.Length && 0 <= j < sessions.Length &&
                    old(Live(sessions[i])) && old(sessions[i].id) == old(activeId) ::
        && (line == ":next\n" && old(IsNext(sessions[..], i, j)) ==> activeId == old(sessions[j].id))
        && (line == ":prev\n" && old(IsPrev(sessions[..], i, j)) ==> activeId == old(sessions[j].id))
    }

    /** `:use N` and `:attach N` choose the session with that id, if there is one. */
    twostate predicate ChoosesAsTyped(line: string)
      reads this, sessions
    {
      && (forall n: nat | 0 < n < UINT_RANGE ::
            && (line == ":use " + Decimal(n) + "\n" ==>
                  activeId == (if n in old(Peers()) then n else old(activeId)) && attachedId == old(attachedId))
            && (line == ":attach " + Decimal(n) + "\n" ==>
                  && activeId == (if n in old(Peers()) then n else old(activeId))
                  && attachedId == (if n in old(Peers()) then n else old(attachedId))))
      && (line == ":attach\n" ==>
            attachedId == if old(activeId) in old(Peers()) then old(activeId) else old(attachedId))
      && (line == ":detach\n" ==> attachedId == 0 && activeId == old(activeId))
      && (line == ":quit\n" ==> stop)
    }

    /** `:kill N` closes that session; when it was active, the first one is. */
    twostate predicate KillsAsTyped(line: string)
      reads this, sessions
    {
      forall n: nat | 0 < n < UINT_RANGE && line == ":kill " + Decimal(n) + "\n" ::
        && Peers() == old(Peers()) - {n}
        && (n in old(Peers()) && n == old(activeId) ==>
              && (forall j | 0 <= j < sessions.Length && IsFirst(sessions[..], j) :: activeId == sessions[j].id)
              && (NoneLiveIn(sessions[..], 0, sessions.Length) ==> activeId == 0))
        && (n != old(activeId) ==> activeId == old(activeId))
    }

    /** `:rename N NAME` gives that session the name, cut at 31 octets, and
        changes no other. */
    twostate predicate RenamesAsTyped(line: string)
      reads this, sessions
    {
      forall n: nat, name | IsRename(line, n, name) ::
        forall k | 0 <= k < sessions.Length ::
          if old(Live(sessions[k])) && old(sessions[k].id) == n
          then sessions[k] == old(sessions[k]).(name := if |name| <= 31 then name else name[..31])
          else sessions[k] == old(sessions[k])
    }

    /** Text goes to the active session, `:all` to every one, once, and
        `:send N` to the session with that id. */
    twostate predicate SendsAsTyped(line: string)
      reads this, sessions
    {
      && old(outbox) <= outbox
      && var out := outbox[|old(outbox)|..];
         && (|line| > 0 && line[0] != ':' && old(activeId in Peers()) ==> IsTo(out, old(activeId), line))
         && (forall text | IsArgument(text) && line == ":all " + text + "\n" ::
               IsToEach(out, old(Peers()), text + "\n"))
         && (forall n: nat, text | IsSend(line, n, text) ::
               if n in old(Peers()) then IsSentTo(out, n, text) else out == [])
    }

    twostate lemma MovesObeyed(line: string)
      requires old(Inv()) && admitted < UINT_RANGE && admitted == old(admitted)
      requires Effect(Parse(line), line)
      ensures MovesAsTyped(line)
    {
      if line == ":next\n" || line == ":prev\n" {
        ParsesNext("\n");
        ParsesPrev("\n");
        assert ":next" + "\n" == ":next\n" && ":prev" + "\n" == ":prev\n";
        var s := old(sessions[..]);
        forall i, j | 0 <= i < sessions.Length && 0 <= j < sessions.Length && Live(s[i]) && Live(s[j])
          ensures IsNext(s, i, j) ==> Chosen(LiveIds(s), s[i].id, NextOf(LiveIds(s), s[i].id)) == s[j].id
          ensures IsPrev(s, i, j) ==> Chosen(LiveIds(s), s[i].id, PrevOf(LiveIds(s), s[i].id)) == s[j].id
        {
          ChosenByPlace(s, admitted, i, j);
        }
      }
    }

    twostate lemma UseObeyed(line: string)
      requires old(Inv()) && admitted < UINT_RANGE && admitted == old(admitted)
      requires Effect(Parse(line), line)
      ensures forall n: nat | 0 < n < UINT_RANGE && line == ":use " + Decimal(n) + "\n" ::
                activeId == (if n in old(Peers()) then n else old(activeId)) && attachedId == old(attachedId)
    {
      var s := old(sessions[..]);
      forall n: nat | 0 < n < UINT_RANGE
        ensures Parse(":use " + Decimal(n) + "\n") == Use(Some(n))
        ensures n in LiveIds(s) <==> n in PeersOf(s)
      {
        ParsesUse(n);
        LiveIdIsPeer(s, admitted, n);
      }
    }

    twostate lemma AttachObeyed(line: string)
      requires old(Inv()) && admitted < UINT_RANGE && admitted == old(admitted)
      requires Effect(Parse(line), line)
      ensures forall n: nat | 0 < n < UINT_RANGE && line == ":attach " + Decimal(n) + "\n" ::
                && activeId == (if n in old(Peers()) then n else old(activeId))
                && attachedId == (if n in old(Peers()) then n else old(attachedId))
    {
      var s := old(sessions[..]);
      forall n: nat | 0 < n < UINT_RANGE
        ensures Parse(":attach " + Decimal(n) + "\n") == AttachTo(Some(n))
        ensures n in LiveIds(s) <==> n in PeersOf(s)
      {
        ParsesAttach(n);
        LiveIdIsPeer(s, admitted, n);
      }
    }

    twostate lemma WordsObeyed(line: string)
      requires old(Inv()) && admitted < UINT_RANGE && admitted == old(admitted)
      requires Effect(Parse(line), line)
      ensures line == ":attach\n" ==>
                attachedId == if old(activeId) in old(Peers()) then old(activeId) else old(attachedId)
      ensures line == ":detach\n" ==> attachedId == 0 && activeId == old(activeId)
      ensures line == ":quit\n" ==> stop
    {
      LiveIdIsPeer(old(sessions[..]), admitted, old(activeId));
      ParsesAttachActive("\n");
      ParsesDetach("\n");
      ParsesQuit("\n");
      assert ":attach" + "\n" == ":attach\n" && ":detach" + "\n" == ":detach\n" && ":quit" + "\n" == ":quit\n";
    }

    twostate lemma KillObeyed(line: string)
      requires Effect(Parse(line), line)
      ensures KillsAsTyped(line)
    {
      forall n: nat | 0 < n < UINT_RANGE
        ensures Parse(":kill " + Decimal(n) + "\n") == Kill(Some(n))
      {
        ParsesKill(n);
      }
      forall j | 0 <= j < sessions.Length && IsFirst(sessions[..], j)
        ensures FirstOf(Ids()) == sessions[j].id
      {
        FirstByPlace(sessions[..], j);
      }
      if NoneLiveIn(sessions[..], 0, sessions.Length) {
        NoneByPlace(sessions[..]);
      }
    }

    twostate lemma RenameObeyed(line: string)
      requires Effect(Parse(line), line)
      ensures RenamesAsTyped(line)
    {
      forall n: nat, name | IsRename(line, n, name)
        ensures Parse(line) == Rename(Some(n), name)
      {
        ParsesRename(n, name);
      }
    }

    twostate lemma TypedObeyed(line: string)
      requires Effect(Parse(line), line) && |line| > 0 && line[0] != ':' && old(activeId in Peers())
      ensures old(outbox) <= outbox && IsTo(outbox[|old(outbox)|..], old(activeId), line)
    {
      OneAttempt(outbox[|old(outbox)|..], Delivery(old(activeId), line, true));
    }

    twostate lemma AllObeyed(line: string)
      requires old(Inv()) && Effect(Parse(line), line) && old(outbox) <= outbox
      ensures forall text | IsArgument(text) && line == ":all " + text + "\n" ::
                IsToEach(outbox[|old(outbox)|..], old(Peers()), text + "\n")
    {
      var out, s := outbox[|old(outbox)|..], old(sessions[..]);
      forall text | IsArgument(text) && line == ":all " + text + "\n"
        ensures IsToEach(out, PeersOf(s), text + "\n")
      {
        ParsesAll(text);
        EachIsReached(out, s, text + "\n", old(admitted));
      }
    }

    twostate lemma SendObeyed(line: string)
      requires Effect(Parse(line), line) && old(outbox) <= outbox
      ensures forall n: nat, text | IsSend(line, n, text) ::
                if n in old(Peers()) then IsSentTo(outbox[|old(outbox)|..], n, text)
                else outbox[|old(outbox)|..] == []
    {
      var out := outbox[|old(outbox)|..];
      AttemptsAt(out);
      forall n: nat, text | IsSend(line, n, text)
        ensures if n in old(Peers()) then IsSentTo(out, n, text) else out == []
      {
        ParsesSend(n, text);
      }
    }

    /** `multi_handle_input_line`. */
    method HandleInputLine(line: string)
      requires Inv()
      modifies this, sessions
      ensures Inv() && NoRevival() && KeepsActive()
      ensures admitted == old(admitted) && executed == old(executed) + [line]
      ensures forsaken >= old(forsaken)
      ensures admitted < UINT_RANGE ==> Effect(Parse(line), line)
      ensures Reaches(old(outbox), outbox, old(Peers()))
      ensures admitted < UINT_RANGE ==>
                && MovesAsTyped(line) && ChoosesAsTyped(line) && KillsAsTyped(line)
                && RenamesAsTyped(line) && SendsAsTyped(line)
    {
      Execute(line);
      if admitted < UINT_RANGE {
        MovesObeyed(line);
        UseObeyed(line);
        AttachObeyed(line);
        WordsObeyed(line);
        KillObeyed(line);
        RenameObeyed(line);
        AllObeyed(line);
        SendObeyed(line);
        if |line| > 0 && line[0] != ':' && old(activeId in Peers()) {
          TypedObeyed(line);
        }
      }
    }

    method Execute(line: string)
      requires Inv()
      modifies this, sessions
      ensures Inv() && NoRevival() && KeepsActive()
      ensures admitted == old(admitted) && executed == old(executed) + [line]
      ensures forsaken >= old(forsaken)
      ensures admitted < UINT_RANGE ==> Effect(Parse(line), line)
      ensures Reaches(old(outbox), outbox, old(Peers()))
    {
      executed := executed + [line];
      var c := Parse(line);
      if Acts(c) {
        Act(c, line);
      } else if Picks(c) {
        Pick(c);
      } else if c.Quit? {
        stop := true;
      } else if c.Detach? {
        attachedId := 0;
      }
    }

    // ----- the other steps of a run -----

    method Admit(i: nat, fd: int)
      requires Table() && fd >= 0 && i < sessions.Length && !Live(sessions[i])
      modifies this`nextId, this`admitted, sessions
      ensures Table() && admitted == old(admitted) + 1 && Peers() == old(Peers()) + {admitted}
      ensures sessions[..] == old(sessions[..])[i := Session(fd, IdOf(admitted), admitted, "", 0, 0)]
    {
      NextIdOf(admitted + 1);
      admitted := admitted + 1;
      var x := Session(fd, nextId, admitted, "", 0, 0);
      SlotFilled(sessions[..], i, x, admitted - 1);
      sessions[i] := x;
      nextId := (nextId + 1) % UINT_RANGE;
      assert sessions[..] == old(sessions[..])[i := x];
    }

    /** The first free slot, or the length when the table is full. */
    method FirstFree() returns (i: nat)
      ensures i <= sessions.Length && (i < sessions.Length ==> !Live(sessions[i]))
      ensures i == sessions.Length <==> forall k | 0 <= k < sessions.Length :: Live(sessions[k])
    {
      i := 0;
      while i < sessions.Length && Live(sessions[i])
        invariant 0 <= i <= sessions.Length && forall k | 0 <= k < i :: Live(sessions[k])
      {
        i := i + 1;
      }
    }

    ghost predicate Full()
      reads this, sessions
    {
      forall k | 0 <= k < sessions.Length :: Live(sessions[k])
    }

    /** A peer that was accepted is in the table unless that is full, and is
        the active one when there was none. */
    twostate predicate Joined(fd: int)
      reads this, sessions
    {
      var enters := fd >= 0 && !old(Full());
      && admitted == old(admitted) + (if enters then 1 else 0)
      && Peers() == old(Peers()) + (if enters then {admitted} else {})
      && activeId == (if enters && old(activeId) == 0 then IdOf(admitted) else old(activeId))
      && attachedId == old(attachedId)
    }

    /** The session in slot `i` is gone, and the ids that named it name it no more. */
    twostate predicate Gone(i: nat)
      requires i < sessions.Length
      reads this, sessions
    {
      && Peers() == old(Peers()) - {old(sessions[i].peer)}
      && attachedId == (if old(attachedId == sessions[i].id) then 0 else old(attachedId))
      && activeId == (if old(activeId) == 0 || old(activeId) in Ids() then old(activeId) else FirstOf(Ids()))
    }

    /** The sessions and ids are what they were. */
    twostate predicate Still()
      reads this, sessions
    {
      Peers() == old(Peers()) && attachedId == old(attachedId) && activeId == old(activeId)
    }

    /** A new peer that passed the access check. */
    method Join(fd: int)
      requires Inv() && fd >= 0
      modifies this`nextId, this`activeId, this`admitted, sessions
      ensures Inv() && NoRevival() && KeepsActive() && Joined(fd)
    {
      var i := FirstFree();
      if i < sessions.Length {
        Admit(i, fd);
        if activeId == 0 {
          activeId := sessions[i].id;
        }
      }
    }

    /** A peer closed, failed, or was a one-shot HTTP request. */
    method Leave(i: nat)
      requires Inv() && i < sessions.Length && Live(sessions[i])
      modifies sessions, this`activeId, this`attachedId
      ensures Inv() && KeepsActive() && Gone(i)
    {
      if attachedId == sessions[i].id {
        attachedId := 0;
      }
      CloseSession(i);
      if activeId != 0 {
        var at := Lookup(activeId);
        if at < 0 {
          UseFirst();
        }
      }
    }

    /** Sends `pieces` to the session in slot `i`, whatever becomes of them. */
    method SendPieces(i: nat, pieces: seq<string>) returns (ghost out: seq<Delivery>)
      requires Inv() && i < sessions.Length && Live(sessions[i])
      modifies sessions, this`outbox
      ensures Inv() && Wrote(i, out)
      ensures Attempts(out) == ToPeer(old(sessions[i].peer), pieces)
      ensures Reaches(old(outbox), outbox, old(Peers()))
    {
      ghost var peer := sessions[i].peer;
      out := [];
      for k := 0 to |pieces|
        invariant Inv() && Wrote(i, out)
        invariant Attempts(out) == ToPeer(peer, pieces[..k])
        invariant Reaches(old(outbox), outbox, old(Peers()))
      {
        ghost var sofar := outbox;
        var ok, more := SendOne(i, pieces[k]);
        ReachesOn(old(outbox), sofar, outbox, Peers(), Peers());
        AttemptsJoin(out, more);
        Assoc(old(outbox), out, more);
        out := out + more;
        assert ToPeer(peer, pieces[..k + 1]) == ToPeer(peer, pieces[..k]) + [Delivery(peer, pieces[k], true)];
      }
      assert pieces[..|pieces|] == pieces;
    }

    /** The attached session is gone. */
    method GiveUpAttached()
      requires Inv()
      modifies this`activeId, this`attachedId
      ensures Inv() && KeepsActive() && attachedId == 0 && activeId == FirstOf(Ids())
    {
      attachedId := 0;
      UseFirst();
    }

    /** The pieces went, in order, to the session the attached id names, if it
        names one, and to no other. */
    twostate predicate PassedOn(pieces: seq<string>, detaches: bool)
      reads this, sessions
    {
      var there := old(attachedId) in Peers();
      && old(outbox) <= outbox
      && Attempts(outbox[|old(outbox)|..]) == (if there then ToPeer(old(attachedId), pieces) else [])
      && activeId == (if there then old(activeId) else FirstOf(Ids()))
      && attachedId == if detaches || !there then 0 else old(attachedId)
    }

    /** Terminal input in attached mode: a stale attached id ends the mode, and
        what is passed on goes to the session it names, in order; a session
        that does not take it stays. */
    method HandleAttached(pieces: seq<string>, detaches: bool)
      requires Inv() && attachedId != 0
      modifies sessions, this`activeId, this`attachedId, this`outbox
      ensures Inv() && KeepsActive() && Peers() == old(Peers()) && old(outbox) <= outbox
      ensures attachedId == if detaches || old(attachedId !in Ids()) then 0 else old(attachedId)
      ensures admitted < UINT_RANGE ==> PassedOn(pieces, detaches)
      ensures Reaches(old(outbox), outbox, old(Peers()))
    {
      var i := Lookup(attachedId);
      ghost var out: seq<Delivery> := [];
      if i < 0 {
        GiveUpAttached();
        Latest(out);
        return;
      }
      out := SendPieces(i, pieces);
      Latest(out);
      if detaches {
        attachedId := 0;
      }
    }

    /** Octets from the peer in slot `i`; true for a first read that is an HTTP
        request, after which the session is closed. */
    method Receive(i: nat, data: string) returns (oneShot: bool)
      requires Inv() && i < sessions.Length && Live(sessions[i])
      modifies sessions
      ensures Inv() && Peers() == old(Peers())
      ensures oneShot <==> old(sessions[i]).rxBytes == 0 && LooksHttp(data)
      ensures var x := old(sessions[i]); sessions[..] == old(sessions[..])[i := x.(rxBytes := x.rxBytes + |data|)]
      ensures Live(sessions[i]) && sessions[i].id == old(sessions[i].id) && sessions[i].peer == old(sessions[i].peer)
    {
      oneShot := sessions[i].rxBytes == 0 && LooksHttp(data);
      var x := sessions[i].(rxBytes := sessions[i].rxBytes + |data|);
      SlotTouched(sessions[..], i, x, admitted);
      sessions[i] := x;
      assert sessions[..] == old(sessions[..])[i := x];
    }

    /** Octets from a peer, and its end if they are a one-shot request. */
    method HandleData(i: nat, data: string)
      requires Inv() && i < sessions.Length && Live(sessions[i])
      modifies sessions, this`activeId, this`attachedId
      ensures Inv() && KeepsActive()
      ensures if old(sessions[i].rxBytes == 0) && LooksHttp(data) then Gone(i) else Still()
    {
      var oneShot := Receive(i, data);
      if oneShot {
        Leave(i);
      }
    }

    /** What the step did, by kind. */
    twostate predicate Done(step: Step)
      reads this, sessions
    {
      && executed == old(executed) + (if step.InputLine? then [step.line] else [])
      && Reaches(old(outbox), outbox, old(Peers()))
      && (!step.Accepted? ==> admitted == old(admitted) && Peers() <= old(Peers()))
      && (!step.InputLine? ==> forsaken == old(forsaken))
      && (step.Accepted? || step.PeerData? || step.PeerClosed? ==> outbox == old(outbox))
      && match step
         case Accepted(fd) => Joined(fd)
         case InputLine(line) => admitted < UINT_RANGE ==> Effect(Parse(line), line)
         case AttachedInput(pieces, detaches) =>
           if old(attachedId) == 0 then Still() && outbox == old(outbox)
           else Peers() == old(Peers()) && (admitted < UINT_RANGE ==> PassedOn(pieces, detaches))
         case PeerData(i, data) =>
           var leaves := i < sessions.Length && old(Live(sessions[i]) && sessions[i].rxBytes == 0) && LooksHttp(data);
           if leaves then Gone(i) else Still()
         case PeerClosed(i) =>
           if i < sessions.Length && old(Live(sessions[i])) then Gone(i) else Still()
    }

    /** One step of the program. */
    method Take(step: Step)
      requires Inv()
      modifies this, sessions
      ensures Inv() && NoRevival() && KeepsActive() && Done(step)
      ensures forsaken >= old(forsaken)
      ensures admitted < UINT_RANGE && !(step.InputLine? && Parse(step.line).All?) ==> forsaken == old(forsaken)
    {
      match step
      case Accepted(fd) =>
        if fd >= 0 {
          Join(fd);
        }
      case InputLine(line) =>
        HandleInputLine(line);
      case AttachedInput(pieces, detaches) =>
        if attachedId != 0 {
          HandleAttached(pieces, detaches);
        }
      case PeerData(i, data) =>
        if i < sessions.Length && Live(sessions[i]) {
          HandleData(i, data);
        }
      case PeerClosed(i) =>
        if i < sessions.Length && Live(sessions[i]) {
          Leave(i);
        }
    }

    /** Nothing was sent but to sessions that were in the table, or joined since. */
    twostate predicate NothingToTheGone()
      reads this, sessions
    {
      && old(outbox) <= outbox
      && forall k | |old(outbox)| <= k < |outbox| :: outbox[k].peer in old(Peers()) || outbox[k].peer > old(admitted)
    }

    /** Any run: its lines are executed in order, a session that is gone never
        comes back and is never sent anything, whatever ids are still held, and
        the active id names a live session as long as no active session refused
        an `:all`. */
    method Run(steps: seq<Step>)
      requires Inv()
      modifies this, sessions
      ensures Inv() && NoRevival() && StaysActive() && NothingToTheGone()
      ensures executed == old(executed) + LinesOf(steps)
      ensures forall p | 1 <= p <= old(admitted) && p !in old(Peers()) :: p !in Peers()
    {
      assert executed + [] == executed;
      for i := 0 to |steps|
        invariant Inv() && NoRevival() && StaysActive() && NothingToTheGone()
        invariant executed == old(executed) + LinesOf(steps[..i])
      {
        ghost var sofar := outbox;
        Take(steps[i]);
        assert steps[..i + 1][..i] == steps[..i];
        Assoc(old(executed), LinesOf(steps[..i]), if steps[i].InputLine? then [steps[i].line] else []);
        assert forall k | |old(outbox)| <= k < |sofar| :: outbox[k] == sofar[k];
      }
      assert steps[..|steps|] == steps;
    }
  }

  lemma OneSession(s: seq<Session>, peer: nat, text: string)
    requires |s| == 1 && PeersOf(s) == {peer}
    ensures ToAll(s, text) == [Delivery(peer, text, true)]
  {
    assert peer in PeersOf(s);
    assert s[..0] == [];
  }

  method FirstJoin() returns (plane: ControlPlane)
    ensures fresh(plane) && fresh(plane.sessions)
    ensures plane.Inv() && plane.sessions.Length == 1 && plane.admitted == 1
    ensures plane.Peers() == {1} && plane.activeId == 1 && plane.outbox == []
  {
    plane := new ControlPlane(1);
    assert !Live(plane.sessions[0]);
    plane.Join(3);
  }

  /** A run in which the active id stops naming a live session: one peer joins
      and a line for all is typed. If the peer refuses it, it is closed and
      stays the active one; if it takes it, all is well. */
  method RefusedAll() returns (plane: ControlPlane, ghost refused: bool)
    ensures plane.Inv() && plane.outbox == [Delivery(1, "hi\n", !refused)]
    ensures plane.activeId == 1 && (plane.ActiveLive() <==> !refused)
  {
    plane := FirstJoin();
    OneSession(plane.sessions[..], 1, "hi\n");
    ParsesAll("hi");
    assert "hi" + "\n" == "hi\n";
    ghost var before := plane.outbox;
    label typed:
    plane.HandleInputLine(":all " + "hi" + "\n");
    assert plane.Shouted@typed("hi\n");
    assert plane.outbox[|before|..] == plane.outbox;
    OneAttempt(plane.outbox, Delivery(1, "hi\n", true));
    refused := !plane.outbox[0].taken;
  }
}
