/** The session table of src/main.c and the lookups over it: by id, first,
    next and previous. */
module Navigation {

  /** A slot of the table; `peer` is the number of the admitted connection in it. */
  datatype Session = Session(fd: int, id: nat, peer: nat, name: string, rxBytes: nat, txBytes: nat)

  predicate Live(x: Session) {
    x.fd >= 0
  }

  /** The ids of the live sessions, in table order. */
  function LiveIds(s: seq<Session>): seq<nat> {
    if |s| == 0 then []
    else LiveIds(s[..|s| - 1]) + if Live(s[|s| - 1]) then [s[|s| - 1].id] else []
  }

  lemma {:induction false} LiveIdsConcat(a: seq<Session>, b: seq<Session>)
    ensures LiveIds(a + b) == LiveIds(a) + LiveIds(b)
    decreases |b|
  {
    if |b| == 0 {
      assert a + b == a;
    } else {
      LiveIdsConcat(a, b[..|b| - 1]);
      assert (a + b)[..|a + b| - 1] == a + b[..|b| - 1];
    }
  }

  lemma LiveIdsOne(x: Session)
    ensures LiveIds([x]) == if Live(x) then [x.id] else []
  {
    assert [x][..0] == [];
  }

  /** The live ids around position `i`. */
  lemma LiveIdsAround(s: seq<Session>, i: nat)
    requires i < |s|
    ensures LiveIds(s) == LiveIds(s[..i]) + (LiveIds([s[i]]) + LiveIds(s[i + 1..]))
  {
    Cut(s, i);
    LiveIdsConcat(s[..i], [s[i]] + s[i + 1..]);
    LiveIdsConcat([s[i]], s[i + 1..]);
  }

  lemma Cut(s: seq<Session>, i: nat)
    requires i < |s|
    ensures s == s[..i] + ([s[i]] + s[i + 1..])
  {
  }

  lemma {:induction false} NoneLive(s: seq<Session>)
    requires forall k | 0 <= k < |s| :: !Live(s[k])
    ensures LiveIds(s) == []
  {
    if |s| > 0 {
      NoneLive(s[..|s| - 1]);
    }
  }

  lemma {:induction false} LiveIdsMembers(s: seq<Session>, id: nat)
    ensures id in LiveIds(s) <==> exists k :: 0 <= k < |s| && Live(s[k]) && s[k].id == id
  {
    if |s| > 0 {
      var before := s[..|s| - 1];
      LiveIdsMembers(before, id);
      assert forall k | 0 <= k < |before| :: before[k] == s[k];
    }
  }

  // ----- the cyclic order -----

  predicate Distinct(ids: seq<nat>) {
    forall i, j | 0 <= i < j < |ids| :: ids[i] != ids[j]
  }

  function IndexOf(ids: seq<nat>, x: nat): (i: nat)
    requires x in ids
    ensures i < |ids| && ids[i] == x
    ensures forall k | 0 <= k < i :: ids[k] != x
  {
    if ids[0] == x then 0 else 1 + IndexOf(ids[1..], x)
  }

  function FirstOf(ids: seq<nat>): nat {
    if |ids| == 0 then 0 else ids[0]
  }

  function NextOf(ids: seq<nat>, x: nat): nat {
    if x !in ids then FirstOf(ids)
    else
      var i := IndexOf(ids, x);
      if i + 1 < |ids| then ids[i + 1] else ids[0]
  }

  function PrevOf(ids: seq<nat>, x: nat): nat {
    if x !in ids then FirstOf(ids)
    else
      var i := IndexOf(ids, x);
      if i > 0 then ids[i - 1] else ids[|ids| - 1]
  }

  lemma IndexOfAt(ids: seq<nat>, i: nat)
    requires Distinct(ids) && i < |ids|
    ensures IndexOf(ids, ids[i]) == i
  {
  }

  /** Next and previous undo each other. */
  lemma NextPrevInverse(ids: seq<nat>, x: nat)
    requires Distinct(ids) && x in ids
    ensures NextOf(ids, x) in ids && PrevOf(ids, NextOf(ids, x)) == x
    ensures PrevOf(ids, x) in ids && NextOf(ids, PrevOf(ids, x)) == x
  {
    var i := IndexOf(ids, x);
    IndexOfAt(ids, if i + 1 < |ids| then i + 1 else 0);
    IndexOfAt(ids, if i > 0 then i - 1 else |ids| - 1);
  }

  function NextTimes(ids: seq<nat>, x: nat, k: nat): nat {
    if k == 0 then x else NextOf(ids, NextTimes(ids, x, k - 1))
  }

  lemma {:induction false} NextTimesAt(ids: seq<nat>, x: nat, k: nat)
    requires Distinct(ids) && x in ids && k <= |ids|
    ensures var i := IndexOf(ids, x) + k;
            NextTimes(ids, x, k) == ids[if i < |ids| then i else i - |ids|]
  {
    if k > 0 {
      NextTimesAt(ids, x, k - 1);
      var i := IndexOf(ids, x) + k - 1;
      IndexOfAt(ids, if i < |ids| then i else i - |ids|);
    }
  }

  /** As many steps of next as there are sessions come back to the start,
      and the steps before reach each session once. */
  lemma NextVisitsAll(ids: seq<nat>, x: nat, y: nat) returns (k: nat)
    requires Distinct(ids) && x in ids && y in ids
    ensures NextTimes(ids, x, |ids|) == x
    ensures k < |ids| && NextTimes(ids, x, k) == y
  {
    var p, q := IndexOf(ids, x), IndexOf(ids, y);
    k := if q >= p then q - p else q - p + |ids|;
    NextTimesAt(ids, x, |ids|);
    NextTimesAt(ids, x, k);
  }

  lemma NextVisitsOnce(ids: seq<nat>, x: nat, j: nat, k: nat)
    requires Distinct(ids) && x in ids && j < k < |ids|
    ensures NextTimes(ids, x, j) != NextTimes(ids, x, k)
  {
    NextTimesAt(ids, x, j);
    NextTimesAt(ids, x, k);
  }

  // ----- the loops of main.c -----

  method FindById(s: seq<Session>, id: nat) returns (i: int)
    ensures -1 <= i < |s|
    ensures i >= 0 ==> Live(s[i]) && s[i].id == id && id !in LiveIds(s[..i])
    ensures i < 0 <==> id !in LiveIds(s)
  {
    i := 0;
    while i < |s|
      invariant 0 <= i <= |s|
      invariant forall k | 0 <= k < i :: !(Live(s[k]) && s[k].id == id)
    {
      if Live(s[i]) && s[i].id == id {
        LiveIdsMembers(s[..i], id);
        LiveIdsMembers(s, id);
        return;
      }
      i := i + 1;
    }
    LiveIdsMembers(s, id);
    return -1;
  }

  method FirstSessionId(s: seq<Session>) returns (id: nat)
    ensures id == FirstOf(LiveIds(s))
  {
    for i := 0 to |s|
      invariant forall k | 0 <= k < i :: !Live(s[k])
    {
      if Live(s[i]) {
        FirstLive(s, i);
        return s[i].id;
      }
    }
    NoneLive(s);
    return 0;
  }

  /** The position of a session among the live ones. */
  lemma ActiveAt(s: seq<Session>, i: nat)
    requires i < |s| && Live(s[i]) && s[i].id !in LiveIds(s[..i])
    ensures LiveIds(s) == LiveIds(s[..i]) + ([s[i].id] + LiveIds(s[i + 1..]))
    ensures s[i].id in LiveIds(s) && IndexOf(LiveIds(s), s[i].id) == |LiveIds(s[..i])|
  {
    LiveIdsAround(s, i);
    LiveIdsOne(s[i]);
    var ids, n := LiveIds(s), |LiveIds(s[..i])|;
    assert ids[n] == s[i].id && forall k | 0 <= k < n :: ids[k] == LiveIds(s[..i])[k];
  }

  /** The neighbours of a session are the ends of what lives after and before it. */
  lemma Neighbours(s: seq<Session>, i: nat)
    requires i < |s| && Live(s[i]) && s[i].id !in LiveIds(s[..i])
    ensures var ids, after, before := LiveIds(s), LiveIds(s[i + 1..]), LiveIds(s[..i]);
            && |ids| > 0
            && NextOf(ids, s[i].id) == (if |after| > 0 then after[0] else ids[0])
            && PrevOf(ids, s[i].id) == (if |before| > 0 then before[|before| - 1] else ids[|ids| - 1])
  {
    ActiveAt(s, i);
    var ids, after, before := LiveIds(s), LiveIds(s[i + 1..]), LiveIds(s[..i]);
    assert |after| > 0 ==> ids[|before| + 1] == after[0];
    assert |before| > 0 ==> ids[|before| - 1] == before[|before| - 1];
  }

  lemma FirstLive(s: seq<Session>, i: nat)
    requires i < |s| && Live(s[i]) && forall k | 0 <= k < i :: !Live(s[k])
    ensures |LiveIds(s)| > 0 && LiveIds(s)[0] == s[i].id
  {
    LiveIdsAround(s, i);
    LiveIdsOne(s[i]);
    NoneLive(s[..i]);
  }

  lemma LastLive(s: seq<Session>, i: nat)
    requires i < |s| && Live(s[i]) && forall k | i < k < |s| :: !Live(s[k])
    ensures |LiveIds(s)| > 0 && LiveIds(s)[|LiveIds(s)| - 1] == s[i].id
  {
    LiveIdsAround(s, i);
    LiveIdsOne(s[i]);
    NoneLive(s[i + 1..]);
  }

  // ----- the same by places in the table -----

  predicate NoneLiveIn(s: seq<Session>, lo: int, hi: int) {
    forall k | 0 <= k < |s| && lo <= k < hi :: !Live(s[k])
  }

  predicate IsFirst(s: seq<Session>, j: int) {
    0 <= j < |s| && Live(s[j]) && NoneLiveIn(s, 0, j)
  }

  predicate IsLast(s: seq<Session>, j: int) {
    0 <= j < |s| && Live(s[j]) && NoneLiveIn(s, j + 1, |s|)
  }

  /** The slot after `i`, and the first one after the last. */
  predicate IsNext(s: seq<Session>, i: int, j: int) {
    && 0 <= i < |s| && 0 <= j < |s| && Live(s[j])
    && ((i < j && NoneLiveIn(s, i + 1, j)) || (NoneLiveIn(s, i + 1, |s|) && IsFirst(s, j)))
  }

  predicate IsPrev(s: seq<Session>, i: int, j: int) {
    && 0 <= i < |s| && 0 <= j < |s| && Live(s[j])
    && ((j < i && NoneLiveIn(s, j + 1, i)) || (NoneLiveIn(s, 0, i) && IsLast(s, j)))
  }

  lemma FirstByPlace(s: seq<Session>, j: nat)
    requires IsFirst(s, j)
    ensures FirstOf(LiveIds(s)) == s[j].id
  {
    FirstLive(s, j);
  }

  lemma NoneByPlace(s: seq<Session>)
    requires NoneLiveIn(s, 0, |s|)
    ensures FirstOf(LiveIds(s)) == 0
  {
    NoneLive(s);
  }

  /** The next id is the one in the next slot. */
  lemma NextByPlace(s: seq<Session>, i: nat, j: nat)
    requires IsNext(s, i, j) && Live(s[i]) && s[i].id !in LiveIds(s[..i])
    ensures NextOf(LiveIds(s), s[i].id) == s[j].id
  {
    Neighbours(s, i);
    if i < j && NoneLiveIn(s, i + 1, j) {
      FirstLive(s[i + 1..], j - i - 1);
    } else {
      NoneLive(s[i + 1..]);
      FirstLive(s, j);
    }
  }

  /** The previous id is the one in the previous slot. */
  lemma PrevByPlace(s: seq<Session>, i: nat, j: nat)
    requires IsPrev(s, i, j) && Live(s[i]) && s[i].id !in LiveIds(s[..i])
    ensures PrevOf(LiveIds(s), s[i].id) == s[j].id
  {
    Neighbours(s, i);
    if j < i && NoneLiveIn(s, j + 1, i) {
      LastLive(s[..i], j);
    } else {
      NoneLive(s[..i]);
      LastLive(s, j);
    }
  }

  method NextSessionId(s: seq<Session>, activeId: nat) returns (id: nat)
    ensures id == NextOf(LiveIds(s), activeId)
  {
    var at := FindById(s, activeId);
    if at < 0 {
      id := FirstSessionId(s);
      return;
    }
    Neighbours(s, at);
    for i := at + 1 to |s|
      invariant forall k | at < k < i :: !Live(s[k])
    {
      if Live(s[i]) {
        FirstLive(s[at + 1..], i - at - 1);
        return s[i].id;
      }
    }
    NoneLive(s[at + 1..]);
    id := FirstSessionId(s);
  }

  method PrevSessionId(s: seq<Session>, activeId: nat) returns (id: nat)
    ensures id == PrevOf(LiveIds(s), activeId)
  {
    var at := FindById(s, activeId);
    if at < 0 {
      id := FirstSessionId(s);
      return;
    }
    Neighbours(s, at);
    for i := at downto 0
      invariant forall k | i <= k < at :: !Live(s[k])
    {
      if Live(s[i]) {
        LastLive(s[..at], i);
        return s[i].id;
      }
    }
    NoneLive(s[..at]);
    id := 0;
    for i := |s| downto 0
      invariant forall k | i <= k < |s| :: !Live(s[k])
    {
      if Live(s[i]) {
        LastLive(s, i);
        return s[i].id;
      }
    }
    assert false;
  }
}
