/** Echo suppression in attached mode (src/main.c): a bounded buffer of what
    was sent to a session, and the filter that hides the session's echo of it. */
module Echo {
  import opened Text

  const PENDING_MAX: nat := 8192

  // ----- the filter as a function -----

  datatype Filtered = Filtered(pending: string, printed: string)

  /** What is left to be echoed and what is shown, after receiving `s` while
      expecting an echo of `p`: a matching front is hidden, carriage returns
      in front of an expected newline too, and the rest is shown. */
  function Suppress(p: string, s: string): (f: Filtered)
    ensures |f.printed| <= |s|
  {
    if |s| == 0 then Filtered(p, "")
    else if |p| == 0 then Filtered("", s)
    else if s[0] == p[0] then Suppress(p[1..], s[1..])
    else if s[0] == '\r' && p[0] == '\n' then Suppress(p, s[1..])
    else Filtered("", s)
  }

  /** Output is a suffix of what was received; once there is any, nothing is expected. */
  lemma {:induction false} PrintedIsSuffix(p: string, s: string)
    ensures var f := Suppress(p, s);
            && f.printed == s[|s| - |f.printed|..]
            && (|f.printed| > 0 ==> f.pending == "")
    decreases |s|
  {
    if |s| > 0 && |p| > 0 {
      if s[0] == p[0] {
        PrintedIsSuffix(p[1..], s[1..]);
      } else if s[0] == '\r' && p[0] == '\n' {
        PrintedIsSuffix(p, s[1..]);
      }
    }
  }

  /** How the received octets are cut into reads makes no difference. */
  lemma {:induction false} SuppressInChunks(p: string, a: string, b: string)
    ensures var f := Suppress(p, a);
            var g := Suppress(f.pending, b);
            Suppress(p, a + b) == Filtered(g.pending, f.printed + g.printed)
    decreases |a|
  {
    if |a| == 0 {
      assert a + b == b;
    } else {
      assert (a + b)[1..] == a[1..] + b;
      if |p| == 0 || (a[0] != p[0] && !(a[0] == '\r' && p[0] == '\n')) {
        assert |b| == 0 ==> a + b == a;
      } else if a[0] == p[0] {
        SuppressInChunks(p[1..], a[1..], b);
      } else {
        SuppressInChunks(p, a[1..], b);
      }
    }
  }

  /** A terminal shows each newline as CR LF. */
  function AsShown(p: string): string {
    if |p| == 0 then ""
    else (if p[0] == '\n' then "\r\n" else [p[0]]) + AsShown(p[1..])
  }

  /** An exact echo shows nothing and leaves nothing expected. */
  lemma {:induction false} ExactEchoIsHidden(p: string)
    ensures Suppress(p, AsShown(p)) == Filtered("", "")
  {
    if |p| > 0 {
      ExactEchoIsHidden(p[1..]);
      var s := AsShown(p);
      if p[0] == '\n' {
        assert s[1..][1..] == AsShown(p[1..]);
      } else {
        assert s[1..] == AsShown(p[1..]);
      }
    }
  }

  function DropCR(s: string): string {
    if |s| == 0 then "" else (if s[0] == '\r' then "" else [s[0]]) + DropCR(s[1..])
  }

  lemma DropCROne(s: string, k: nat)
    requires 0 < k <= |s|
    ensures DropCR(s[..k]) == (if s[0] == '\r' then "" else [s[0]]) + DropCR(s[1..][..k - 1])
  {
    assert s[..k][1..] == s[1..][..k - 1];
  }

  /** Nothing but an echo is hidden: up to carriage returns, the octets not
      shown are a prefix of the expected ones, and exactly the rest stays expected. */
  lemma {:induction false} OnlyEchoIsHidden(p: string, s: string)
    requires '\r' !in p
    ensures var f := Suppress(p, s);
            var hidden := DropCR(s[..|s| - |f.printed|]);
            && hidden <= p
            && (|f.printed| == 0 ==> f.pending == p[|hidden|..])
    decreases |s|
  {
    PrintedIsSuffix(p, s);
    if |s| > 0 && |p| > 0 {
      var f := Suppress(p, s);
      var k := |s| - |f.printed|;
      if s[0] == p[0] {
        OnlyEchoIsHidden(p[1..], s[1..]);
        DropCROne(s, k);
      } else if s[0] == '\r' && p[0] == '\n' {
        OnlyEchoIsHidden(p, s[1..]);
        DropCROne(s, k);
      }
    }
  }

  /** Each hidden octet is the expected one, or a carriage return where a line
      end is expected. */
  lemma {:induction false} HiddenIsExpected(p: string, s: string, i: nat)
    requires '\r' !in p && i < |s| - |Suppress(p, s).printed|
    ensures var m := |DropCR(s[..i])|;
            m < |p| && (s[i] == p[m] || (s[i] == '\r' && p[m] == '\n'))
    decreases |s|
  {
    if i > 0 {
      DropCROne(s, i);
      if s[0] == p[0] {
        HiddenIsExpected(p[1..], s[1..], i - 1);
      } else {
        HiddenIsExpected(p, s[1..], i - 1);
      }
    }
  }

  /** The first octet shown is neither. */
  lemma {:induction false} ShownIsUnexpected(p: string, s: string)
    requires '\r' !in p && |Suppress(p, s).printed| > 0
    ensures var i := |s| - |Suppress(p, s).printed|;
            var m := |DropCR(s[..i])|;
            m == |p| || (m < |p| && s[i] != p[m] && !(s[i] == '\r' && p[m] == '\n'))
    decreases |s|
  {
    var i := |s| - |Suppress(p, s).printed|;
    if i > 0 {
      DropCROne(s, i);
      if s[0] == p[0] {
        ShownIsUnexpected(p[1..], s[1..]);
      } else {
        ShownIsUnexpected(p, s[1..]);
      }
    }
  }

  // ----- the bounded buffer -----

  function AppendAll(pending: string, bufs: seq<string>): string {
    if |bufs| == 0 then pending
    else LastN(AppendAll(pending, bufs[..|bufs| - 1]) + bufs[|bufs| - 1], PENDING_MAX)
  }

  /** Any series of appends leaves the last 8192 octets of all that was appended. */
  lemma {:induction false} AppendsKeepSuffix(pending: string, bufs: seq<string>)
    requires |pending| <= PENDING_MAX
    ensures AppendAll(pending, bufs) == LastN(pending + Flatten(bufs), PENDING_MAX)
  {
    if |bufs| == 0 {
      assert pending + Flatten(bufs) == pending;
    } else {
      var before, last := bufs[..|bufs| - 1], bufs[|bufs| - 1];
      AppendsKeepSuffix(pending, before);
      FlattenMore(before, last);
      assert bufs == before + [last];
      LastNTwice(pending + Flatten(before), last, PENDING_MAX);
      Assoc(pending, Flatten(before), last);
    }
  }

  /** What of `s` stays when `buf` is put behind it. */
  lemma RoomFor(s: string, buf: string)
    requires |s| <= PENDING_MAX
    ensures var room := if |buf| > PENDING_MAX then 0 else PENDING_MAX - |buf|;
            LastN(s + buf, PENDING_MAX) == LastN(s, room) + LastN(buf, PENDING_MAX)
  {
    if |s| + |buf| > PENDING_MAX {
      assert (s + buf)[|s + buf| - PENDING_MAX..] ==
             if |buf| > PENDING_MAX then buf[|buf| - PENDING_MAX..] else s[|s| + |buf| - PENDING_MAX..] + buf;
    }
  }

  class EchoPending {
    const pending: array<char>
    var len: nat

    ghost predicate Valid()
      reads this
    {
      pending.Length == PENDING_MAX && len <= PENDING_MAX
    }

    ghost function Contents(): string
      requires Valid()
      reads this, pending
    {
      pending[..len]
    }

    constructor ()
      ensures Valid() && Contents() == "" && fresh(pending)
    {
      pending := new char[PENDING_MAX];
      len := 0;
    }

    method Clear()
      requires Valid()
      modifies this`len
      ensures Valid() && Contents() == ""
    {
      len := 0;
    }

    /** Drops from the front of the buffer what does not fit. */
    method MakeRoom(n: nat)
      requires Valid() && n > PENDING_MAX - len
      modifies this`len, pending
      ensures Valid()
      ensures Contents() == LastN(old(Contents()), if n > PENDING_MAX then 0 else PENDING_MAX - n)
    {
      var drop := n - (PENDING_MAX - len);
      if drop >= len {
        len := 0;
      } else {
        MemMove(pending, 0, drop, len - drop);
        len := len - drop;
      }
    }

    method Append(buf: string)
      requires Valid()
      modifies this`len, pending
      ensures Valid() && Contents() == LastN(old(Contents()) + buf, PENDING_MAX)
    {
      RoomFor(Contents(), buf);
      if |buf| > PENDING_MAX - len {
        MakeRoom(|buf|);
      }
      var tail := if |buf| > PENDING_MAX then buf[|buf| - PENDING_MAX..] else buf;
      ghost var kept := Contents();
      MemCopy(pending, len, tail);
      len := len + |tail|;
      assert Contents() == kept + tail;
    }

    /** Handles one received octet; true when it is to be shown. */
    method Match(c: char) returns (show: bool)
      requires Valid()
      modifies this`len, pending
      ensures Valid()
      ensures Filtered(Contents(), if show then [c] else "") == Suppress(old(Contents()), [c])
    {
      ghost var before := Contents();
      assert [c][1..] == "";
      if len > 0 {
        if c == pending[0] {
          MemMove(pending, 0, 1, len - 1);
          len := len - 1;
          assert Contents() == before[1..];
          return false;
        }
        if c == '\r' && pending[0] == '\n' {
          return false;
        }
        len := 0;
      }
      return true;
    }

    /** `multi_write_attached_output`: shows what is no echo. A standard output
        that fails after some octets has shown a proper prefix. */
    method WriteOutput(buf: string) returns (ok: bool, printed: string)
      requires Valid()
      modifies this`len, pending
      ensures Valid()
      ensures ok ==> Filtered(Contents(), printed) == Suppress(old(Contents()), buf)
      ensures !ok ==> printed < Suppress(old(Contents()), buf).printed
    {
      printed := "";
      ghost var start := Contents();
      for i := 0 to |buf|
        invariant Valid()
        invariant Filtered(Contents(), printed) == Suppress(start, buf[..i])
      {
        SuppressInChunks(start, buf[..i], [buf[i]]);
        assert buf[..i + 1] == buf[..i] + [buf[i]];
        var show := Match(buf[i]);
        if show {
          var written := StdoutTakes();
          if !written {
            SuppressInChunks(start, buf[..i + 1], buf[i + 1..]);
            assert buf == buf[..i + 1] + buf[i + 1..];
            return false, printed;
          }
          printed := printed + [buf[i]];
        }
      }
      assert buf[..|buf|] == buf;
      return true, printed;
    }

    method StdoutTakes() returns (ok: bool)
    {
      ok := *;
    }
  }
}
