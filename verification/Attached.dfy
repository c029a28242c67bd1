/** Attached mode of src/main.c: typed text goes to the session at once, except
    that the start of a line is held back while it may still become one of the
    words that detach. */
module Attached {
  import opened Text
  import opened Echo

  const WORDS: seq<string> := ["back", ":back", ":detach"]

  // ----- what a typed stream means -----

  predicate IsEol(c: char) {
    c == '\r' || c == '\n'
  }

  /** The input for which attached mode is transparent. */
  predicate IsText(c: char) {
    IsEol(c) || c == '\t' || 32 <= c as int < 127
  }

  predicate IsTextUpTo(s: string, n: nat)
    requires n <= |s|
  {
    forall i | 0 <= i < n :: IsText(s[i])
  }

  /** What the session is to receive for typed text. */
  function Norm(t: string): string {
    seq(|t|, i requires 0 <= i < |t| => if t[i] == '\r' then '\n' else t[i])
  }

  /** Where the line being typed begins. */
  function LineStart(t: string): (n: nat)
    ensures n <= |t|
  {
    if |t| == 0 then 0
    else if IsEol(t[|t| - 1]) then |t|
    else LineStart(t[..|t| - 1])
  }

  function CurrentLine(t: string): string {
    t[LineStart(t)..]
  }

  /** Where the first complete line that is a detach word begins. */
  function FirstDetach(t: string): (r: Option<nat>)
    ensures r.Some? ==> r.value <= |t|
  {
    if |t| == 0 then None
    else
      var before := t[..|t| - 1];
      var earlier := FirstDetach(before);
      if earlier.Some? then earlier
      else if IsEol(t[|t| - 1]) && CurrentLine(before) in WORDS then Some(LineStart(before))
      else None
  }

  ghost predicate DetachesAt(t: string, i: nat)
    requires i < |t|
  {
    IsEol(t[i]) && CurrentLine(t[..i]) in WORDS
  }

  /** A stream detaches exactly when one of its complete lines is a detach word. */
  lemma {:induction false} FirstDetachMeaning(t: string)
    ensures FirstDetach(t).Some? <==> exists i: nat :: i < |t| && DetachesAt(t, i)
  {
    if |t| > 0 {
      var before := t[..|t| - 1];
      FirstDetachMeaning(before);
      assert forall i: nat | i < |before| :: before[..i] == t[..i];
      assert forall i: nat | i < |before| :: DetachesAt(before, i) == DetachesAt(t, i);
      assert DetachesAt(t, |t| - 1) == (IsEol(t[|t| - 1]) && CurrentLine(before) in WORDS);
    }
  }

  predicate MayDetach(line: string) {
    exists i | 0 <= i < |WORDS| :: line <= WORDS[i]
  }

  /** A line is held back only while it begins one of the three words. */
  lemma HeldBeginsWord(line: string)
    ensures MayDetach(line) <==> line <= "back" || line <= ":back" || line <= ":detach"
    ensures line in WORDS <==> line == "back" || line == ":back" || line == ":detach"
  {
    assert WORDS[0] == "back" && WORDS[1] == ":back" && WORDS[2] == ":detach";
  }

  lemma WordsAreShort(line: string)
    requires MayDetach(line)
    ensures |line| <= 7
  {
  }

  /** No detach word is the beginning of another, so the first word that
      matches decides. */
  lemma WordsAreApart(i: nat, j: nat)
    requires i < |WORDS| && j < |WORDS| && WORDS[i] <= WORDS[j]
    ensures i == j
  {
    assert WORDS[0][0] == 'b' && WORDS[1][0] == ':' && WORDS[2][0] == ':';
    assert WORDS[1][1] == 'b' && WORDS[2][1] == 'd';
  }

  /** The word a line begins is the only one it can be. */
  lemma OnlyThatWord(line: string, i: nat)
    requires i < |WORDS| && line <= WORDS[i]
    ensures line in WORDS <==> |line| == |WORDS[i]|
  {
    if line in WORDS {
      var j :| 0 <= j < |WORDS| && WORDS[j] == line;
      WordsAreApart(j, i);
    }
    if |line| == |WORDS[i]| {
      assert line == WORDS[i];
    }
  }

  method DetachMatch(line: string) returns (held: bool, exact: bool)
    ensures held == MayDetach(line)
    ensures exact == (line in WORDS)
    ensures held <==> line <= "back" || line <= ":back" || line <= ":detach"
    ensures exact <==> line == "back" || line == ":back" || line == ":detach"
  {
    HeldBeginsWord(line);
    for i := 0 to |WORDS|
      invariant forall k | 0 <= k < i :: !(line <= WORDS[k])
    {
      if |line| <= |WORDS[i]| && WORDS[i][..|line|] == line {
        OnlyThatWord(line, i);
        return true, |line| == |WORDS[i]|;
      }
    }
    return false, false;
  }

  lemma NormAppend(t: string, u: string)
    ensures Norm(t + u) == Norm(t) + Norm(u)
  {
  }

  lemma NormOne(c: char)
    ensures Norm([c]) == if c == '\r' then "\n" else [c]
  {
  }

  lemma NothingTyped()
    ensures MayDetach("")
  {
    assert "" <= WORDS[0];
  }

  /** A character that extends the current line. */
  lemma TypeInLine(t: string, c: char)
    requires !IsEol(c)
    ensures FirstDetach(t + [c]) == FirstDetach(t)
    ensures CurrentLine(t + [c]) == CurrentLine(t) + [c]
    ensures Norm(t + [c]) == Norm(t) + [c]
  {
    assert (t + [c])[..|t|] == t;
    NormAppend(t, [c]);
    NormOne(c);
  }

  lemma TypeEol(t: string, c: char)
    requires IsEol(c)
    ensures CurrentLine(t + [c]) == ""
    ensures FirstDetach(t + [c]) ==
            if FirstDetach(t).Some? then FirstDetach(t)
            else if CurrentLine(t) in WORDS then Some(LineStart(t)) else None
  {
    assert (t + [c])[..|t|] == t;
  }

  lemma NormEol(t: string, c: char)
    requires IsEol(c)
    ensures Norm(t + [c]) == Norm(t) + "\n"
  {
    NormAppend(t, [c]);
    NormOne(c);
  }

  /** What was typed before the first detach does not change any more. */
  lemma DetachStays(t: string, c: char)
    requires FirstDetach(t).Some?
    ensures FirstDetach(t + [c]) == FirstDetach(t)
    ensures (t + [c])[..FirstDetach(t).value] == t[..FirstDetach(t).value]
  {
    assert (t + [c])[..|t|] == t;
  }

  lemma NormLine(t: string)
    ensures Norm(t) == Norm(t[..LineStart(t)]) + CurrentLine(t)
  {
    LineHasNoEol(t);
    assert t == t[..LineStart(t)] + CurrentLine(t);
    NormAppend(t[..LineStart(t)], CurrentLine(t));
    assert Norm(CurrentLine(t)) == CurrentLine(t);
  }

  lemma {:induction false} LineHasNoEol(t: string)
    ensures forall i | LineStart(t) <= i < |t| :: !IsEol(t[i])
  {
    if |t| > 0 {
      LineHasNoEol(t[..|t| - 1]);
    }
  }

  lemma CancelRight(a: string, b: string, tail: string)
    ensures a + tail == b + tail ==> a == b
  {
    if a + tail == b + tail {
      assert (a + tail)[..|a|] == a && (b + tail)[..|b|] == b;
    }
  }

  /** A line that cannot become a detach word stays so. */
  lemma LongerLine(line: string, c: char)
    ensures MayDetach(line + [c]) ==> MayDetach(line)
  {
    assert forall i | 0 <= i < |WORDS| && line + [c] <= WORDS[i] :: line <= WORDS[i];
  }

  // ----- the account of an attachment -----

  /** What was typed since a line boundary, whether all of it is text, what had
      been passed on at the first detach, what was passed on in all, the line as
      the program has it, and what is expected to be echoed. */
  datatype Account = Account(typed: string, clean: bool, cut: Option<string>,
                             sent: string, line: string, held: bool, attached: bool, pending: string)

  function HeldText(a: Account): string {
    if a.held then a.line else ""
  }

  /** Up to the first detach nothing is lost, reordered or sent too early. */
  predicate Transparent(a: Account) {
    && a.attached && FirstDetach(a.typed).None?
    && a.sent + HeldText(a) == Norm(a.typed)
    && if a.held then a.line == CurrentLine(a.typed) && MayDetach(a.line) else !MayDetach(CurrentLine(a.typed))
  }

  /** At the first detach everything before the detaching line had been
      sent, and no octet of that line. */
  predicate CutClean(a: Account) {
    && FirstDetach(a.typed).Some? && a.cut.Some?
    && a.cut.value == Norm(a.typed[..FirstDetach(a.typed).value])
  }

  predicate Right(a: Account) {
    a.clean ==> if a.cut.None? then Transparent(a) else CutClean(a)
  }

  /** Attached at a line boundary, nothing typed yet. */
  lemma FreshIsRight(a: Account)
    requires a.typed == "" && a.sent == "" && a.cut.None? && a.attached && (a.clean ==> a.held && a.line == "")
    ensures Right(a)
  {
    NothingTyped();
  }

  lemma RightMeans(a: Account)
    requires Right(a) && a.clean
    ensures FirstDetach(a.typed).None? <==> a.cut.None?
    ensures a.cut.None? ==> a.attached && a.sent + HeldText(a) == Norm(a.typed) && MayDetach(HeldText(a))
    ensures a.cut.Some? ==> a.cut == Some(Norm(a.typed[..FirstDetach(a.typed).value]))
  {
    NothingTyped();
  }

  // ----- what an octet does -----

  function Passed(a: Account, text: string): Account {
    a.(sent := a.sent + text, pending := LastN(a.pending + text, PENDING_MAX))
  }

  /** A detach sends nothing and forgets the line and the expected echo. */
  function Left(a: Account): Account {
    a.(attached := false, line := "", held := true, pending := "",
       cut := if a.cut.None? then Some(a.sent) else a.cut)
  }

  function AtEol(a: Account): Account {
    if a.held && a.line in WORDS then Left(a)
    else Passed(a, HeldText(a) + "\n").(line := "", held := true)
  }

  function AtText(a: Account, c: char): Account {
    if |a.line| + 1 >= INPUT_MAX then if a.attached then Passed(a, [c]) else a
    else
      var b := a.(line := a.line + [c]);
      if !a.held then Passed(b, [c])
      else if MayDetach(b.line) then b
      else Passed(b, b.line).(held := false)
  }

  function AtControl(a: Account, c: char): Account {
    if c as int == 0x1d then Left(a)
    else if c == '\U{8}' || c as int == 127 then
      if a.line == "" then a
      else
        var b := a.(line := a.line[..|a.line| - 1]);
        if a.held then b else Passed(b, [c])
    else if a.attached then Passed(a, [c])
    else a
  }

  /** The account after one more octet. */
  function Octet(a: Account, c: char): Account {
    (if IsEol(c) then AtEol(a) else if IsText(c) then AtText(a, c) else AtControl(a, c)).
    (typed := a.typed + [c], clean := a.clean && IsText(c))
  }

  function Octets(a: Account, s: string): Account {
    if |s| == 0 then a else Octet(Octets(a, s[..|s| - 1]), s[|s| - 1])
  }

  lemma OctetsMore(a: Account, s: string, c: char)
    ensures Octets(a, s + [c]) == Octet(Octets(a, s), c)
  {
    assert (s + [c])[..|s|] == s;
  }

  // ----- text is passed on as typed -----

  lemma StaysCut(a: Account, b: Account, c: char)
    requires CutClean(a) && b.cut == a.cut && b.typed == a.typed + [c]
    ensures CutClean(b)
  {
    DetachStays(a.typed, c);
  }

  /** A character behind a line that may still detach, or no more. */
  lemma TextWhileAttached(a: Account, c: char)
    requires Transparent(a) && IsText(c) && !IsEol(c)
    ensures Transparent(Octet(a, c))
  {
    var b := Octet(a, c);
    TypeInLine(a.typed, c);
    LongerLine(CurrentLine(a.typed), c);
    if a.held {
      WordsAreShort(a.line);
      Assoc(a.sent, a.line, [c]);
    }
    assert b.sent + HeldText(b) == (a.sent + HeldText(a)) + [c];
  }

  lemma TextStaysRight(a: Account, c: char)
    requires Right(a) && IsText(c) && !IsEol(c)
    ensures Right(Octet(a, c))
  {
    if a.clean && a.cut.None? {
      TextWhileAttached(a, c);
    } else if a.clean {
      StaysCut(a, Octet(a, c), c);
    }
  }

  lemma DetachIsClean(a: Account, c: char)
    requires Transparent(a) && a.cut.None? && IsEol(c) && a.held && a.line in WORDS
    ensures CutClean(Octet(a, c))
  {
    var t := a.typed;
    TypeEol(t, c);
    NormLine(t);
    CancelRight(a.sent, Norm(t[..LineStart(t)]), CurrentLine(t));
    assert (t + [c])[..LineStart(t)] == t[..LineStart(t)];
  }

  lemma LineGoesOut(a: Account, c: char)
    requires Transparent(a) && IsEol(c) && !(a.held && a.line in WORDS)
    ensures Transparent(Octet(a, c))
  {
    var t := a.typed;
    TypeEol(t, c);
    NormEol(t, c);
    NothingTyped();
    NotAWord(CurrentLine(t), a.held);
    Assoc(a.sent, HeldText(a), "\n");
    assert Octet(a, c).sent + "" == Octet(a, c).sent;
  }

  lemma EolStaysRight(a: Account, c: char)
    requires Right(a) && IsEol(c)
    ensures Right(Octet(a, c))
  {
    if a.clean && a.cut.None? {
      if a.held && a.line in WORDS {
        DetachIsClean(a, c);
      } else {
        LineGoesOut(a, c);
      }
    } else if a.clean {
      StaysCut(a, Octet(a, c), c);
    }
  }

  /** Typed octets, cut anywhere: the account stays right, and knows what was typed. */
  lemma {:induction false} OctetsStayRight(a: Account, s: string)
    requires Right(a)
    ensures var b := Octets(a, s);
            Right(b) && b.typed == a.typed + s && (b.clean <==> a.clean && IsTextUpTo(s, |s|))
  {
    if |s| == 0 {
      assert a.typed + s == a.typed;
    } else {
      var front, c := s[..|s| - 1], s[|s| - 1];
      OctetsStayRight(a, front);
      assert a.typed + s == (a.typed + front) + [c];
      assert IsTextUpTo(s, |s|) == (IsTextUpTo(front, |front|) && IsText(c));
      if IsEol(c) {
        EolStaysRight(Octets(a, front), c);
      } else if IsText(c) {
        TextStaysRight(Octets(a, front), c);
      }
    }
  }

  // ----- the echo that is expected -----

  /** While attached, what was passed on since `a` is expected to be echoed. */
  predicate EchoKept(a: Account, b: Account) {
    a.sent <= b.sent && b.pending == LastN(a.pending + b.sent[|a.sent|..], PENDING_MAX)
  }

  lemma EchoOf(a: Account, b: Account, text: string)
    requires |a.pending| <= PENDING_MAX
    requires (b.sent == a.sent && b.pending == a.pending) ||
             (b.sent == a.sent + text && b.pending == LastN(a.pending + text, PENDING_MAX))
    ensures EchoKept(a, b) && |b.pending| <= PENDING_MAX
  {
    if b.sent == a.sent {
      assert b.sent[|a.sent|..] == "" && a.pending + "" == a.pending;
    } else {
      assert b.sent[|a.sent|..] == text;
    }
  }

  lemma EchoOctet(a: Account, c: char)
    requires |a.pending| <= PENDING_MAX
    ensures var b := Octet(a, c); |b.pending| <= PENDING_MAX && (b.cut.None? ==> a.cut.None? && EchoKept(a, b))
  {
    var b := Octet(a, c);
    if b.cut.None? {
      EchoOf(a, b, if IsEol(c) then HeldText(a) + "\n" else if a.held && b.line != a.line then b.line else [c]);
    }
  }

  lemma EchoChains(a: Account, b: Account, d: Account)
    requires EchoKept(a, b) && EchoKept(b, d)
    ensures EchoKept(a, d)
  {
    var first, second := b.sent[|a.sent|..], d.sent[|b.sent|..];
    LastNTwice(a.pending + first, second, PENDING_MAX);
    Assoc(a.pending, first, second);
    assert d.sent[|a.sent|..] == first + second;
  }

  /** As long as nothing detached, whatever was typed. */
  lemma {:induction false} EchoOctets(a: Account, s: string)
    requires |a.pending| <= PENDING_MAX
    ensures var b := Octets(a, s); |b.pending| <= PENDING_MAX && (b.cut.None? ==> a.cut.None? && EchoKept(a, b))
  {
    if |s| == 0 {
      EchoOf(a, a, "");
    } else {
      var before := Octets(a, s[..|s| - 1]);
      EchoOctets(a, s[..|s| - 1]);
      EchoOctet(before, s[|s| - 1]);
      if Octets(a, s).cut.None? {
        EchoChains(a, before, Octets(a, s));
      }
    }
  }

  // ----- what single keys and lines do -----

  /** Attached at the start of a line. */
  predicate AtLineStart(a: Account) {
    a.attached && a.held && a.line == ""
  }

  /** All of `x`, typed at the start of a line with `sent` passed on, is held or passed on. */
  predicate HeldOrPassed(b: Account, sent: string, x: string) {
    && b.attached && b.held == MayDetach(x)
    && if b.held then b.line == x && b.sent == sent else b.sent == sent + x
  }

  lemma OneMoreInLine(b: Account, sent: string, x: string, c: char)
    requires HeldOrPassed(b, sent, x) && IsText(c) && !IsEol(c)
    ensures HeldOrPassed(Octet(b, c), sent, x + [c])
  {
    LongerLine(x, c);
    Assoc(sent, x, [c]);
    if b.held {
      WordsAreShort(x);
    }
  }

  lemma {:induction false} TypingInLine(a: Account, x: string)
    requires AtLineStart(a) && forall i | 0 <= i < |x| :: IsText(x[i]) && !IsEol(x[i])
    ensures HeldOrPassed(Octets(a, x), a.sent, x)
  {
    if |x| == 0 {
      NothingTyped();
    } else {
      var front, c := x[..|x| - 1], x[|x| - 1];
      TypingInLine(a, front);
      OneMoreInLine(Octets(a, front), a.sent, front, c);
      assert x == front + [c];
    }
  }

  lemma LineEnds(b: Account, sent: string, x: string, eol: char)
    requires HeldOrPassed(b, sent, x) && IsEol(eol) && x !in WORDS
    ensures var d := Octet(b, eol); AtLineStart(d) && d.sent == sent + x + "\n"
  {
    Assoc(sent, x, "\n");
    if !b.held {
      assert HeldText(b) + "\n" == "\n";
    }
  }

  /** A line that is no detach word arrives with a newline, whichever line end was typed. */
  lemma LinePasses(a: Account, x: string, eol: char)
    requires AtLineStart(a) && IsEol(eol) && forall i | 0 <= i < |x| :: IsText(x[i]) && !IsEol(x[i])
    requires x != "back" && x != ":back" && x != ":detach"
    ensures var b := Octets(a, x + [eol]); AtLineStart(b) && b.sent == a.sent + x + "\n"
  {
    TypingInLine(a, x);
    LineEnds(Octets(a, x), a.sent, x, eol);
    OctetsMore(a, x, eol);
  }

  /** The three words detach, and nothing of them is passed on. */
  lemma WordDetaches(a: Account, x: string, eol: char)
    requires AtLineStart(a) && IsEol(eol) && (x == "back" || x == ":back" || x == ":detach")
    ensures var b := Octets(a, x + [eol]);
            && !b.attached && b.sent == a.sent && b.pending == "" && b.line == "" && b.held
  {
    var k := if x == "back" then 0 else if x == ":back" then 1 else 2;
    assert WORDS[k] == x && x <= WORDS[k];
    TypingInLine(a, x);
    OctetsMore(a, x, eol);
  }

  /** Ctrl-] detaches anywhere; what was held is dropped, not passed on. */
  lemma BreakDetaches(a: Account, s: string, c: char)
    requires c as int == 0x1d
    ensures var b := Octets(a, s + [c]);
            && !b.attached && b.sent == Octets(a, s).sent && b.pending == "" && b.line == "" && b.held
  {
    OctetsMore(a, s, c);
  }

  /** And nothing that is typed attaches again. */
  lemma {:induction false} StaysDetached(a: Account, s: string)
    requires !a.attached
    ensures !Octets(a, s).attached
  {
    if |s| > 0 {
      StaysDetached(a, s[..|s| - 1]);
    }
  }

  /** A held octet can be erased: it is as if it had not been typed. */
  lemma ErasesHeld(a: Account, c: char, erase: char)
    requires a.held && IsText(c) && !IsEol(c) && MayDetach(a.line + [c])
    requires erase == '\U{8}' || erase as int == 127
    ensures var b := Octets(a, [c] + [erase]); b == a.(typed := b.typed, clean := false)
  {
    WordsAreShort(a.line + [c]);
    OctetsMore(a, [c], erase);
    OctetsMore(a, "", c);
    assert "" + [c] == [c];
    assert (a.line + [c])[..|a.line|] == a.line;
  }

  /** An octet that was passed on is erased at the other end: the erasing octet goes after it. */
  lemma ErasesPassed(a: Account, erase: char)
    requires !a.held && |a.line| > 0 && (erase == '\U{8}' || erase as int == 127)
    ensures var b := Octet(a, erase);
            b.sent == a.sent + [erase] && !b.held && b.line == a.line[..|a.line| - 1] && b.attached == a.attached
  {
  }

  /** Any other control octet goes out at once, ahead of what is held. */
  lemma ControlPasses(a: Account, c: char)
    requires a.attached && !IsText(c) && c as int != 0x1d && c as int != 8 && c as int != 127
    ensures var b := Octet(a, c); b.sent == a.sent + [c] && b.line == a.line && b.held == a.held && b.attached
  {
  }

  lemma NotAWord(line: string, held: bool)
    requires !held ==> !MayDetach(line)
    ensures line in WORDS ==> held
  {
    if line in WORDS {
      var i :| 0 <= i < |WORDS| && WORDS[i] == line;
      assert line <= WORDS[i];
    }
  }

  class AttachedInput {
    var attached: bool
    const line: array<char>
    var lineLen: nat
    var held: bool
    const echo: EchoPending
    /** What the read at hand passes to the session, write by write. */
    var pieces: seq<string>
    /** Octets passed to the session, and those passed before this read. */
    ghost var sent: string
    ghost var sentBefore: string
    /** Octets typed since a line boundary, and whether all of them are text. */
    ghost var typed: string
    ghost var clean: bool
    /** What had been passed on at the first detach since then. */
    ghost var cut: Option<string>

    ghost predicate Valid()
      reads this, echo
    {
      && line.Length == INPUT_MAX && lineLen < INPUT_MAX
      && line != echo.pending && echo.Valid()
      && sent == sentBefore + Flatten(pieces)
    }

    ghost function Line(): string
      requires Valid()
      reads this, line, echo
    {
      line[..lineLen]
    }

    ghost function Now(): Account
      requires Valid()
      reads this, line, echo, echo.pending
    {
      Account(typed, clean, cut, sent, Line(), held, attached, echo.Contents())
    }

    ghost predicate Faithful()
      reads this, line, echo, echo.pending
    {
      Valid() && Right(Now())
    }

    constructor ()
      ensures Faithful() && clean && typed == "" && sent == "" && fresh(line) && fresh(echo) && fresh(echo.pending)
      ensures echo.Contents() == ""
    {
      attached, lineLen, held := true, 0, true;
      line := new char[INPUT_MAX];
      echo := new EchoPending();
      sent, sentBefore, pieces, typed, clean, cut := "", "", [], "", true, None;
      new;
      FreshIsRight(Now());
    }

    /** Attaching: the account of what was typed and sent starts afresh. It is
        kept from a line boundary only, as every detach leaves it; a peer that
        closes may leave text held. */
    method Attach()
      requires Valid()
      modifies this
      ensures Faithful() && cut.None? && typed == "" && sent == "" && attached
      ensures lineLen == old(lineLen) && held == old(held) && (clean <==> lineLen == 0 && held)
    {
      attached := true;
      sent, sentBefore, pieces, typed, clean, cut := "", "", [], "", lineLen == 0 && held, None;
      FreshIsRight(Now());
    }

    /** The session went away: the held line stays, and the account ends. */
    method Release()
      requires Valid()
      modifies this`attached, this`clean
      ensures Faithful() && !attached && !clean
    {
      attached, clean := false, false;
    }

    /** `multi_send_line` to the session, whose failure is ignored, and the
        record of what will be echoed. */
    method Send(buf: string)
      requires Valid()
      modifies this`sent, this`pieces, echo`len, echo.pending
      ensures Valid() && Now() == Passed(old(Now()), buf)
    {
      FlattenMore(pieces, buf);
      Assoc(sentBefore, Flatten(pieces), buf);
      sent := sent + buf;
      pieces := pieces + [buf];
      echo.Append(buf);
    }

    method Detach()
      requires Valid()
      modifies this`attached, this`lineLen, this`held, this`cut, echo`len
      ensures Valid() && Now() == Left(old(Now()))
    {
      attached, lineLen, held := false, 0, true;
      echo.Clear();
      if cut.None? {
        cut := Some(sent);
      }
    }

    /** A line end: detaches on a held detach word, or passes the held text and a newline. */
    method HandleEol(c: char)
      requires Valid() && IsEol(c)
      modifies this`attached, this`lineLen, this`held, this`cut, this`sent, this`pieces, echo`len, echo.pending
      ensures Valid() && Now() == AtEol(old(Now()))
    {
      if held {
        var prefix, exact := DetachMatch(line[..lineLen]);
        if exact {
          Detach();
          return;
        }
      }
      PassLine();
    }

    /** Passes on the held text and a newline. */
    method PassLine()
      requires Valid()
      modifies this`lineLen, this`held, this`sent, this`pieces, echo`len, echo.pending
      ensures Valid()
      ensures Now() == Passed(old(Now()), old(HeldText(Now())) + "\n").(line := "", held := true)
    {
      ghost var a := Now();
      SendHeld();
      LastNTwice(a.pending + HeldText(a), "\n", PENDING_MAX);
      Assoc(a.pending, HeldText(a), "\n");
      Assoc(a.sent, HeldText(a), "\n");
      lineLen, held := 0, true;
      Send("\n");
    }

    /** Passes on the held text, if there is any. */
    method SendHeld()
      requires Valid()
      modifies this`sent, this`pieces, echo`len, echo.pending
      ensures Valid() && Now() == Passed(old(Now()), old(HeldText(Now())))
    {
      if held && lineLen > 0 {
        Send(line[..lineLen]);
      } else {
        assert HeldText(Now()) == "" && sent + "" == sent && echo.Contents() + "" == echo.Contents();
      }
    }

    /** A printable character or tab: held while the line may still detach. */
    method HandleText(c: char)
      requires Valid()
      modifies this`lineLen, this`held, this`sent, this`pieces, line, echo`len, echo.pending
      ensures Valid() && Now() == AtText(old(Now()), c)
    {
      if lineLen + 1 < INPUT_MAX {
        line[lineLen] := c;
        lineLen := lineLen + 1;
        assert line[..lineLen] == old(line[..lineLen]) + [c];
        if held {
          var prefix, exact := DetachMatch(line[..lineLen]);
          if !prefix {
            Send(line[..lineLen]);
            held := false;
          }
        } else {
          Send([c]);
        }
      } else if attached {
        Send([c]);
      }
    }

    /** Ctrl-], backspace and the other control octets. */
    method HandleControl(c: char)
      requires Valid() && !IsText(c)
      modifies this`attached, this`lineLen, this`held, this`cut, this`sent, this`pieces, echo`len, echo.pending
      ensures Valid() && Now() == AtControl(old(Now()), c)
    {
      if c as int == 0x1d {
        Detach();
      } else if c == '\U{8}' || c as int == 127 {
        if lineLen > 0 {
          lineLen := lineLen - 1;
          assert line[..lineLen] == old(line[..lineLen])[..lineLen];
          if !held {
            Send([c]);
          }
        }
      } else if attached {
        Send([c]);
      }
    }

    method HandleByte(c: char)
      requires Valid()
      modifies this, line, echo`len, echo.pending
      ensures Valid() && Now() == Octet(old(Now()), c) && sentBefore == old(sentBefore)
    {
      if IsEol(c) {
        HandleEol(c);
      } else if IsText(c) {
        HandleText(c);
      } else {
        HandleControl(c);
      }
      typed, clean := typed + [c], clean && IsText(c);
    }

    method ReadAll(buf: string)
      requires Valid()
      modifies this, line, echo`len, echo.pending
      ensures Valid() && Now() == Octets(old(Now()), buf) && sentBefore == old(sentBefore)
    {
      for i := 0 to |buf|
        invariant Valid() && Now() == Octets(old(Now()), buf[..i]) && sentBefore == old(sentBefore)
      {
        assert buf[..i + 1] == buf[..i] + [buf[i]];
        OctetsMore(old(Now()), buf[..i], buf[i]);
        HandleByte(buf[i]);
      }
      assert buf[..|buf|] == buf;
    }

    /** One read from the terminal, cut anywhere. While only text was typed:
        up to the first detach, what was sent followed by what is held is the
        typed text with CR as LF, and held text may still become a detach word;
        and a line that is a detach word detaches with none of it sent. Until
        something detaches, the echo to come is the end of what was sent. */
    method HandleStdin(buf: string)
      requires Faithful()
      modifies this, line, echo`len, echo.pending
      ensures Faithful() && Now() == Octets(old(Now()), buf)
      ensures typed == old(typed) + buf && sent == old(sent) + Flatten(pieces)
      ensures clean == (old(clean) && IsTextUpTo(buf, |buf|))
      ensures clean && FirstDetach(typed).None? ==>
                attached && sent + HeldText(Now()) == Norm(typed) && MayDetach(HeldText(Now()))
      ensures clean && FirstDetach(typed).Some? ==>
                cut == Some(Norm(typed[..FirstDetach(typed).value]))
      ensures cut.None? ==> old(cut).None? && EchoKept(old(Now()), Now())
    {
      ghost var was := Now();
      assert sent + "" == sent;
      pieces, sentBefore := [], sent;
      ReadAll(buf);
      OctetsStayRight(was, buf);
      EchoOctets(was, buf);
      if clean {
        RightMeans(Now());
      }
    }
  }
}
