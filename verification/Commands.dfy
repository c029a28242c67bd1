/** The command language of the multi-session prompt (src/main.c). */
module Commands {
  import opened Text

  datatype Command =
    | Report                                 // prints something, changes nothing
    | Quit
    | Detach
    | Next
    | Prev
    | Use(id: Option<nat>)
    | AttachActive
    | AttachTo(id: Option<nat>)
    | Rename(id: Option<nat>, name: string)
    | Kill(id: Option<nat>)
    | Send(id: Option<nat>, payload: string)
    | All(payload: string)
    | Typed                                  // no command: text for the active session

  function SkipSpace(s: string): string {
    if |s| > 0 && (s[0] == ' ' || s[0] == '\t') then SkipSpace(s[1..]) else s
  }

  datatype IdArg = IdArg(id: Option<nat>, rest: string)

  /** `multi_parse_id_arg`: a positive number that fits an unsigned int. */
  function ParseIdArg(arg: string): (r: IdArg)
    ensures r.id.Some? ==> 0 < r.id.value < UINT_RANGE
  {
    var a := SkipSpace(arg);
    var n := DigitCount(a);
    var v := DigitsValue(a[..n]);
    if n == 0 || v == 0 || v >= UINT_RANGE then IdArg(None, "")
    else IdArg(Some(v), SkipSpace(a[n..]))
  }

  function After(s: string, n: nat): string {
    if n <= |s| then s[n..] else ""
  }

  function Parse(line: string): Command {
    if |line| == 0 || line[0] != ':' then Typed else ParseCommand(CString(TrimEol(line)), line)
  }

  /** `c` is the command text; `:all` takes its payload from the raw line. */
  function ParseCommand(c: string, line: string): Command {
    if c == ":help" || c == ":sessions" || c == ":s" then Report
    else if c == ":quit" || c == ":q" then Quit
    else if c == ":detach" then Detach
    else if c == ":next" || c == ":n" then Next
    else if c == ":prev" || c == ":p" then Prev
    else if c == ":clear" || c == ":c" then Report
    else if ":use " <= c then Use(ParseIdArg(After(c, 5)).id)
    else if ":u " <= c then Use(ParseIdArg(After(c, 3)).id)
    else if c == ":attach" then AttachActive
    else if ":attach " <= c then AttachTo(ParseIdArg(After(c, 8)).id)
    else if ":at " <= c then AttachTo(ParseIdArg(After(c, 4)).id)
    else if ":rename " <= c then var a := ParseIdArg(After(c, 8)); Rename(a.id, a.rest)
    else if ":kill " <= c then Kill(ParseIdArg(After(c, 6)).id)
    else if ":k " <= c then Kill(ParseIdArg(After(c, 3)).id)
    else if ":send " <= c then var a := ParseIdArg(After(c, 6)); Send(a.id, a.rest)
    else if ":all " <= c then All(After(line, 5))
    else if ":a " <= c then All(After(line, 3))
    else Report
  }

  predicate AllBlank(s: string) {
    forall i | 0 <= i < |s| :: s[i] == ' ' || s[i] == '\t'
  }

  lemma {:induction false} SkipsBlanks(blanks: string, rest: string)
    requires AllBlank(blanks)
    ensures SkipSpace(blanks + rest) == SkipSpace(rest)
  {
    if |blanks| == 0 {
      assert blanks + rest == rest;
    } else {
      SkipsBlanks(blanks[1..], rest);
      assert (blanks + rest)[1..] == blanks[1..] + rest;
    }
  }

  lemma {:induction false} SkipSpaceShape(s: string)
    ensures |SkipSpace(s)| <= |s|
    ensures var n := |s| - |SkipSpace(s)|; AllBlank(s[..n]) && s[n..] == SkipSpace(s)
  {
    if |s| > 0 && (s[0] == ' ' || s[0] == '\t') {
      SkipSpaceShape(s[1..]);
      var n := |s| - |SkipSpace(s)|;
      assert s[..n] == [s[0]] + s[1..][..n - 1];
    }
  }

  /** Blanks, digits, and something that is no digit. */
  predicate IsNumbered(blanks: string, digits: string, tail: string) {
    AllBlank(blanks) && |digits| > 0 && AllDigits(digits) && (|tail| > 0 ==> !IsDigit(tail[0]))
  }

  /** An argument of that shape is read as its number, unless it is 0 or does
      not fit. */
  lemma ReadsNumbered(blanks: string, digits: string, tail: string)
    requires IsNumbered(blanks, digits, tail)
    ensures ParseIdArg(blanks + (digits + tail)) ==
            var v := DigitsValue(digits);
            if 0 < v < UINT_RANGE then IdArg(Some(v), SkipSpace(tail)) else IdArg(None, "")
  {
    var a := digits + tail;
    SkipsBlanks(blanks, a);
    assert IsDigit(a[0]);
    DigitCountBefore(digits, tail);
    assert a[..|digits|] == digits && a[|digits|..] == tail;
  }

  /** Only an argument of that shape is accepted. */
  lemma AcceptsOnlyNumbered(arg: string) returns (blanks: string, digits: string, tail: string)
    requires ParseIdArg(arg).id.Some?
    ensures arg == blanks + (digits + tail) && IsNumbered(blanks, digits, tail)
    ensures ParseIdArg(arg) == IdArg(Some(DigitsValue(digits)), SkipSpace(tail))
  {
    SkipSpaceShape(arg);
    var a := SkipSpace(arg);
    var n := DigitCount(a);
    blanks, digits, tail := arg[..|arg| - |a|], a[..n], a[n..];
    DigitsStop(a);
    assert a == digits + tail;
  }

  lemma {:induction false} DigitsStop(s: string)
    ensures DigitCount(s) < |s| ==> !IsDigit(s[DigitCount(s)])
  {
    if |s| > 0 && IsDigit(s[0]) {
      DigitsStop(s[1..]);
    }
  }

  /** A number that fits is read back, with what follows it. */
  lemma ReadsId(n: nat, rest: string)
    requires 0 < n < UINT_RANGE && (|rest| > 0 ==> !IsDigit(rest[0]))
    ensures ParseIdArg(Decimal(n) + rest) == IdArg(Some(n), SkipSpace(rest))
  {
    DecimalRoundTrip(n);
    ReadsNumbered("", Decimal(n), rest);
    assert "" + (Decimal(n) + rest) == Decimal(n) + rest;
  }

  /** Text that a line can carry behind its verb. */
  predicate IsArgument(arg: string) {
    && |arg| > 0 && (forall i | 0 <= i < |arg| :: arg[i] != '\0')
    && arg[|arg| - 1] != '\n' && arg[|arg| - 1] != '\r'
  }

  /** A verb and its argument as typed: the line end goes, the rest stays. */
  lemma TypedCommand(verb: string, arg: string)
    requires |verb| > 0 && verb[0] == ':' && forall i | 0 <= i < |verb| :: verb[i] != '\0'
    requires IsArgument(arg)
    ensures Parse(verb + arg + "\n") == ParseCommand(verb + arg, verb + arg + "\n")
    ensures verb <= verb + arg && After(verb + arg, |verb|) == arg
  {
    var c := verb + arg;
    assert forall i | 0 <= i < |c| :: c[i] != '\0';
    assert (c + "\n")[..|c|] == c && c[|c| - 1] == arg[|arg| - 1];
    assert TrimEol(c) == c && TrimEol(c + "\n") == c;
    NoNulIsWhole(c);
    assert (c + "\n")[0] == ':' && c[|verb|..] == arg;
  }

  lemma NumberIsTyped(n: nat)
    requires 0 < n < UINT_RANGE
    ensures var d := Decimal(n);
            && IsArgument(d)
            && ParseIdArg(d) == IdArg(Some(n), "")
  {
    var d := Decimal(n);
    DecimalRoundTrip(n);
    assert IsDigit(d[|d| - 1]) && forall i | 0 <= i < |d| :: IsDigit(d[i]);
    ReadsId(n, "");
    assert d + "" == d;
  }

  /** The verb decides, whatever follows it. */
  lemma UseDecides(c: string, line: string)
    requires ":use " <= c
    ensures ParseCommand(c, line) == Use(ParseIdArg(After(c, 5)).id)
  {
    assert c[1] == 'u' && c[2] == 's';
  }

  lemma AttachDecides(c: string, line: string)
    requires ":attach " <= c
    ensures ParseCommand(c, line) == AttachTo(ParseIdArg(After(c, 8)).id)
  {
    assert c[1] == 'a' && |c| >= 8;
  }

  lemma KillDecides(c: string, line: string)
    requires ":kill " <= c
    ensures ParseCommand(c, line) == Kill(ParseIdArg(After(c, 6)).id)
  {
    assert c[1] == 'k' && c[2] == 'i';
  }

  lemma SendDecides(c: string, line: string)
    requires ":send " <= c
    ensures ParseCommand(c, line) == Send(ParseIdArg(After(c, 6)).id, ParseIdArg(After(c, 6)).rest)
  {
    assert c[1] == 's' && c[3] == 'n' && |c| >= 6;
  }

  lemma AllDecides(c: string, line: string)
    requires ":all " <= c
    ensures ParseCommand(c, line) == All(After(line, 5))
  {
    assert c[1] == 'a' && c[2] == 'l' && |c| >= 5;
  }

  /** Session numbers come through the commands that take one. */
  lemma ParsesUse(n: nat)
    requires 0 < n < UINT_RANGE
    ensures Parse(":use " + Decimal(n) + "\n") == Use(Some(n))
  {
    NumberIsTyped(n);
    TypedCommand(":use ", Decimal(n));
    UseDecides(":use " + Decimal(n), ":use " + Decimal(n) + "\n");
  }

  lemma ParsesAttach(n: nat)
    requires 0 < n < UINT_RANGE
    ensures Parse(":attach " + Decimal(n) + "\n") == AttachTo(Some(n))
  {
    NumberIsTyped(n);
    TypedCommand(":attach ", Decimal(n));
    AttachDecides(":attach " + Decimal(n), ":attach " + Decimal(n) + "\n");
  }

  lemma ParsesKill(n: nat)
    requires 0 < n < UINT_RANGE
    ensures Parse(":kill " + Decimal(n) + "\n") == Kill(Some(n))
  {
    NumberIsTyped(n);
    TypedCommand(":kill ", Decimal(n));
    KillDecides(":kill " + Decimal(n), ":kill " + Decimal(n) + "\n");
  }

  /** A number and a text after it. */
  lemma NumberAndText(n: nat, payload: string)
    requires 0 < n < UINT_RANGE && |payload| > 0 && payload[0] != ' ' && payload[0] != '\t'
    ensures ParseIdArg(Decimal(n) + (" " + payload)) == IdArg(Some(n), payload)
  {
    ReadsId(n, " " + payload);
    assert (" " + payload)[1..] == payload;
    assert SkipSpace(payload) == payload;
  }

  lemma NoNulJoin(a: string, b: string)
    requires forall i | 0 <= i < |a| :: a[i] != '\0'
    requires forall i | 0 <= i < |b| :: b[i] != '\0'
    ensures forall i | 0 <= i < |a + b| :: (a + b)[i] != '\0'
  {
  }

  lemma ParsesSendArg(arg: string)
    requires IsArgument(arg)
    ensures Parse(":send " + arg + "\n") == Send(ParseIdArg(arg).id, ParseIdArg(arg).rest)
  {
    TypedCommand(":send ", arg);
    SendDecides(":send " + arg, ":send " + arg + "\n");
  }

  /** `:send` hands on its payload as typed. */
  lemma ParsesSend(n: nat, payload: string)
    requires 0 < n < UINT_RANGE && IsArgument(payload) && payload[0] != ' ' && payload[0] != '\t'
    ensures Parse(":send " + (Decimal(n) + (" " + payload)) + "\n") == Send(Some(n), payload)
  {
    ArgumentAfter(n, payload);
    NumberAndText(n, payload);
    ParsesSendArg(Decimal(n) + (" " + payload));
  }

  lemma ArgumentAfter(n: nat, payload: string)
    requires 0 < n < UINT_RANGE && IsArgument(payload)
    ensures IsArgument(Decimal(n) + (" " + payload))
  {
    var text := " " + payload;
    var arg := Decimal(n) + text;
    NumberIsTyped(n);
    NoNulJoin(" ", payload);
    NoNulJoin(Decimal(n), text);
    assert arg[|arg| - 1] == text[|text| - 1] && text[|text| - 1] == payload[|payload| - 1];
  }

  /** `:all` takes the rest of the raw line, its line end included. */
  lemma ParsesAll(payload: string)
    requires IsArgument(payload)
    ensures Parse(":all " + payload + "\n") == All(payload + "\n")
  {
    TypedCommand(":all ", payload);
    AllDecides(":all " + payload, ":all " + payload + "\n");
    assert (":all " + payload + "\n")[5..] == payload + "\n";
  }

  // ----- every command, by its text -----

  predicate IsEols(s: string) {
    forall i | 0 <= i < |s| :: s[i] == '\n' || s[i] == '\r'
  }

  lemma {:induction false} TrimmedEols(c: string, eols: string)
    requires IsArgument(c) && IsEols(eols)
    ensures TrimEol(c + eols) == c
    decreases |eols|
  {
    if |eols| == 0 {
      assert c + eols == c;
    } else {
      var fewer := eols[..|eols| - 1];
      assert (c + eols)[..|c + eols| - 1] == c + fewer;
      TrimmedEols(c, fewer);
    }
  }

  /** A command and its line ends, whatever they are. */
  lemma CommandLine(c: string, eols: string)
    requires IsArgument(c) && c[0] == ':' && IsEols(eols)
    ensures Parse(c + eols) == ParseCommand(c, c + eols)
  {
    TrimmedEols(c, eols);
    NoNulIsWhole(c);
    assert (c + eols)[0] == ':';
  }

  // The commands that are one word, in their long and short forms.

  lemma ParsesQuit(eols: string)
    requires IsEols(eols)
    ensures Parse(":quit" + eols) == Parse(":q" + eols) == Quit
  {
    CommandLine(":quit", eols);
    CommandLine(":q", eols);
  }

  lemma ParsesNext(eols: string)
    requires IsEols(eols)
    ensures Parse(":next" + eols) == Parse(":n" + eols) == Next
  {
    CommandLine(":next", eols);
    CommandLine(":n", eols);
  }

  lemma ParsesPrev(eols: string)
    requires IsEols(eols)
    ensures Parse(":prev" + eols) == Parse(":p" + eols) == Prev
  {
    CommandLine(":prev", eols);
    CommandLine(":p", eols);
  }

  lemma ParsesDetach(eols: string)
    requires IsEols(eols)
    ensures Parse(":detach" + eols) == Detach
  {
    CommandLine(":detach", eols);
  }

  lemma ParsesAttachActive(eols: string)
    requires IsEols(eols)
    ensures Parse(":attach" + eols) == AttachActive
  {
    CommandLine(":attach", eols);
  }

  lemma RenameDecides(c: string, line: string)
    requires ":rename " <= c
    ensures ParseCommand(c, line) == Rename(ParseIdArg(After(c, 8)).id, ParseIdArg(After(c, 8)).rest)
  {
    assert c[1] == 'r' && |c| >= 8;
  }

  lemma ParsesRenameArg(arg: string)
    requires IsArgument(arg)
    ensures Parse(":rename " + arg + "\n") == Rename(ParseIdArg(arg).id, ParseIdArg(arg).rest)
  {
    TypedCommand(":rename ", arg);
    RenameDecides(":rename " + arg, ":rename " + arg + "\n");
  }

  /** `:rename` hands on its name as typed. */
  lemma ParsesRename(n: nat, name: string)
    requires 0 < n < UINT_RANGE && IsArgument(name) && name[0] != ' ' && name[0] != '\t'
    ensures Parse(":rename " + (Decimal(n) + (" " + name)) + "\n") == Rename(Some(n), name)
  {
    ArgumentAfter(n, name);
    NumberAndText(n, name);
    ParsesRenameArg(Decimal(n) + (" " + name));
  }

  lemma ShortDecides(c: string, line: string)
    ensures ":u " <= c ==> ParseCommand(c, line) == Use(ParseIdArg(After(c, 3)).id)
    ensures ":k " <= c ==> ParseCommand(c, line) == Kill(ParseIdArg(After(c, 3)).id)
  {
    if ":u " <= c {
      assert c[1] == 'u' && c[2] == ' ';
    }
    if ":k " <= c {
      assert c[1] == 'k' && c[2] == ' ';
    }
  }

  lemma ShorterDecides(c: string, line: string)
    ensures ":at " <= c ==> ParseCommand(c, line) == AttachTo(ParseIdArg(After(c, 4)).id)
    ensures ":a " <= c ==> ParseCommand(c, line) == All(After(line, 3))
  {
    if ":at " <= c {
      assert c[1] == 'a' && c[2] == 't' && c[3] == ' ';
    }
    if ":a " <= c {
      assert c[1] == 'a' && c[2] == ' ';
    }
  }

  /** What the commands with an argument make of it, in their long and short forms. */
  lemma ParsesUseArg(arg: string)
    requires IsArgument(arg)
    ensures Parse(":use " + arg + "\n") == Parse(":u " + arg + "\n") == Use(ParseIdArg(arg).id)
  {
    TypedCommand(":use ", arg);
    UseDecides(":use " + arg, ":use " + arg + "\n");
    TypedCommand(":u ", arg);
    ShortDecides(":u " + arg, ":u " + arg + "\n");
  }

  lemma ParsesKillArg(arg: string)
    requires IsArgument(arg)
    ensures Parse(":kill " + arg + "\n") == Parse(":k " + arg + "\n") == Kill(ParseIdArg(arg).id)
  {
    TypedCommand(":kill ", arg);
    KillDecides(":kill " + arg, ":kill " + arg + "\n");
    TypedCommand(":k ", arg);
    ShortDecides(":k " + arg, ":k " + arg + "\n");
  }

  lemma ParsesAttachArg(arg: string)
    requires IsArgument(arg)
    ensures Parse(":attach " + arg + "\n") == Parse(":at " + arg + "\n") == AttachTo(ParseIdArg(arg).id)
  {
    TypedCommand(":attach ", arg);
    AttachDecides(":attach " + arg, ":attach " + arg + "\n");
    TypedCommand(":at ", arg);
    ShorterDecides(":at " + arg, ":at " + arg + "\n");
  }

  lemma ParsesShortAll(payload: string)
    requires IsArgument(payload)
    ensures Parse(":a " + payload + "\n") == Parse(":all " + payload + "\n") == All(payload + "\n")
  {
    ParsesAll(payload);
    TypedCommand(":a ", payload);
    ShorterDecides(":a " + payload, ":a " + payload + "\n");
    assert (":a " + payload + "\n")[3..] == payload + "\n";
  }

  /** The words and verbs that do something. */
  predicate IsWord(c: string) {
    || c == ":quit" || c == ":q" || c == ":detach" || c == ":attach"
    || c == ":next" || c == ":n" || c == ":prev" || c == ":p"
  }

  predicate HasVerb(c: string) {
    || ":use " <= c || ":u " <= c || ":attach " <= c || ":at " <= c || ":rename " <= c
    || ":kill " <= c || ":k " <= c || ":send " <= c || ":all " <= c || ":a " <= c
  }

  /** Any other line with a colon only reports something, and a line without
      one is text. */
  lemma OthersReport(line: string)
    ensures |line| == 0 || line[0] != ':' ==> Parse(line) == Typed
    ensures var c := CString(TrimEol(line));
            |line| > 0 && line[0] == ':' && !IsWord(c) && !HasVerb(c) ==> Parse(line) == Report
  {
    OtherReports(CString(TrimEol(line)), line);
  }

  lemma OtherReports(c: string, line: string)
    ensures !IsWord(c) && !HasVerb(c) ==> ParseCommand(c, line) == Report
  {
  }
}
