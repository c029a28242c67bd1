/** JSON logging of src/log.c: one object per event, one line per object
    (section 7 of RFC 8259 for strings). */
module JsonLog {
  import opened Text

  // ----- json_escape -----

  function EscapeChar(c: char): string {
    if c == '"' || c == '\\' then ['\\', c]
    else if c == '\n' then "\\n"
    else if c == '\r' then "\\r"
    else if c == '\t' then "\\t"
    else if IsControl(c) then ['\\', 'u', '0', '0', HexDigit(c as int / 16), HexDigit(c as int % 16)]
    else [c]
  }

  function Escape(s: string): string {
    if |s| == 0 then "" else EscapeChar(s[0]) + Escape(s[1..])
  }

  lemma EscapeFirst(c: char, rest: string)
    ensures Escape([c] + rest) == EscapeChar(c) + Escape(rest)
  {
    assert ([c] + rest)[1..] == rest;
  }

  lemma EscapeConcatFirst(c: char, rest: string, b: string)
    requires Escape(rest + b) == Escape(rest) + Escape(b)
    ensures Escape(([c] + rest) + b) == Escape([c] + rest) + Escape(b)
  {
    Assoc([c], rest, b);
    EscapeFirst(c, rest);
    EscapeFirst(c, rest + b);
    Assoc(EscapeChar(c), Escape(rest), Escape(b));
  }

  lemma {:induction false} EscapeConcat(a: string, b: string)
    ensures Escape(a + b) == Escape(a) + Escape(b)
  {
    if |a| == 0 {
      assert a + b == b;
    } else {
      var c, rest := a[0], a[1..];
      EscapeConcat(rest, b);
      EscapeConcatFirst(c, rest, b);
      assert a == [c] + rest;
    }
  }

  lemma EscapeOne(c: char)
    ensures Escape([c]) == EscapeChar(c)
  {
    assert [c][1..] == "";
    assert Escape("") == "";
  }

  lemma {:induction false} EscapeHasNoControls(s: string)
    ensures forall i | 0 <= i < |Escape(s)| :: !IsControl(Escape(s)[i])
  {
    if |s| > 0 {
      EscapeHasNoControls(s[1..]);
    }
  }

  // ----- a JSON string reader -----

  datatype Read<T> = Failed | Ok(value: T, rest: string)

  /** One character of a string body: an escape of RFC 8259, or a character
      that needs none. Four-digit escapes are read below U+0080 only. */
  function ReadChar(s: string): (r: Read<char>)
    ensures r.Ok? ==> |r.rest| < |s|
  {
    if |s| == 0 || s[0] == '"' || s[0] as int < 32 then Failed
    else if s[0] != '\\' then Ok(s[0], s[1..])
    else if |s| < 2 then Failed
    else if s[1] == '"' || s[1] == '\\' || s[1] == '/' then Ok(s[1], s[2..])
    else if s[1] == 'b' then Ok(8 as char, s[2..])
    else if s[1] == 'f' then Ok(12 as char, s[2..])
    else if s[1] == 'n' then Ok('\n', s[2..])
    else if s[1] == 'r' then Ok('\r', s[2..])
    else if s[1] == 't' then Ok('\t', s[2..])
    else if s[1] == 'u' && |s| >= 6 && s[2] == '0' && s[3] == '0' &&
            HexValue(s[4]).Some? && HexValue(s[5]).Some? && HexValue(s[4]).value < 8 then
      Ok((16 * HexValue(s[4]).value + HexValue(s[5]).value) as char, s[6..])
    else Failed
  }

  /** A string body up to its closing quote. */
  function ReadString(s: string): (r: Read<string>)
    ensures r.Ok? ==> |r.rest| < |s|
    decreases |s|
  {
    if |s| > 0 && s[0] == '"' then Ok("", s[1..])
    else
      var c := ReadChar(s);
      if c.Failed? then Failed
      else
        var more := ReadString(c.rest);
        if more.Failed? then Failed else Ok([c.value] + more.value, more.rest)
  }

  lemma ReadsEscapedChar(c: char, rest: string)
    ensures EscapeChar(c)[0] != '"'
    ensures ReadChar(EscapeChar(c) + rest) == Ok(c, rest)
  {
    var e := EscapeChar(c);
    assert (e + rest)[|e|..] == rest;
  }

  /** Escaped text in quotes reads back as the original, and the reader stops
      at the closing quote: the text holds no bare one. */
  lemma {:induction false} EscapeRoundTrip(s: string, rest: string)
    ensures ReadString(Escape(s) + ("\"" + rest)) == Ok(s, rest)
  {
    var whole := Escape(s) + ("\"" + rest);
    if |s| == 0 {
      assert whole == "\"" + rest;
      assert whole[1..] == rest;
    } else {
      var tail := Escape(s[1..]) + ("\"" + rest);
      Assoc(EscapeChar(s[0]), Escape(s[1..]), "\"" + rest);
      ReadsEscapedChar(s[0], tail);
      EscapeRoundTrip(s[1..], rest);
      assert [s[0]] + s[1..] == s;
    }
  }

  // ----- records -----

  datatype Level = Error | Warn | Info | Debug | Unknown

  function LevelName(l: Level): string {
    match l
    case Error => "error"
    case Warn => "warn"
    case Info => "info"
    case Debug => "debug"
    case Unknown => "unknown"
  }

  /** `%ld` */
  function Signed(n: int): string {
    if n < 0 then "-" + Decimal(-n) else Decimal(n)
  }

  datatype Event = Event(ts: int, level: Level, event: string, message: string)

  const MESSAGE_MAX: nat := 1023

  /** What fits the message buffer. */
  function CutMessage(message: string): (r: string)
    ensures r <= message && |r| == if |message| <= 1023 then |message| else 1023
  {
    if |message| < MESSAGE_MAX then message else message[..MESSAGE_MAX]
  }

  const OPEN: string := "{\"ts\":"
  const LEVEL: string := ",\"level\":\""
  const EVENT: string := "\",\"event\":\""
  const MESSAGE: string := "\",\"message\":\""
  const CLOSE: string := "\"}"

  function Body(e: Event): string {
    OPEN + (Signed(e.ts) + (LEVEL + (LevelName(e.level) + (EVENT + (Escape(e.event) +
    (MESSAGE + (Escape(e.message) + CLOSE)))))))
  }

  function Record(e: Event): string {
    Body(e) + "\n"
  }

  lemma EscapeIsOneLine(s: string)
    ensures NoNewline(Escape(s))
  {
    EscapeHasNoControls(s);
  }

  lemma SignedIsOneLine(n: int)
    ensures NoNewline(Signed(n))
  {
    DecimalRoundTrip(if n < 0 then -n else n);
  }

  /** A record has one newline, at its end. */
  lemma RecordIsOneLine(e: Event)
    ensures NoNewline(Body(e))
  {
    SignedIsOneLine(e.ts);
    EscapeIsOneLine(e.event);
    EscapeIsOneLine(e.message);
    var message := MESSAGE + (Escape(e.message) + CLOSE);
    JoinedLine(Escape(e.message), CLOSE);
    JoinedLine(MESSAGE, Escape(e.message) + CLOSE);
    JoinedLine(Escape(e.event), message);
    JoinedLine(EVENT, Escape(e.event) + message);
    JoinedLine(LevelName(e.level), EVENT + (Escape(e.event) + message));
    var level := LEVEL + (LevelName(e.level) + (EVENT + (Escape(e.event) + message)));
    JoinedLine(LEVEL, LevelName(e.level) + (EVENT + (Escape(e.event) + message)));
    JoinedLine(Signed(e.ts), level);
    JoinedLine(OPEN, Signed(e.ts) + level);
  }

  lemma JoinedLine(a: string, b: string)
    requires NoNewline(a) && NoNewline(b)
    ensures NoNewline(a + b)
  {
  }

  /** What follows `prefix` in `s`. */
  function Skip(prefix: string, s: string): Option<string> {
    if prefix <= s then Some(s[|prefix|..]) else None
  }

  lemma Skips(prefix: string, rest: string)
    ensures Skip(prefix, prefix + rest) == Some(rest)
  {
    assert (prefix + rest)[|prefix|..] == rest;
  }

  function ReadDigits(s: string): Read<nat> {
    var n := DigitCount(s);
    if n == 0 then Failed else Ok(DigitsValue(s[..n]), s[n..])
  }

  /** A number of RFC 8259 without fraction and exponent. */
  function ReadNumber(s: string): Read<int> {
    var minus := |s| > 0 && s[0] == '-';
    var n := ReadDigits(if minus then s[1..] else s);
    if n.Failed? then Failed
    else
      var v: int := n.value;
      Ok(if minus then -v else v, n.rest)
  }

  lemma ReadsDecimal(n: nat, rest: string)
    requires |rest| > 0 ==> !IsDigit(rest[0])
    ensures ReadDigits(Decimal(n) + rest) == Ok(n, rest) && IsDigit((Decimal(n) + rest)[0])
  {
    DecimalRoundTrip(n);
    var d := Decimal(n);
    DigitCountBefore(d, rest);
    assert (d + rest)[..|d|] == d && (d + rest)[|d|..] == rest;
  }

  lemma ReadsSigned(n: int, rest: string)
    requires |rest| > 0 ==> !IsDigit(rest[0])
    ensures ReadNumber(Signed(n) + rest) == Ok(n, rest)
  {
    ReadsDecimal(if n < 0 then -n else n, rest);
    if n < 0 {
      Assoc("-", Decimal(-n), rest);
      assert ("-" + (Decimal(-n) + rest))[1..] == Decimal(-n) + rest;
    }
  }

  function LevelOf(name: string): Option<Level> {
    if name == "error" then Some(Error)
    else if name == "warn" then Some(Warn)
    else if name == "info" then Some(Info)
    else if name == "debug" then Some(Debug)
    else if name == "unknown" then Some(Unknown)
    else None
  }

  // ----- a reader for one record -----

  function ReadMessage(s: string): Option<string> {
    var r := ReadString(s);
    if r.Ok? && r.rest == "}" then Some(r.value) else None
  }

  function ReadEvent(s: string): Option<(string, string)> {
    var r := ReadString(s);
    if r.Failed? then None
    else
      var m := Skip(",\"message\":\"", r.rest);
      if m.None? then None
      else
        var message := ReadMessage(m.value);
        if message.None? then None else Some((r.value, message.value))
  }

  function ReadLevel(s: string): Option<(Level, string)> {
    var r := ReadString(s);
    if r.Failed? || LevelOf(r.value).None? then None
    else
      var e := Skip(",\"event\":\"", r.rest);
      if e.None? then None else Some((LevelOf(r.value).value, e.value))
  }

  /** Reads the object a record holds. */
  function ReadBody(s: string): Option<Event> {
    var open := Skip(OPEN, s);
    if open.None? then None
    else
      var ts := ReadNumber(open.value);
      if ts.Failed? then None
      else
        var l := Skip(LEVEL, ts.rest);
        if l.None? then None
        else
          var level := ReadLevel(l.value);
          if level.None? then None
          else
            var e := ReadEvent(level.value.1);
            if e.None? then None else Some(Event(ts.value, level.value.0, e.value.0, e.value.1))
  }

  lemma ReadsMessage(message: string)
    ensures ReadMessage(Escape(message) + CLOSE) == Some(message)
  {
    EscapeRoundTrip(message, "}");
    assert CLOSE == "\"" + "}";
  }

  /** A string, its closing quote, and a key after it. */
  lemma ReadsUpTo(text: string, key: string, rest: string)
    ensures ReadString(Escape(text) + (("\"" + key) + rest)) == Ok(text, key + rest)
    ensures Skip(key, key + rest) == Some(rest)
  {
    Assoc("\"", key, rest);
    EscapeRoundTrip(text, key + rest);
    Skips(key, rest);
  }

  lemma ReadsEvent(event: string, message: string)
    ensures ReadEvent(Escape(event) + (MESSAGE + (Escape(message) + CLOSE))) == Some((event, message))
  {
    assert MESSAGE == "\"" + ",\"message\":\"";
    ReadsUpTo(event, ",\"message\":\"", Escape(message) + CLOSE);
    ReadsMessage(message);
  }

  lemma LevelIsPlain(l: Level)
    ensures Escape(LevelName(l)) == LevelName(l) && LevelOf(LevelName(l)) == Some(l)
  {
    var n := LevelName(l);
    PlainText(n);
  }

  lemma {:induction false} PlainText(s: string)
    requires forall i | 0 <= i < |s| :: 'a' <= s[i] <= 'z'
    ensures Escape(s) == s
  {
    if |s| > 0 {
      PlainText(s[1..]);
      assert s == [s[0]] + s[1..];
    }
  }

  lemma ReadsLevel(l: Level, rest: string)
    ensures ReadLevel(LevelName(l) + (EVENT + rest)) == Some((l, rest))
  {
    LevelIsPlain(l);
    assert EVENT == "\"" + ",\"event\":\"";
    ReadsUpTo(LevelName(l), ",\"event\":\"", rest);
  }

  /** A record reads back as the event it was written for, whatever octets the
      event and message hold. */
  lemma RecordRoundTrip(e: Event)
    ensures ReadBody(Body(e)) == Some(e)
  {
    var message := Escape(e.event) + (MESSAGE + (Escape(e.message) + CLOSE));
    var level := LevelName(e.level) + (EVENT + message);
    ReadsEvent(e.event, e.message);
    ReadsLevel(e.level, message);
    Skips(LEVEL, level);
    ReadsSigned(e.ts, LEVEL + level);
    Skips(OPEN, Signed(e.ts) + (LEVEL + level));
  }

  /** A record, spelled out, and each level by its name. */
  lemma RecordText(e: Event)
    ensures Record(e) ==
            "{\"ts\":" + (Signed(e.ts) + (",\"level\":\"" + (LevelName(e.level) + ("\",\"event\":\"" +
            (Escape(e.event) + ("\",\"message\":\"" + (Escape(e.message) + "\"}"))))))) + "\n"
    ensures LevelName(Error) == "error" && LevelName(Warn) == "warn" && LevelName(Info) == "info"
    ensures LevelName(Debug) == "debug" && LevelName(Unknown) == "unknown"
  {
  }

  // ----- a whole log -----

  function Records(es: seq<Event>): string {
    if |es| == 0 then "" else Records(es[..|es| - 1]) + Record(es[|es| - 1])
  }

  /** The complete lines of a log, each without its newline. */
  function Lines(s: string): seq<string> {
    var n := IndexOfChar(s, '\n');
    if n == |s| then [] else [s[..n]] + Lines(s[n + 1..])
  }

  lemma LineFirst(l: string, rest: string)
    requires NoNewline(l)
    ensures Lines(l + "\n" + rest) == [l] + Lines(rest)
  {
    var s := l + "\n" + rest;
    IndexOfCharUnique(s, '\n', |l|);
    assert s[..|l|] == l && s[|l| + 1..] == rest;
  }

  ghost function Bodies(es: seq<Event>): seq<string> {
    if |es| == 0 then [] else Bodies(es[..|es| - 1]) + [Body(es[|es| - 1])]
  }

  lemma {:induction false} BodiesAt(es: seq<Event>, i: nat)
    requires i < |es|
    ensures |Bodies(es)| == |es| && Bodies(es)[i] == Body(es[i])
  {
    var before := es[..|es| - 1];
    if |es| > 1 {
      BodiesAt(before, if i < |es| - 1 then i else 0);
      assert i < |es| - 1 ==> before[i] == es[i];
    } else {
      assert before == [];
    }
  }

  lemma {:induction false} LinesOfRecords(es: seq<Event>, rest: string)
    ensures Lines(Records(es) + rest) == Bodies(es) + Lines(rest)
  {
    if |es| == 0 {
      assert Records(es) + rest == rest;
    } else {
      var before, last := es[..|es| - 1], es[|es| - 1];
      RecordIsOneLine(last);
      LineFirst(Body(last), rest);
      LinesOfRecords(before, Record(last) + rest);
      Assoc(Records(before), Record(last), rest);
      Assoc(Bodies(before), [Body(last)], Lines(rest));
    }
  }

  lemma Chain(z: string, a: string, b: string, c: string, d: string,
              e: string, f: string, g: string, h: string, i: string)
    ensures z + a + b + c + d + e + f + g + h + i == z + (a + (b + (c + (d + (e + (f + (g + (h + i))))))))
  {
    Assoc(z + a + b + c + d + e + f + g, h, i);
    Assoc(z + a + b + c + d + e + f, g, h + i);
    Assoc(z + a + b + c + d + e, f, g + (h + i));
    Assoc(z + a + b + c + d, e, f + (g + (h + i)));
    Assoc(z + a + b + c, d, e + (f + (g + (h + i))));
    Assoc(z + a + b, c, d + (e + (f + (g + (h + i)))));
    Assoc(z + a, b, c + (d + (e + (f + (g + (h + i))))));
    Assoc(z, a, b + (c + (d + (e + (f + (g + (h + i)))))));
  }

  /** The module state of log.c. */
  class Logger {
    var json: bool
    var verbose: bool
    ghost var events: seq<Event>
    var stderr: string

    /** In JSON mode the log is the records of the events, in order. */
    ghost predicate Valid()
      reads this
    {
      json ==> stderr == Records(events)
    }

    constructor (json: bool, verbose: bool)
      ensures Valid() && this.json == json && this.verbose == verbose && stderr == "" && events == []
    {
      this.json, this.verbose := json, verbose;
      stderr, events := "", [];
    }

    /** `json_escape`: emits the string octet by octet, up to a NUL. */
    method EscapeTo(s: string)
      modifies this`stderr
      ensures stderr == old(stderr) + Escape(CString(s))
    {
      var rest := s;
      ghost var done := "";
      while |rest| > 0 && rest[0] != '\0'
        invariant CString(s) == done + CString(rest)
        invariant stderr == old(stderr) + Escape(done)
      {
        ghost var c := rest[0];
        Assoc(done, [c], CString(rest[1..]));
        EscapeConcat(done, [c]);
        EscapeOne(c);
        Assoc(old(stderr), Escape(done), EscapeChar(c));
        stderr := stderr + EscapeChar(rest[0]);
        rest := rest[1..];
        done := done + [c];
      }
      assert done + "" == done;
    }

    /** `wcat_log`: one record per event; debug events only when verbose. */
    method Log(now: int, level: Level, event: string, message: string)
      requires Valid()
      modifies this`stderr, this`events
      ensures Valid()
      ensures events == old(events) +
                        if level == Debug && !verbose then []
                        else [Event(now, level, CString(event), CString(CutMessage(message)))]
      ensures level == Debug && !verbose ==> stderr == old(stderr)
      ensures !json && (level != Debug || verbose) ==>
                stderr == old(stderr) + ("wcat: " + LevelName(level) + ": " + events[|events| - 1].message + "\n")
    {
      if level == Debug && !verbose {
        return;
      }
      var text := CutMessage(message);
      ghost var e := Event(now, level, CString(event), CString(text));
      events := events + [e];
      assert events[..|events| - 1] == old(events);
      if json {
        stderr := stderr + OPEN + Signed(now) + LEVEL + LevelName(level) + EVENT;
        EscapeTo(event);
        stderr := stderr + MESSAGE;
        EscapeTo(text);
        stderr := stderr + CLOSE + "\n";
        Chain(old(stderr), OPEN, Signed(now), LEVEL, LevelName(level),
              EVENT, Escape(e.event), MESSAGE, Escape(e.message), CLOSE);
        Assoc(old(stderr), Body(e), "\n");
      } else {
        stderr := stderr + ("wcat: " + LevelName(level) + ": " + CString(text) + "\n");
      }
    }

    /** Any run of the program in JSON mode: the log has one line per event,
        and line by line it reads back as the events. */
    lemma LogReadsBack()
      requires Valid() && json
      ensures |Lines(stderr)| == |events|
      ensures forall i | 0 <= i < |events| :: ReadBody(Lines(stderr)[i]) == Some(events[i])
    {
      LinesOfRecords(events, "");
      assert Records(events) + "" == Records(events);
      assert Lines(stderr) == Bodies(events);
      forall i | 0 <= i < |events|
        ensures |Lines(stderr)| == |events| && ReadBody(Lines(stderr)[i]) == Some(events[i])
      {
        BodiesAt(events, i);
        RecordRoundTrip(events[i]);
      }
    }
  }
}
