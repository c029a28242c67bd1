/** Chat formatting (`format_chat_message` of src/broker.c) and the growing
    output buffer it fills. */
module Chat {
  import opened Text
  import opened Kernel

  const SIZE_MAX: nat := 0xFFFF_FFFF_FFFF_FFFF
  const READ_SIZE: nat := 4096
  const LABEL_MAX: nat := 19

  // ----- the formatter as a function of the whole stream -----

  function Label(id: nat): string {
    "<client" + Decimal(id) + "> "
  }

  function Shown(c: char): string {
    if c == '\n' || c == '\t' then [c]
    else if c == '\r' then "\\r"
    else if IsControl(c) then "\\x" + [HexDigit(c as int / 16), HexDigit(c as int % 16)]
    else [c]
  }

  datatype Formatted = Formatted(text: string, lineStart: bool)

  function Format(tag: string, lineStart: bool, s: string): Formatted {
    if |s| == 0 then Formatted("", lineStart)
    else
      Extend(tag, Format(tag, lineStart, s[..|s| - 1]), s[|s| - 1])
  }

  function Piece(tag: string, lineStart: bool, c: char): string {
    if lineStart then tag + Shown(c) else Shown(c)
  }

  function Extend(tag: string, f: Formatted, c: char): Formatted {
    Formatted(f.text + Piece(tag, f.lineStart, c), c == '\n')
  }

  lemma ExtendBehind(tag: string, front: string, f: Formatted, c: char)
    ensures Extend(tag, Formatted(front + f.text, f.lineStart), c).text == front + Extend(tag, f, c).text
  {
    var piece := Piece(tag, f.lineStart, c);
    assert (front + f.text) + piece == front + (f.text + piece);
  }

  /** Formatting in chunks, carrying `line_start`, is formatting the whole. */
  lemma {:induction false} FormatHomomorphism(tag: string, lineStart: bool, a: string, b: string)
    ensures var first := Format(tag, lineStart, a);
            var second := Format(tag, first.lineStart, b);
            Format(tag, lineStart, a + b) == Formatted(first.text + second.text, second.lineStart)
    decreases |b|
  {
    if |b| == 0 {
      assert a + b == a;
    } else {
      var shorter := b[..|b| - 1];
      FormatHomomorphism(tag, lineStart, a, shorter);
      assert (a + b)[..|a + b| - 1] == a + shorter;
      var first := Format(tag, lineStart, a);
      ExtendBehind(tag, first.text, Format(tag, first.lineStart, shorter), b[|b| - 1]);
    }
  }

  lemma FormatOne(tag: string, lineStart: bool, c: char)
    ensures Format(tag, lineStart, [c]) == Formatted(Piece(tag, lineStart, c), c == '\n')
  {
    assert [c][..0] == "";
    assert Format(tag, lineStart, "") == Formatted("", lineStart);
    assert "" + Piece(tag, lineStart, c) == Piece(tag, lineStart, c);
  }

  /** The first octet's piece comes first. */
  lemma FormatFirst(tag: string, lineStart: bool, c: char, rest: string)
    ensures Format(tag, lineStart, [c] + rest).text ==
            Piece(tag, lineStart, c) + Format(tag, c == '\n', rest).text
  {
    FormatHomomorphism(tag, lineStart, [c], rest);
    FormatOne(tag, lineStart, c);
  }

  // ----- what was typed arrives -----

  /** Text without control octets but tabs comes through unchanged. */
  lemma {:induction false} PlainTextPasses(tag: string, s: string)
    requires forall i | 0 <= i < |s| :: s[i] == '\t' || !IsControl(s[i])
    ensures Format(tag, false, s) == Formatted(s, false)
  {
    if |s| > 0 {
      PlainTextPasses(tag, s[..|s| - 1]);
      assert s == s[..|s| - 1] + [s[|s| - 1]];
    }
  }

  /** What a peer can read back from a chat stream: the label of each line goes,
      escapes of control octets are undone, and all else is as it is. */
  function ReadBack(lineStart: bool, t: string): string
    decreases |t|, 1
  {
    if |t| == 0 then ""
    else if lineStart then
      var blank := IndexOfChar(t, ' ');
      if blank == |t| then "" else ReadLine(t[blank + 1..])
    else ReadLine(t)
  }

  /** Within a line. */
  function ReadLine(t: string): string
    decreases |t|, 0
  {
    if |t| == 0 then ""
    else if t[0] == '\n' then ['\n'] + ReadBack(true, t[1..])
    else if t[0] != '\\' then [t[0]] + ReadLine(t[1..])
    else if |t| >= 2 && t[1] == 'r' then ['\r'] + ReadLine(t[2..])
    else if |t| >= 4 && t[1] == 'x' && HexValue(t[2]).Some? && HexValue(t[3]).Some? && HexValue(t[2]).value < 8 then
      [(16 * HexValue(t[2]).value + HexValue(t[3]).value) as char] + ReadLine(t[4..])
    else ""
  }

  /** One octet, shown, reads back as itself. */
  lemma ReadsShown(c: char, rest: string)
    requires c != '\\'
    ensures ReadLine(Shown(c) + rest) == [c] + (if c == '\n' then ReadBack(true, rest) else ReadLine(rest))
  {
    var t := Shown(c) + rest;
    assert t[|Shown(c)|..] == rest;
  }

  lemma SkipsLabel(id: nat, rest: string)
    ensures ReadBack(true, Label(id) + rest) == ReadLine(rest)
  {
    var tag := Label(id);
    DecimalRoundTrip(id);
    assert forall k | 0 <= k < |tag| - 1 :: tag[k] != ' ';
    IndexOfCharUnique(tag + rest, ' ', |tag| - 1);
    assert (tag + rest)[|tag|..] == rest;
  }

  /** The stream of a client reads back as what it typed, but for backslashes,
      which are not escaped. */
  lemma {:induction false} ChatReadsBack(id: nat, lineStart: bool, s: string)
    requires '\\' !in s
    ensures ReadBack(lineStart, Format(Label(id), lineStart, s).text) == s
    decreases |s|
  {
    if |s| > 0 {
      var c, rest := s[0], s[1..];
      var more := Format(Label(id), c == '\n', rest).text;
      assert s == [c] + rest;
      FormatFirst(Label(id), lineStart, c, rest);
      ChatReadsBack(id, c == '\n', rest);
      ReadsShown(c, more);
      if lineStart {
        Assoc(Label(id), Shown(c), more);
        SkipsLabel(id, Shown(c) + more);
      }
    }
  }

  /** With backslashes no reader can tell: two typed octets show as one escaped octet does. */
  lemma BackslashCollides(tag: string)
    ensures Format(tag, false, "\\r").text == Format(tag, false, "\r").text == "\\r"
  {
    FormatFirst(tag, false, '\\', "r");
    FormatOne(tag, false, 'r');
    FormatOne(tag, false, '\r');
    assert "\\r" == ['\\'] + "r" && "\r" == ['\r'];
  }

  /** For instance. */
  lemma ChatExample()
    ensures Format(Label(1), true, "hi\n").text == "<client1> hi\n"
  {
    FormatFirst(Label(1), true, 'h', "i\n");
    FormatFirst(Label(1), false, 'i', "\n");
    FormatOne(Label(1), false, '\n');
    assert "hi\n" == ['h'] + "i\n" && "i\n" == ['i'] + "\n";
    assert Decimal(1) == "1";
    assert Label(1) == "<client1> ";
  }

  /** Position `p` of the output opens a line. */
  predicate OpensLine(text: string, lineStart: bool, p: nat)
    requires p < |text|
  {
    if p == 0 then lineStart else text[p - 1] == '\n'
  }

  lemma {:induction false} LineStartTracksText(tag: string, lineStart: bool, s: string)
    requires '\n' !in tag
    ensures var f := Format(tag, lineStart, s);
            && |f.text| >= |s|
            && (|f.text| == 0 ==> f.lineStart == lineStart)
            && (|f.text| > 0 ==> (f.lineStart <==> f.text[|f.text| - 1] == '\n'))
  {
    if |s| > 0 {
      LineStartTracksText(tag, lineStart, s[..|s| - 1]);
    }
  }

  /** Only the last octet of a piece can be a newline. */
  lemma PieceEndsLine(tag: string, lineStart: bool, c: char, q: nat)
    requires '\n' !in tag
    requires q + 1 < |Piece(tag, lineStart, c)|
    ensures Piece(tag, lineStart, c)[q] != '\n'
  {
  }

  lemma PrefixStays(tag: string, text: string, more: string, p: nat)
    requires p <= |text| && tag <= text[p..]
    ensures tag <= (text + more)[p..]
  {
    assert (text + more)[p..] == text[p..] + more;
  }

  /** Every line of the output begins with the sender's label. */
  lemma {:induction false} EveryLineLabelled(tag: string, lineStart: bool, s: string, p: nat)
    requires '\n' !in tag
    requires p < |Format(tag, lineStart, s).text|
    requires OpensLine(Format(tag, lineStart, s).text, lineStart, p)
    ensures tag <= Format(tag, lineStart, s).text[p..]
  {
    var text := Format(tag, lineStart, s).text;
    var before := Format(tag, lineStart, s[..|s| - 1]);
    var piece := Piece(tag, before.lineStart, s[|s| - 1]);
    var n := |before.text|;
    assert text == before.text + piece;
    LineStartTracksText(tag, lineStart, s[..|s| - 1]);
    if p < n {
      EveryLineLabelled(tag, lineStart, s[..|s| - 1], p);
      PrefixStays(tag, before.text, piece, p);
    } else if p == n {
      assert text[p..] == piece;
    } else {
      PieceEndsLine(tag, before.lineStart, s[|s| - 1], p - 1 - n);
      assert false;
    }
  }

  lemma LabelDigits(i: nat, line: string)
    requires Label(i) <= line
    ensures |line| >= 9 + |Decimal(i)| && line[7 + |Decimal(i)|] == '>'
    ensures line[7..7 + |Decimal(i)|] == Decimal(i)
    ensures forall k | 7 <= k < 7 + |Decimal(i)| :: IsDigit(line[k])
  {
    DecimalRoundTrip(i);
    var tag := Label(i);
    assert tag[7..7 + |Decimal(i)|] == Decimal(i);
    assert tag[7 + |Decimal(i)|] == '>';
    assert line[..|tag|] == tag;
    assert line[..|tag|][7..7 + |Decimal(i)|] == line[7..7 + |Decimal(i)|];
    forall k | 7 <= k < 7 + |Decimal(i)|
      ensures IsDigit(line[k])
    {
      assert line[k] == Decimal(i)[k - 7];
    }
  }

  /** Two labels that open the same line are the same label: a line names one sender. */
  lemma LabelsAttribute(i: nat, j: nat, line: string)
    requires Label(i) <= line && Label(j) <= line
    ensures i == j
  {
    LabelDigits(i, line);
    LabelDigits(j, line);
    DecimalRoundTrip(i);
    DecimalRoundTrip(j);
    var m, n := |Decimal(i)|, |Decimal(j)|;
    assert m == n;
  }

  /** Terminal control bytes never reach a peer; tabs and newlines do. */
  lemma {:induction false} FormatHasNoControls(tag: string, lineStart: bool, s: string)
    requires forall c | c in tag :: !IsControl(c)
    ensures forall c | c in Format(tag, lineStart, s).text :: !IsControl(c) || c == '\t' || c == '\n'
  {
    if |s| > 0 {
      FormatHasNoControls(tag, lineStart, s[..|s| - 1]);
    }
  }

  function Newlines(s: string): nat {
    if |s| == 0 then 0 else Newlines(s[..|s| - 1]) + (if s[|s| - 1] == '\n' then 1 else 0)
  }

  lemma {:induction false} NewlinesConcat(a: string, b: string)
    ensures Newlines(a + b) == Newlines(a) + Newlines(b)
    decreases |b|
  {
    if |b| == 0 {
      assert a + b == a;
    } else {
      NewlinesConcat(a, b[..|b| - 1]);
      assert (a + b)[..|a + b| - 1] == a + b[..|b| - 1];
    }
  }

  lemma {:induction false} NoNewlines(s: string)
    requires '\n' !in s
    ensures Newlines(s) == 0
  {
    if |s| > 0 {
      NoNewlines(s[..|s| - 1]);
    }
  }

  lemma PieceNewlines(tag: string, lineStart: bool, c: char)
    requires '\n' !in tag
    ensures Newlines(Piece(tag, lineStart, c)) == if c == '\n' then 1 else 0
  {
    NoNewlines(tag);
    NewlinesConcat(tag, Shown(c));
    if c == '\n' {
      assert Shown(c)[..0] == "";
    } else {
      NoNewlines(Shown(c));
    }
  }

  /** The formatter neither joins nor splits lines. */
  lemma {:induction false} FormatKeepsNewlines(tag: string, lineStart: bool, s: string)
    requires '\n' !in tag
    ensures Newlines(Format(tag, lineStart, s).text) == Newlines(s)
  {
    if |s| > 0 {
      var before := Format(tag, lineStart, s[..|s| - 1]);
      FormatKeepsNewlines(tag, lineStart, s[..|s| - 1]);
      NewlinesConcat(before.text, Piece(tag, before.lineStart, s[|s| - 1]));
      PieceNewlines(tag, before.lineStart, s[|s| - 1]);
    }
  }

  /** Lines of `s` that get a label. */
  function StartedLines(lineStart: bool, s: string): nat {
    if |s| == 0 then 0
    else StartedLines(lineStart, s[..|s| - 1]) +
         (if (if |s| == 1 then lineStart else s[|s| - 2] == '\n') then 1 else 0)
  }

  lemma PieceLength(tag: string, lineStart: bool, c: char)
    ensures |Piece(tag, lineStart, c)| <= 4 + (if lineStart then |tag| else 0)
  {
  }

  lemma LineStartIsLast(tag: string, lineStart: bool, s: string)
    ensures Format(tag, lineStart, s).lineStart == if |s| == 0 then lineStart else s[|s| - 1] == '\n'
  {
  }

  lemma OneMoreLine(t: nat, n: nat)
    ensures t * (n + 1) == t * n + t
  {
  }

  lemma {:induction false} FormatLength(tag: string, lineStart: bool, s: string)
    ensures |Format(tag, lineStart, s).text| <= 4 * |s| + |tag| * StartedLines(lineStart, s)
    ensures StartedLines(lineStart, s) <= |s|
  {
    if |s| > 0 {
      var shorter, c := s[..|s| - 1], s[|s| - 1];
      var before := Format(tag, lineStart, shorter);
      FormatLength(tag, lineStart, shorter);
      LineStartIsLast(tag, lineStart, shorter);
      PieceLength(tag, before.lineStart, c);
      OneMoreLine(|tag|, StartedLines(lineStart, shorter));
      assert |Format(tag, lineStart, s).text| == |before.text| + |Piece(tag, before.lineStart, c)|;
    }
  }

  lemma LabelShape(id: nat)
    ensures forall c | c in Label(id) :: !IsControl(c)
    ensures '\n' !in Label(id)
    ensures id < UINT_RANGE ==> |Label(id)| <= LABEL_MAX
  {
    DecimalRoundTrip(id);
    if id < UINT_RANGE {
      assert Pow10(5) == 100_000;
      assert Pow10(10) == 10_000_000_000;
      DecimalLength(id, 10);
    }
  }

  lemma {:induction false} FormatFits(tag: string, lineStart: bool, s: string)
    requires |tag| <= LABEL_MAX
    ensures |Format(tag, lineStart, s).text| <= (4 + LABEL_MAX) * |s|
  {
    if |s| > 0 {
      FormatFits(tag, lineStart, s[..|s| - 1]);
    }
  }

  // ----- append_bytes -----

  /** The capacity-doubling loop: it ends, stays below `SIZE_MAX`, and at most
      doubles what is needed. */
  method NextCapacity(cap: nat, need: nat) returns (next: nat)
    requires cap < need <= SIZE_MAX
    ensures need <= next <= SIZE_MAX
    ensures next == 128 || next < 2 * need
  {
    next := if cap == 0 then 128 else cap;
    while next < need
      invariant 0 < next <= SIZE_MAX
      invariant next == 128 || next < 2 * need
      decreases need - next
    {
      if next > SIZE_MAX / 2 {
        next := need;
        break;
      }
      next := next * 2;
    }
  }

  class GrowBuffer {
    /** The allocation; its length is the capacity, 0 before the first one. */
    var out: array<char>
    var len: nat

    ghost predicate Valid()
      reads this
    {
      len <= out.Length <= SIZE_MAX
    }

    ghost function Contents(): string
      requires Valid()
      reads this, out
    {
      out[..len]
    }

    constructor ()
      ensures Valid() && fresh(out) && Contents() == ""
    {
      out := new char[0];
      len := 0;
    }

    method Append(kernel: Kernel, buf: string) returns (ok: bool)
      requires Valid() && |buf| <= SIZE_MAX
      modifies this, out, kernel`allocFailures
      ensures Valid() && (out == old(out) || fresh(out))
      ensures Contents() == old(Contents()) + if ok then buf else ""
      ensures ok ==> kernel.allocFailures == old(kernel.allocFailures)
      ensures !ok ==> old(len) + |buf| > SIZE_MAX || kernel.allocFailures > old(kernel.allocFailures)
    {
      if |buf| == 0 {
        return true;
      }
      if |buf| > SIZE_MAX - len {
        return false;
      }
      if len + |buf| > out.Length {
        var cap := NextCapacity(out.Length, len + |buf|);
        var granted := kernel.Allocate();
        if !granted {
          return false;
        }
        var next := new char[cap];
        MemCopy(next, 0, out[..len]);
        out := next;
      }
      MemCopy(out, len, buf);
      len := len + |buf|;
      return true;
    }
  }
}
