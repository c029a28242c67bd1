/** The interactive line editor of src/main.c: an escape-sequence automaton,
    a fixed buffer with a cursor, and a bounded history. */
module LineEditor {
  import opened Text

  const HISTORY_MAX: nat := 64

  // ----- the abstract editor: a zipper, a history and the lines handed on -----

  datatype Zipper = Zipper(left: string, right: string)

  datatype Key = Up | Down | Left | Right | Home | End | Enter | Erase | Insert(c: char)

  datatype Editor = Editor(zip: Zipper, history: seq<string>, pos: int, submitted: seq<string>)

  function Whole(z: Zipper): string {
    z.left + z.right
  }

  /** What the history keeps of a line: no line end, at most 8191 octets. */
  function Kept(line: string): string {
    var t := TrimEol(line);
    if |t| >= INPUT_MAX then t[..INPUT_MAX - 1] else t
  }

  /** Adds a line unless it is empty or repeats the last one. */
  function AddLine(lines: seq<string>, line: string): seq<string> {
    var x := Kept(line);
    if |x| == 0 || (|lines| > 0 && lines[|lines| - 1] == x) then lines else lines + [x]
  }

  /** The editor with the text of history entry `pos`, cursor at its end. */
  function Recall(e: Editor, pos: nat): Editor
    requires pos < |e.history|
  {
    e.(zip := Zipper(e.history[pos], ""), pos := pos)
  }

  predicate Sane(e: Editor) {
    -1 <= e.pos < |e.history| || (e.pos == -1 && |e.history| == 0)
  }

  function Submission(text: string): string {
    if |text| < INPUT_MAX then text + "\n" else text
  }

  function Press(e: Editor, k: Key): Editor
    requires Sane(e)
  {
    var l, r := e.zip.left, e.zip.right;
    match k
    case Left => if |l| == 0 then e else e.(zip := Zipper(l[..|l| - 1], [l[|l| - 1]] + r))
    case Right => if |r| == 0 then e else e.(zip := Zipper(l + [r[0]], r[1..]))
    case Home => e.(zip := Zipper("", l + r))
    case End => e.(zip := Zipper(l + r, ""))
    case Insert(c) => if |l| + |r| >= INPUT_MAX then e else e.(zip := Zipper(l + [c], r), pos := -1)
    case Erase => if |l| == 0 then e else e.(zip := Zipper(l[..|l| - 1], r), pos := -1)
    case Enter =>
      var line := Submission(l + r);
      Editor(Zipper("", ""), LastN(AddLine(e.history, line), HISTORY_MAX), -1, e.submitted + [line])
    case Up =>
      if |e.history| == 0 then e
      else if e.pos < 0 then Recall(e, |e.history| - 1)
      else Recall(e, if e.pos > 0 then e.pos - 1 else 0)
    case Down =>
      if |e.history| == 0 || e.pos < 0 then e
      else if e.pos + 1 < |e.history| then Recall(e, e.pos + 1)
      else e.(zip := Zipper("", ""), pos := -1)
  }

  function PressAll(e: Editor, keys: seq<Key>): (r: Editor)
    requires Sane(e)
    ensures Sane(r)
  {
    if |keys| == 0 then e else Press(PressAll(e, keys[..|keys| - 1]), keys[|keys| - 1])
  }

  lemma {:induction false} PressAllConcat(e: Editor, a: seq<Key>, b: seq<Key>)
    requires Sane(e)
    ensures PressAll(e, a + b) == PressAll(PressAll(e, a), b)
    decreases |b|
  {
    if |b| == 0 {
      assert a + b == a;
    } else {
      PressAllConcat(e, a, b[..|b| - 1]);
      assert (a + b)[..|a + b| - 1] == a + b[..|b| - 1];
    }
  }

  lemma OneKey(e: Editor, k: Key)
    requires Sane(e)
    ensures PressAll(e, [k]) == Press(e, k)
  {
    assert [k][..0] == [];
    assert PressAll(e, []) == e;
  }

  lemma OneMoreKey(e: Editor, keys: seq<Key>, k: Key)
    requires Sane(e)
    ensures PressAll(e, keys + [k]) == Press(PressAll(e, keys), k)
  {
    PressAllConcat(e, keys, [k]);
    OneKey(PressAll(e, keys), k);
  }

  // ----- the history is a fold of what was submitted -----

  /** All submitted lines that are not empty, consecutive repeats collapsed. */
  function Collapsed(submitted: seq<string>): seq<string> {
    if |submitted| == 0 then []
    else AddLine(Collapsed(submitted[..|submitted| - 1]), submitted[|submitted| - 1])
  }

  /** The lines that count: without their line ends, cut, and not empty. */
  function Heard(submitted: seq<string>): seq<string> {
    if |submitted| == 0 then []
    else
      var x := Kept(submitted[|submitted| - 1]);
      Heard(submitted[..|submitted| - 1]) + if |x| == 0 then [] else [x]
  }

  /** Every element that is not followed by its like. */
  function WithoutRepeats(xs: seq<string>): seq<string> {
    if |xs| <= 1 then xs
    else (if xs[0] == xs[1] then [] else [xs[0]]) + WithoutRepeats(xs[1..])
  }

  lemma {:induction false} WithoutRepeatsMore(xs: seq<string>, x: string)
    ensures WithoutRepeats(xs + [x]) ==
            if |xs| > 0 && xs[|xs| - 1] == x then WithoutRepeats(xs) else WithoutRepeats(xs) + [x]
    ensures |xs| > 0 ==> |WithoutRepeats(xs)| > 0 && WithoutRepeats(xs)[|WithoutRepeats(xs)| - 1] == xs[|xs| - 1]
  {
    if |xs| > 1 {
      WithoutRepeatsMore(xs[1..], x);
      assert (xs + [x])[1..] == xs[1..] + [x];
    } else if |xs| == 1 {
      assert (xs + [x])[1..] == [x];
    } else {
      assert xs + [x] == [x];
    }
  }

  /** The history is made of the lines that count, consecutive repeats taken once. */
  lemma {:induction false} CollapsedIs(submitted: seq<string>)
    ensures Collapsed(submitted) == WithoutRepeats(Heard(submitted))
  {
    if |submitted| > 0 {
      var before, line := submitted[..|submitted| - 1], submitted[|submitted| - 1];
      CollapsedIs(before);
      WithoutRepeatsMore(Heard(before), Kept(line));
      assert Heard(before) + [] == Heard(before);
      if |Heard(before)| == 0 {
        assert WithoutRepeats(Heard(before)) == [];
      }
    }
  }

  lemma {:induction false} TrimsEols(s: string, eols: string)
    requires |s| > 0 && s[|s| - 1] != '\n' && s[|s| - 1] != '\r'
    requires forall i | 0 <= i < |eols| :: eols[i] == '\n' || eols[i] == '\r'
    ensures TrimEol(s + eols) == s
    decreases |eols|
  {
    if |eols| == 0 {
      assert s + eols == s;
    } else {
      var before := eols[..|eols| - 1];
      assert (s + eols)[..|s + eols| - 1] == s + before;
      TrimsEols(s, before);
    }
  }

  /** What is kept of a line: all of it but its line ends, up to 8191 octets. */
  lemma KeptIs(s: string, eols: string)
    requires |s| > 0 && s[|s| - 1] != '\n' && s[|s| - 1] != '\r'
    requires forall i | 0 <= i < |eols| :: eols[i] == '\n' || eols[i] == '\r'
    ensures Kept(s + eols) == if |s| <= 8191 then s else s[..8191]
    ensures Kept(eols) == ""
  {
    TrimsEols(s, eols);
    OnlyEols(eols);
  }

  lemma {:induction false} OnlyEols(eols: string)
    requires forall i | 0 <= i < |eols| :: eols[i] == '\n' || eols[i] == '\r'
    ensures TrimEol(eols) == ""
  {
    if |eols| > 0 {
      OnlyEols(eols[..|eols| - 1]);
    }
  }

  predicate HistoryIsFold(e: Editor) {
    e.history == LastN(Collapsed(e.submitted), HISTORY_MAX)
  }

  lemma LastNAdd(lines: seq<string>, line: string, n: nat)
    requires n > 0
    ensures LastN(AddLine(LastN(lines, n), line), n) == LastN(AddLine(lines, line), n)
  {
    if |lines| > 0 {
      LastNLast(lines, n);
      LastNTwice(lines, [Kept(line)], n);
    }
  }

  lemma {:induction false} HistoryFold(e: Editor, keys: seq<Key>)
    requires Sane(e) && HistoryIsFold(e)
    ensures HistoryIsFold(PressAll(e, keys))
  {
    if |keys| > 0 {
      var k := keys[|keys| - 1];
      HistoryFold(e, keys[..|keys| - 1]);
      var f := PressAll(e, keys[..|keys| - 1]);
      if k == Enter {
        var line := Submission(Whole(f.zip));
        LastNAdd(Collapsed(f.submitted), line, HISTORY_MAX);
        assert (f.submitted + [line])[..|f.submitted|] == f.submitted;
      }
    }
  }

  /** Pressing Up `n` times from the edited line recalls the n-th latest entry,
      stopping at the oldest. */
  lemma {:induction false} UpRecalls(e: Editor, n: nat)
    requires Sane(e) && e.pos == -1 && 0 < n && |e.history| > 0
    ensures var at := if n <= |e.history| then |e.history| - n else 0;
            PressAll(e, seq(n, _ => Up)) == Recall(e, at)
  {
    var ups := seq(n, _ => Up);
    var fewer := seq(n - 1, _ => Up);
    assert ups[..n - 1] == fewer;
    if n > 1 {
      UpRecalls(e, n - 1);
    }
  }

  // ----- octets to keys -----

  datatype Esc = Plain | Escape | Bracket | Letter | Digit(d: char) | Skipping

  datatype Decoded = Decoded(keys: seq<Key>, esc: Esc)

  function Named(c: char): seq<Key> {
    if c == 'A' then [Up]
    else if c == 'B' then [Down]
    else if c == 'C' then [Right]
    else if c == 'D' then [Left]
    else if c == 'H' || c == 'h' then [Home]
    else if c == 'F' || c == 'f' then [End]
    else []
  }

  predicate IsTyped(c: char) {
    c == '\t' || 32 <= c as int < 127
  }

  function Decode(esc: Esc, c: char): Decoded {
    match esc
    case Plain =>
      if c as int == 27 then Decoded([], Escape)
      else if c == '\r' || c == '\n' then Decoded([Enter], Plain)
      else if c as int == 8 || c as int == 127 then Decoded([Erase], Plain)
      else if IsTyped(c) then Decoded([Insert(c)], Plain)
      else Decoded([], Plain)
    case Escape => Decoded([], if c == '[' then Bracket else if c == 'O' then Letter else Plain)
    case Bracket =>
      if IsDigit(c) then Decoded([], Digit(c))
      else Decoded(if c == 'h' || c == 'f' then [] else Named(c), Plain)
    case Letter => Decoded(if c == 'w' then [Home] else if c == 'q' then [End] else Named(c), Plain)
    case Digit(d) =>
      if c != '~' then Decoded([], Skipping)
      else Decoded(if d == '1' || d == '7' then [Home] else if d == '4' || d == '8' then [End] else [], Plain)
    case Skipping => Decoded([], if 'A' <= c <= 'Z' || c == '~' then Plain else Skipping)
  }

  lemma BracketKeys(c: char)
    ensures var letter := c == 'A' || c == 'B' || c == 'C' || c == 'D' || c == 'H' || c == 'F';
            Decode(Bracket, c) == Decoded(if letter then Named(c) else [], if IsDigit(c) then Digit(c) else Plain)
  {
  }

  function DecodeAll(esc: Esc, s: string): Decoded {
    if |s| == 0 then Decoded([], esc)
    else
      var before := DecodeAll(esc, s[..|s| - 1]);
      var last := Decode(before.esc, s[|s| - 1]);
      Decoded(before.keys + last.keys, last.esc)
  }

  lemma InsertAtEnd(e: Editor, s: string, c: char)
    requires Sane(e) && e.pos == -1 && |s| < INPUT_MAX
    ensures Press(e.(zip := Zipper(s, "")), Insert(c)) == e.(zip := Zipper(s + [c], ""))
  {
  }

  lemma DecodeOneMore(esc: Esc, s: string, c: char)
    ensures var before := DecodeAll(esc, s);
            var last := Decode(before.esc, c);
            DecodeAll(esc, s + [c]) == Decoded(before.keys + last.keys, last.esc)
  {
    assert (s + [c])[..|s|] == s;
  }

  /** Decoding may stop anywhere and resume in the state it reached. */
  lemma {:induction false} DecodeResumes(esc: Esc, a: string, b: string)
    ensures var first := DecodeAll(esc, a);
            var second := DecodeAll(first.esc, b);
            DecodeAll(esc, a + b) == Decoded(first.keys + second.keys, second.esc)
    decreases |b|
  {
    if |b| == 0 {
      assert a + b == a;
    } else {
      var before, c := b[..|b| - 1], b[|b| - 1];
      var first := DecodeAll(esc, a);
      var middle := DecodeAll(first.esc, before);
      DecodeResumes(esc, a, before);
      DecodeOneMore(esc, a + before, c);
      assert a + b == (a + before) + [c];
      Assoc(first.keys, middle.keys, Decode(middle.esc, c).keys);
    }
  }

  const START: Editor := Editor(Zipper("", ""), [], -1, [])

  /** The editor after a whole stream of octets. */
  function After(s: string): Editor {
    PressAll(START, DecodeAll(Plain, s).keys)
  }

  lemma AfterMore(s: string, more: string)
    ensures After(s + more) == PressAll(After(s), DecodeAll(DecodeAll(Plain, s).esc, more).keys)
    ensures DecodeAll(Plain, s + more).esc == DecodeAll(DecodeAll(Plain, s).esc, more).esc
  {
    DecodeResumes(Plain, s, more);
    PressAllConcat(START, DecodeAll(Plain, s).keys, DecodeAll(DecodeAll(Plain, s).esc, more).keys);
  }

  /** Whatever was typed, the history is that of the lines submitted. */
  lemma HistoryAfter(s: string)
    ensures HistoryIsFold(After(s))
  {
    assert LastN(Collapsed([]), HISTORY_MAX) == [];
    HistoryFold(START, DecodeAll(Plain, s).keys);
  }

  /** The editor and the escape state after a whole stream of octets. */
  ghost predicate Tracked(e: Editor, esc: Esc, seen: string) {
    e == After(seen) && esc == DecodeAll(Plain, seen).esc && HistoryIsFold(e)
  }

  lemma TrackedFromStart()
    ensures Tracked(START, Plain, "")
  {
    HistoryAfter("");
  }

  lemma TrackedMore(e: Editor, esc: Esc, seen: string, buf: string)
    requires Tracked(e, esc, seen)
    ensures Sane(e) && Tracked(PressAll(e, DecodeAll(esc, buf).keys), DecodeAll(esc, buf).esc, seen + buf)
  {
    AfterMore(seen, buf);
    HistoryAfter(seen + buf);
  }

  /** Typing has reached the text `s`, with nothing behind the cursor. */
  ghost predicate TypedSoFar(e: Editor, s: string)
    requires Sane(e)
  {
    DecodeAll(Plain, s).esc == Plain && PressAll(e, DecodeAll(Plain, s).keys) == e.(zip := Zipper(s, ""))
  }

  lemma TypedOneMore(e: Editor, s: string, c: char)
    requires Sane(e) && e.pos == -1 && |s| < INPUT_MAX && IsTyped(c) && TypedSoFar(e, s)
    ensures TypedSoFar(e, s + [c])
  {
    DecodeOneMore(Plain, s, c);
    assert Decode(Plain, c) == Decoded([Insert(c)], Plain);
    OneMoreKey(e, DecodeAll(Plain, s).keys, Insert(c));
    InsertAtEnd(e, s, c);
  }

  lemma {:induction false} TypedTextIsInserted(e: Editor, s: string)
    requires Sane(e) && e.pos == -1 && e.zip == Zipper("", "") && |s| <= INPUT_MAX
    requires forall i | 0 <= i < |s| :: IsTyped(s[i])
    ensures TypedSoFar(e, s)
  {
    if |s| > 0 {
      var before, c := s[..|s| - 1], s[|s| - 1];
      TypedTextIsInserted(e, before);
      TypedOneMore(e, before, c);
      assert s == before + [c];
    }
  }

  /** Typing a line into an empty editor and ending it hands on that line. */
  lemma TypedLineIsSubmitted(e: Editor, s: string, eol: char)
    requires Sane(e) && e.pos == -1 && e.zip == Zipper("", "") && |s| <= INPUT_MAX
    requires (forall i | 0 <= i < |s| :: IsTyped(s[i])) && (eol == '\r' || eol == '\n')
    ensures var f := PressAll(e, DecodeAll(Plain, s + [eol]).keys);
            f.submitted == e.submitted + [Submission(s)] && f.zip == Zipper("", "")
  {
    TypedTextIsInserted(e, s);
    DecodeOneMore(Plain, s, eol);
    assert Decode(Plain, eol) == Decoded([Enter], Plain);
    OneMoreKey(e, DecodeAll(Plain, s).keys, Enter);
    EnterAtEnd(e, s);
  }

  lemma EnterAtEnd(e: Editor, s: string)
    requires Sane(e)
    ensures var f := Press(e.(zip := Zipper(s, "")), Enter);
            f.submitted == e.submitted + [Submission(s)] && f.zip == Zipper("", "")
  {
    assert s + "" == s;
  }

  // ----- the editor as the program keeps it -----

  class InputLine {
    const input: array<char>
    var inputLen: nat
    var cursor: nat
    var escState: int
    var history: seq<string>
    var historyPos: int
    ghost var submitted: seq<string>
    /** Every octet read so far. */
    ghost var seen: string

    ghost predicate Valid()
      reads this
    {
      && input.Length == INPUT_MAX
      && cursor <= inputLen <= INPUT_MAX
      && -1 <= historyPos && (historyPos < |history| || historyPos == -1)
      && |history| <= HISTORY_MAX
      && (forall i | 0 <= i < |history| :: 0 < |history[i]| < INPUT_MAX)
      && (escState == 0 || escState == 1 || escState == 2 || escState == 3 || escState == 99 || 148 <= escState <= 157)
    }

    ghost function Abs(): Editor
      requires Valid()
      reads this, input
    {
      Editor(Zipper(input[..cursor], input[cursor..inputLen]), history, historyPos, submitted)
    }

    ghost function EscAbs(): Esc
      requires Valid()
      reads this
    {
      if escState == 0 then Plain
      else if escState == 1 then Escape
      else if escState == 2 then Bracket
      else if escState == 3 then Letter
      else if escState == 99 then Skipping
      else Digit((escState - 100) as char)
    }

    /** The editor is where the whole stream takes it, however it was cut into
        reads, and its history is that of the lines submitted. */
    ghost predicate Tracks()
      reads this, input
    {
      Valid() && Tracked(Abs(), EscAbs(), seen)
    }

    constructor ()
      ensures Tracks() && seen == "" && submitted == [] && fresh(input)
    {
      input := new char[INPUT_MAX];
      inputLen, cursor, escState, history, historyPos, submitted, seen := 0, 0, 0, [], -1, [], "";
      new;
      TrackedFromStart();
    }

    /** `multi_history_save`. */
    method HistorySave(line: string)
      requires |history| <= HISTORY_MAX && |line| <= INPUT_MAX
      requires forall i | 0 <= i < |history| :: 0 < |history[i]| < INPUT_MAX
      modifies this`history
      ensures history == LastN(AddLine(old(history), line), HISTORY_MAX)
      ensures |history| <= HISTORY_MAX && forall i | 0 <= i < |history| :: 0 < |history[i]| < INPUT_MAX
    {
      var len := |line|;
      assert line[..len] == line;
      while len > 0 && (line[len - 1] == '\n' || line[len - 1] == '\r')
        invariant len <= |line| && TrimEol(line) == TrimEol(line[..len])
      {
        assert line[..len][..len - 1] == line[..len - 1];
        len := len - 1;
      }
      if len == 0 {
        return;
      }
      if len >= INPUT_MAX {
        assert line[..len][..INPUT_MAX - 1] == line[..INPUT_MAX - 1];
        len := INPUT_MAX - 1;
      }
      assert Kept(line) == line[..len];
      if |history| > 0 && history[|history| - 1] == line[..len] {
        return;
      }
      if |history| == HISTORY_MAX {
        history := history[1..];
      }
      history := history + [line[..len]];
    }

    method LoadEntry()
      requires Valid() && 0 <= historyPos
      modifies this`inputLen, this`cursor, input
      ensures Valid() && Abs() == Recall(old(Abs()), historyPos)
    {
      var entry := history[historyPos];
      inputLen := |entry|;
      MemCopy(input, 0, entry);
      cursor := inputLen;
    }

    /** `multi_history_load`: -1 goes back, 1 forward. */
    method HistoryLoad(back: bool)
      requires Valid()
      modifies this`inputLen, this`cursor, this`historyPos, input
      ensures Valid() && Abs() == Press(old(Abs()), if back then Up else Down)
    {
      if |history| == 0 {
        return;
      }
      if back {
        if historyPos < 0 {
          historyPos := |history| - 1;
        } else if historyPos > 0 {
          historyPos := historyPos - 1;
        }
      } else {
        if historyPos < 0 {
          return;
        }
        if historyPos + 1 < |history| {
          historyPos := historyPos + 1;
        } else {
          historyPos, inputLen, cursor := -1, 0, 0;
          return;
        }
      }
      LoadEntry();
    }

    /** `multi_handle_input_key`. */
    method HandleKey(key: char)
      requires Valid()
      modifies this`inputLen, this`cursor, this`historyPos, input
      ensures Valid() && Abs() == PressAll(old(Abs()), Named(key))
    {
      OneKey(Abs(), Up);
      OneKey(Abs(), Down);
      OneKey(Abs(), Left);
      OneKey(Abs(), Right);
      OneKey(Abs(), Home);
      OneKey(Abs(), End);
      match key
      case 'A' => HistoryLoad(true);
      case 'B' => HistoryLoad(false);
      case 'D' => MoveLeft();
      case 'C' => MoveRight();
      case 'H' => MoveHome();
      case 'h' => MoveHome();
      case 'F' => MoveEnd();
      case 'f' => MoveEnd();
      case _ =>
    }

    method MoveLeft()
      requires Valid()
      modifies this`cursor
      ensures Valid() && Abs() == Press(old(Abs()), Left)
    {
      if cursor > 0 {
        cursor := cursor - 1;
        assert input[cursor..inputLen] == [input[cursor]] + input[cursor + 1..inputLen];
        assert input[..cursor] == old(input[..cursor])[..cursor];
      }
    }

    method MoveRight()
      requires Valid()
      modifies this`cursor
      ensures Valid() && Abs() == Press(old(Abs()), Right)
    {
      if cursor < inputLen {
        cursor := cursor + 1;
        assert input[..cursor] == input[..cursor - 1] + [input[cursor - 1]];
        assert input[cursor..inputLen] == old(input[cursor..inputLen])[1..];
      }
    }

    method MoveHome()
      requires Valid()
      modifies this`cursor
      ensures Valid() && Abs() == Press(old(Abs()), Home)
    {
      assert input[..inputLen] == input[..cursor] + input[cursor..inputLen];
      cursor := 0;
      assert input[0..inputLen] == input[..inputLen];
    }

    method MoveEnd()
      requires Valid()
      modifies this`cursor
      ensures Valid() && Abs() == Press(old(Abs()), End)
    {
      assert input[..inputLen] == input[..cursor] + input[cursor..inputLen];
      cursor := inputLen;
    }

    method InsertChar(c: char)
      requires Valid()
      modifies this`inputLen, this`cursor, this`historyPos, input
      ensures Valid() && Abs() == Press(old(Abs()), Insert(c))
    {
      if inputLen < INPUT_MAX {
        MemMove(input, cursor + 1, cursor, inputLen - cursor);
        input[cursor] := c;
        inputLen := inputLen + 1;
        cursor := cursor + 1;
        historyPos := -1;
        assert input[..cursor] == old(input[..cursor]) + [c];
        assert input[cursor..inputLen] == old(input[cursor..inputLen]);
      }
    }

    method EraseChar()
      requires Valid()
      modifies this`inputLen, this`cursor, this`historyPos, input
      ensures Valid() && Abs() == Press(old(Abs()), Erase)
    {
      if cursor > 0 {
        MemMove(input, cursor - 1, cursor, inputLen - cursor);
        inputLen := inputLen - 1;
        cursor := cursor - 1;
        historyPos := -1;
        assert input[..cursor] == old(input[..cursor])[..cursor];
        assert input[cursor..inputLen] == old(input[cursor..inputLen]);
      }
    }

    /** The line end: saves the line and hands it on. */
    method Submit() returns (line: string)
      requires Valid()
      modifies this`inputLen, this`cursor, this`historyPos, this`history, this`submitted, input
      ensures Valid() && Abs() == Press(old(Abs()), Enter)
      ensures submitted == old(submitted) + [line]
    {
      assert input[..inputLen] == input[..cursor] + input[cursor..inputLen];
      ghost var text := input[..inputLen];
      if inputLen < INPUT_MAX {
        input[inputLen] := '\n';
        inputLen := inputLen + 1;
      }
      assert input[..inputLen] == Submission(text);
      HistorySave(input[..inputLen]);
      historyPos := -1;
      line := input[..inputLen];
      submitted := submitted + [line];
      inputLen, cursor := 0, 0;
    }

    method HandlePlain(c: char) returns (line: Option<string>)
      requires Valid() && escState == 0
      modifies this`inputLen, this`cursor, this`historyPos, this`escState, this`history, this`submitted, input
      ensures Valid() && EscAbs() == Decode(Plain, c).esc
      ensures Abs() == PressAll(old(Abs()), Decode(Plain, c).keys)
      ensures submitted == old(submitted) + if line.Some? then [line.value] else []
    {
      OneKey(Abs(), Enter);
      OneKey(Abs(), Erase);
      OneKey(Abs(), Insert(c));
      line := None;
      if c as int == 27 {
        escState := 1;
      } else if c == '\r' || c == '\n' {
        var text := Submit();
        line := Some(text);
      } else if c as int == 8 || c as int == 127 {
        EraseChar();
      } else if IsTyped(c) {
        InsertChar(c);
      }
    }

    /** After `ESC [`. */
    method HandleBracket(c: char)
      requires Valid() && escState == 2
      modifies this`inputLen, this`cursor, this`historyPos, this`escState, input
      ensures Valid() && EscAbs() == Decode(Bracket, c).esc
      ensures Abs() == PressAll(old(Abs()), Decode(Bracket, c).keys)
    {
      BracketKeys(c);
      if c == 'A' || c == 'B' || c == 'C' || c == 'D' || c == 'H' || c == 'F' {
        HandleKey(c);
        escState := 0;
      } else if '0' <= c <= '9' {
        escState := 100 + c as int;
      } else {
        escState := 0;
      }
    }

    /** After `ESC [` and a digit. */
    method HandleDigit(c: char)
      requires Valid() && escState >= 100
      modifies this`inputLen, this`cursor, this`historyPos, this`escState, input
      ensures Valid() && EscAbs() == Decode(old(EscAbs()), c).esc
      ensures Abs() == PressAll(old(Abs()), Decode(old(EscAbs()), c).keys)
    {
      var digit := escState - 100;
      if c == '~' {
        if digit == '1' as int || digit == '7' as int {
          HandleKey('H');
        } else if digit == '4' as int || digit == '8' as int {
          HandleKey('F');
        }
      }
      escState := if c == '~' then 0 else 99;
    }

    method HandleEscape(c: char)
      requires Valid() && escState != 0
      modifies this`inputLen, this`cursor, this`historyPos, this`escState, input
      ensures Valid() && EscAbs() == Decode(old(EscAbs()), c).esc
      ensures Abs() == PressAll(old(Abs()), Decode(old(EscAbs()), c).keys)
    {
      if escState == 1 {
        escState := if c == '[' then 2 else if c == 'O' then 3 else 0;
      } else if escState == 2 {
        HandleBracket(c);
      } else if escState == 3 {
        HandleKey(if c == 'w' then 'H' else if c == 'q' then 'F' else c);
        escState := 0;
      } else if escState >= 100 {
        HandleDigit(c);
      } else if 'A' <= c <= 'Z' || c == '~' {
        escState := 0;
      }
    }

    /** One octet; `line` is what it hands on. */
    method HandleByte(c: char) returns (line: Option<string>)
      requires Valid()
      modifies this`inputLen, this`cursor, this`historyPos, this`escState, this`history, this`submitted, input
      ensures Valid()
      ensures EscAbs() == Decode(old(EscAbs()), c).esc
      ensures Abs() == PressAll(old(Abs()), Decode(old(EscAbs()), c).keys)
      ensures submitted == old(submitted) + if line.Some? then [line.value] else []
    {
      if escState == 0 {
        line := HandlePlain(c);
      } else {
        HandleEscape(c);
        line := None;
      }
    }

    /** The state in the middle of a read that began in `e` and `esc`: its
        first `i` octets were handled. */
    ghost predicate Reading(buf: string, i: nat, e: Editor, esc: Esc)
      requires i <= |buf| && Sane(e)
      reads this, input
    {
      && Valid()
      && EscAbs() == DecodeAll(esc, buf[..i]).esc
      && Abs() == PressAll(e, DecodeAll(esc, buf[..i]).keys)
    }

    method ReadNext(buf: string, i: nat, ghost e: Editor, ghost esc: Esc) returns (line: Option<string>)
      requires i < |buf| && Sane(e) && Reading(buf, i, e, esc)
      modifies this`inputLen, this`cursor, this`historyPos, this`escState, this`history, this`submitted, input
      ensures Reading(buf, i + 1, e, esc)
      ensures submitted == old(submitted) + if line.Some? then [line.value] else []
    {
      ghost var before := DecodeAll(esc, buf[..i]);
      DecodeOneMore(esc, buf[..i], buf[i]);
      assert buf[..i + 1] == buf[..i] + [buf[i]];
      PressAllConcat(e, before.keys, Decode(before.esc, buf[i]).keys);
      line := HandleByte(buf[i]);
    }

    method ReadAll(buf: string, ghost e: Editor, ghost esc: Esc) returns (lines: seq<string>)
      requires Sane(e) && Reading(buf, 0, e, esc)
      modifies this`inputLen, this`cursor, this`historyPos, this`escState, this`history, this`submitted, input
      ensures Reading(buf, |buf|, e, esc) && submitted == old(submitted) + lines
    {
      lines := [];
      for i := 0 to |buf|
        invariant Reading(buf, i, e, esc)
        invariant submitted == old(submitted) + lines
      {
        var line := ReadNext(buf, i, e, esc);
        if line.Some? {
          Assoc(old(submitted), lines, [line.value]);
          lines := lines + [line.value];
        }
      }
    }

    /** The octets of one read, from any state. */
    method HandleOctets(buf: string) returns (lines: seq<string>)
      requires Valid()
      modifies this`inputLen, this`cursor, this`historyPos, this`escState, this`history, this`submitted, input
      ensures Valid() && submitted == old(submitted) + lines
      ensures EscAbs() == DecodeAll(old(EscAbs()), buf).esc
      ensures Abs() == PressAll(old(Abs()), DecodeAll(old(EscAbs()), buf).keys)
    {
      assert buf[..0] == "" && buf[..|buf|] == buf;
      lines := ReadAll(buf, Abs(), EscAbs());
    }

    /** A read from the terminal: whatever the octets and however they are cut
        into reads, the buffer, cursor and history are those of the abstract
        editor after the whole stream, and `lines` are those it now hands on. */
    method HandleStdin(buf: string) returns (lines: seq<string>)
      requires Tracks()
      modifies this, input
      ensures Tracks() && seen == old(seen) + buf
      ensures submitted == old(submitted) + lines
    {
      TrackedMore(Abs(), EscAbs(), seen, buf);
      lines := HandleOctets(buf);
      seen := seen + buf;
    }
  }
}
