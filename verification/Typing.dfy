/** What typing at the multi-session prompt does, from the octets typed to the
    lines handed on: the laws of the editor of src/main.c, key by key. */
module Typing {
  import opened Text
  import opened LineEditor

  // ----- octets in, editor out -----

  function Reach(e: Editor, s: string): (r: Editor)
    requires Sane(e)
    ensures Sane(r)
  {
    PressAll(e, DecodeAll(Plain, s).keys)
  }

  /** No escape sequence is left open. */
  predicate Settled(s: string) {
    DecodeAll(Plain, s).esc == Plain
  }

  lemma ReachMore(e: Editor, a: string, b: string)
    requires Sane(e) && Settled(a)
    ensures Reach(e, a + b) == Reach(Reach(e, a), b)
    ensures Settled(a + b) == Settled(b)
  {
    DecodeResumes(Plain, a, b);
    PressAllConcat(e, DecodeAll(Plain, a).keys, DecodeAll(Plain, b).keys);
  }

  /** The octets of one key. */
  predicate Spells(s: string, k: Key) {
    DecodeAll(Plain, s) == Decoded([k], Plain)
  }

  /** The octets `s` take the editor from `e` to `f`. The quantifier keeps the
      definition of `Reach` out of proofs that only chain such steps. */
  ghost predicate Goes(e: Editor, s: string, f: Editor)
    requires Sane(e)
  {
    forall t | t == s :: Reach(e, t) == f && Settled(t)
  }

  lemma ThenGoes(e: Editor, s: string, f: Editor, t: string, g: Editor)
    requires Sane(e) && Goes(e, s, f) && Sane(f) && Goes(f, t, g)
    ensures Goes(e, s + t, g)
  {
    assert Reach(e, s) == f && Reach(f, t) == g;
    ReachMore(e, s, t);
  }

  lemma StaysPut(e: Editor)
    requires Sane(e)
    ensures Goes(e, "", e)
  {
  }

  lemma ReachKey(e: Editor, s: string, k: Key)
    requires Sane(e) && Spells(s, k)
    ensures Goes(e, s, Press(e, k))
  {
    OneKey(e, k);
  }

  function Times(s: string, n: nat): string {
    if n == 0 then "" else Times(s, n - 1) + s
  }

  /** The editor on the way: `l` before the cursor and `r` behind it. */
  function At(e: Editor, l: string, r: string): Editor {
    e.(zip := Zipper(l, r), pos := -1)
  }

  /** Nothing typed yet. */
  predicate Ready(e: Editor) {
    Sane(e) && e.pos == -1 && e.zip == Zipper("", "")
  }

  predicate IsTypedText(s: string) {
    forall i | 0 <= i < |s| :: IsTyped(s[i])
  }

  /** From `e`, the octets `s` hand on exactly `line`, and the editor is ready again. */
  predicate HandsOn(e: Editor, s: string, line: string)
    requires Sane(e)
  {
    var f := Reach(e, s);
    f.submitted == e.submitted + [line] && Ready(f) && Settled(s)
  }

  // ----- how the keys are spelled -----

  const ESC: char := 27 as char
  const LEFT: seq<string> := [[ESC, '[', 'D'], [ESC, 'O', 'D']]
  const RIGHT: seq<string> := [[ESC, '[', 'C'], [ESC, 'O', 'C']]
  const UP: seq<string> := [[ESC, '[', 'A'], [ESC, 'O', 'A']]
  const DOWN: seq<string> := [[ESC, '[', 'B'], [ESC, 'O', 'B']]
  const HOME: seq<string> := [[ESC, '[', 'H'], [ESC, 'O', 'H'], [ESC, 'O', 'h'], [ESC, 'O', 'w'],
                              [ESC, '[', '1', '~'], [ESC, '[', '7', '~']]
  const END: seq<string> := [[ESC, '[', 'F'], [ESC, 'O', 'F'], [ESC, 'O', 'f'], [ESC, 'O', 'q'],
                             [ESC, '[', '4', '~'], [ESC, '[', '8', '~']]
  const ERASE: seq<string> := [[8 as char], [127 as char]]
  const ENTER: seq<string> := ["\r", "\n"]

  lemma DecodeOne(a: char)
    ensures DecodeAll(Plain, [a]) == Decode(Plain, a)
  {
    DecodeOneMore(Plain, "", a);
    assert "" + [a] == [a];
    assert [] + Decode(Plain, a).keys == Decode(Plain, a).keys;
  }

  lemma DecodeThree(b: char, c: char)
    ensures var second := Decode(Escape, b);
            var third := Decode(second.esc, c);
            DecodeAll(Plain, [ESC, b, c]) == Decoded(second.keys + third.keys, third.esc)
  {
    DecodeOne(ESC);
    DecodeOneMore(Plain, [ESC], b);
    DecodeOneMore(Plain, [ESC, b], c);
    assert [ESC] + [b] == [ESC, b] && [ESC, b] + [c] == [ESC, b, c];
    assert [] + Decode(Escape, b).keys == Decode(Escape, b).keys;
  }

  lemma DecodeFour(b: char, c: char, d: char)
    ensures var three := DecodeAll(Plain, [ESC, b, c]);
            var fourth := Decode(three.esc, d);
            DecodeAll(Plain, [ESC, b, c, d]) == Decoded(three.keys + fourth.keys, fourth.esc)
  {
    DecodeOneMore(Plain, [ESC, b, c], d);
    assert [ESC, b, c] + [d] == [ESC, b, c, d];
  }

  lemma ArrowsSpelled(i: nat)
    requires i < 2
    ensures Spells(LEFT[i], Left) && Spells(RIGHT[i], Right) && Spells(UP[i], Up) && Spells(DOWN[i], Down)
  {
    var b := if i == 0 then '[' else 'O';
    DecodeThree(b, 'A');
    DecodeThree(b, 'B');
    DecodeThree(b, 'C');
    DecodeThree(b, 'D');
  }

  lemma HomeSpelled(i: nat)
    requires i < |HOME|
    ensures Spells(HOME[i], Home)
  {
    if i == 0 {
      DecodeThree('[', 'H');
    } else if i < 4 {
      LetterSpelled(if i == 1 then 'H' else if i == 2 then 'h' else 'w');
    } else {
      TildeSpelled(if i == 4 then '1' else '7');
    }
  }

  lemma EndSpelled(i: nat)
    requires i < |END|
    ensures Spells(END[i], End)
  {
    if i == 0 {
      DecodeThree('[', 'F');
    } else if i < 4 {
      LetterSpelled(if i == 1 then 'F' else if i == 2 then 'f' else 'q');
    } else {
      TildeSpelled(if i == 4 then '4' else '8');
    }
  }

  lemma LetterSpelled(c: char)
    requires c == 'H' || c == 'h' || c == 'w' || c == 'F' || c == 'f' || c == 'q'
    ensures Spells([ESC, 'O', c], if c == 'H' || c == 'h' || c == 'w' then Home else End)
  {
    DecodeThree('O', c);
  }

  lemma TildeSpelled(d: char)
    requires d == '1' || d == '7' || d == '4' || d == '8'
    ensures Spells([ESC, '[', d, '~'], if d == '1' || d == '7' then Home else End)
  {
    DecodeThree('[', d);
    DecodeFour('[', d, '~');
  }

  lemma OneOctetSpelled()
    ensures forall i | 0 <= i < 2 :: Spells(ERASE[i], Erase) && Spells(ENTER[i], Enter)
    ensures forall c | IsTyped(c) :: Spells([c], Insert(c))
  {
    DecodeOne(8 as char);
    DecodeOne(127 as char);
    DecodeOne('\r');
    DecodeOne('\n');
    forall c | IsTyped(c)
      ensures Spells([c], Insert(c))
    {
      DecodeOne(c);
    }
  }

  // ----- what one key does -----

  lemma StepLeft(e: Editor, left: string, a: string, c: char, d: string)
    requires Sane(At(e, a + [c], d)) && left in LEFT
    ensures Goes(At(e, a + [c], d), left, At(e, a, [c] + d))
  {
    var i :| 0 <= i < 2 && LEFT[i] == left;
    ArrowsSpelled(i);
    ReachKey(At(e, a + [c], d), left, Left);
    assert (a + [c])[..|a|] == a;
  }

  lemma StepRight(e: Editor, right: string, a: string, c: char, d: string)
    requires Sane(At(e, a, [c] + d)) && right in RIGHT
    ensures Goes(At(e, a, [c] + d), right, At(e, a + [c], d))
  {
    var i :| 0 <= i < 2 && RIGHT[i] == right;
    ArrowsSpelled(i);
    ReachKey(At(e, a, [c] + d), right, Right);
    assert ([c] + d)[1..] == d;
  }

  lemma FirstMoved(a: string, b: string, d: string)
    requires |b| > 0
    ensures a + b == (a + [b[0]]) + b[1..] && [b[0]] + (b[1..] + d) == b + d
  {
  }

  lemma {:induction false} MovesLeft(e: Editor, left: string, a: string, b: string, d: string)
    requires Sane(At(e, a + b, d)) && left in LEFT
    ensures Goes(At(e, a + b, d), Times(left, |b|), At(e, a, b + d))
    decreases |b|
  {
    if |b| == 0 {
      assert a + b == a && b + d == d;
      StaysPut(At(e, a, d));
    } else {
      var c, more := b[0], b[1..];
      FirstMoved(a, b, d);
      MovesLeft(e, left, a + [c], more, d);
      StepLeft(e, left, a, c, more + d);
      ThenGoes(At(e, a + b, d), Times(left, |more|), At(e, a + [c], more + d), left, At(e, a, b + d));
    }
  }

  lemma {:induction false} MovesRight(e: Editor, right: string, a: string, b: string, d: string)
    requires Sane(At(e, a, b + d)) && right in RIGHT
    ensures Goes(At(e, a, b + d), Times(right, |b|), At(e, a + b, d))
    decreases |b|
  {
    if |b| == 0 {
      assert a + b == a && b + d == d;
      StaysPut(At(e, a, d));
    } else {
      var before, c := b[..|b| - 1], b[|b| - 1];
      assert b + d == before + ([c] + d) && (a + before) + [c] == a + b;
      MovesRight(e, right, a, before, [c] + d);
      StepRight(e, right, a + before, c, d);
      ThenGoes(At(e, a, b + d), Times(right, |before|), At(e, a + before, [c] + d), right, At(e, a + b, d));
    }
  }

  lemma GoesHome(e: Editor, home: string, a: string, b: string)
    requires Sane(At(e, a, b)) && home in HOME
    ensures Goes(At(e, a, b), home, At(e, "", a + b))
  {
    var i :| 0 <= i < |HOME| && HOME[i] == home;
    HomeSpelled(i);
    ReachKey(At(e, a, b), home, Home);
  }

  lemma GoesToEnd(e: Editor, end: string, a: string, b: string)
    requires Sane(At(e, a, b)) && end in END
    ensures Goes(At(e, a, b), end, At(e, a + b, ""))
  {
    var i :| 0 <= i < |END| && END[i] == end;
    EndSpelled(i);
    ReachKey(At(e, a, b), end, End);
  }

  lemma Erases(e: Editor, erase: string, a: string, x: char, b: string)
    requires Sane(At(e, a + [x], b)) && erase in ERASE
    ensures Goes(At(e, a + [x], b), erase, At(e, a, b))
  {
    OneOctetSpelled();
    ReachKey(At(e, a + [x], b), erase, Erase);
    assert (a + [x])[..|a|] == a;
  }

  lemma TypesOne(e: Editor, l: string, c: char, r: string)
    requires Sane(At(e, l, r)) && IsTyped(c)
    ensures Goes(At(e, l, r), [c], if |l| + |r| < INPUT_MAX then At(e, l + [c], r) else At(e, l, r))
  {
    OneOctetSpelled();
    ReachKey(At(e, l, r), [c], Insert(c));
  }

  /** Text typed at the cursor goes in there. */
  lemma {:induction false} TypesAt(e: Editor, l: string, s: string, r: string)
    requires Sane(At(e, l, r)) && IsTypedText(s) && |l| + |s| + |r| <= INPUT_MAX
    ensures Goes(At(e, l, r), s, At(e, l + s, r))
    decreases |s|
  {
    if |s| == 0 {
      assert l + s == l;
      StaysPut(At(e, l, r));
    } else {
      var before, c := s[..|s| - 1], s[|s| - 1];
      assert s == before + [c] && (l + before) + [c] == l + s;
      TypesAt(e, l, before, r);
      TypesOne(e, l + before, c, r);
      ThenGoes(At(e, l, r), before, At(e, l + before, r), [c], At(e, l + s, r));
    }
  }

  lemma EndsLine(e: Editor, enter: string, a: string, b: string)
    requires Sane(At(e, a, b)) && enter in ENTER
    ensures HandsOn(At(e, a, b), enter, if |a| + |b| < INPUT_MAX then a + b + "\n" else a + b)
    ensures Reach(At(e, a, b), enter).history == LastN(AddLine(e.history, Submission(a + b)), HISTORY_MAX)
  {
    OneOctetSpelled();
    ReachKey(At(e, a, b), enter, Enter);
    assert Reach(At(e, a, b), enter) == Press(At(e, a, b), Enter);
  }

  // ----- the laws: octets typed, line handed on -----

  /** A part of what is typed leads from one state of the line to the next. */
  ghost predicate Leads(e: Editor, s: string, l: string, r: string)
    requires Sane(e)
  {
    Goes(e, s, At(e, l, r))
  }

  lemma ThenLeads(e: Editor, s: string, l: string, r: string, t: string, l2: string, r2: string)
    requires Sane(e) && Leads(e, s, l, r)
    requires Goes(At(e, l, r), t, At(e, l2, r2))
    ensures Leads(e, s + t, l2, r2)
  {
    ThenGoes(e, s, At(e, l, r), t, At(e, l2, r2));
  }

  lemma ThenEnter(e: Editor, s: string, l: string, r: string, enter: string)
    requires Sane(e) && Leads(e, s, l, r) && enter in ENTER && |l| + |r| < INPUT_MAX
    ensures HandsOn(e, s + enter, l + r + "\n")
    ensures Reach(e, s + enter).history == LastN(AddLine(e.history, Submission(l + r)), HISTORY_MAX)
  {
    assert Reach(e, s) == At(e, l, r);
    ReachMore(e, s, enter);
    EndsLine(e, enter, l, r);
  }

  lemma TypingLeads(e: Editor, s: string)
    requires Ready(e) && IsTypedText(s) && |s| <= INPUT_MAX
    ensures Leads(e, s, s, "")
  {
    TypesAt(e, "", s, "");
    assert At(e, "", "") == e && "" + s == s;
  }

  /** Left arrows go back over what was typed: a character typed there goes in
      there. */
  lemma LeftArrows(e: Editor, a: string, b: string, left: string, c: char, enter: string)
    requires Ready(e) && IsTypedText(a + b) && IsTyped(c) && |a| + |b| + 1 < INPUT_MAX
    requires left in LEFT && enter in ENTER
    ensures HandsOn(e, a + b + Times(left, |b|) + [c] + enter, a + [c] + b + "\n")
  {
    TypingLeads(e, a + b);
    MovesLeft(e, left, a, b, "");
    assert b + "" == b;
    ThenLeads(e, a + b, a + b, "", Times(left, |b|), a, b);
    TypesAt(e, a, [c], b);
    ThenLeads(e, a + b + Times(left, |b|), a, b, [c], a + [c], b);
    ThenEnter(e, a + b + Times(left, |b|) + [c], a + [c], b, enter);
  }

  /** Right arrows go forward again. */
  lemma RightArrows(e: Editor, a: string, b: string, d: string, left: string, right: string, c: char, enter: string)
    requires Ready(e) && IsTypedText(a + (b + d)) && IsTyped(c) && |a| + |b| + |d| + 1 < INPUT_MAX
    requires left in LEFT && right in RIGHT && enter in ENTER
    ensures HandsOn(e, a + (b + d) + Times(left, |b + d|) + Times(right, |b|) + [c] + enter, a + b + [c] + d + "\n")
  {
    var typed, back, forth := a + (b + d), Times(left, |b + d|), Times(right, |b|);
    TypingLeads(e, typed);
    MovesLeft(e, left, a, b + d, "");
    assert (b + d) + "" == b + d;
    ThenLeads(e, typed, typed, "", back, a, b + d);
    MovesRight(e, right, a, b, d);
    ThenLeads(e, typed + back, a, b + d, forth, a + b, d);
    TypesAt(e, a + b, [c], d);
    ThenLeads(e, typed + back + forth, a + b, d, [c], a + b + [c], d);
    ThenEnter(e, typed + back + forth + [c], a + b + [c], d, enter);
  }

  /** Home goes to the front of the line, however it is spelled. */
  lemma HomeKeys(e: Editor, s: string, home: string, c: char, enter: string)
    requires Ready(e) && IsTypedText(s) && IsTyped(c) && |s| + 1 < INPUT_MAX && home in HOME && enter in ENTER
    ensures HandsOn(e, s + home + [c] + enter, [c] + s + "\n")
  {
    TypingLeads(e, s);
    GoesHome(e, home, s, "");
    assert s + "" == s;
    ThenLeads(e, s, s, "", home, "", s);
    assert "" + [c] == [c];
    TypesOne(e, "", c, s);
    ThenLeads(e, s + home, "", s, [c], [c], s);
    ThenEnter(e, s + home + [c], [c], s, enter);
  }

  /** And End to its end. */
  lemma EndKeys(e: Editor, s: string, home: string, end: string, c: char, enter: string)
    requires Ready(e) && IsTypedText(s) && IsTyped(c) && |s| + 1 < INPUT_MAX
    requires home in HOME && end in END && enter in ENTER
    ensures HandsOn(e, s + home + end + [c] + enter, s + [c] + "\n")
  {
    TypingLeads(e, s);
    GoesHome(e, home, s, "");
    assert s + "" == s;
    ThenLeads(e, s, s, "", home, "", s);
    GoesToEnd(e, end, "", s);
    assert "" + s == s;
    ThenLeads(e, s + home, "", s, end, s, "");
    TypesAt(e, s, [c], "");
    ThenLeads(e, s + home + end, s, "", [c], s + [c], "");
    ThenEnter(e, s + home + end + [c], s + [c], "", enter);
    assert s + [c] + "" == s + [c];
  }

  /** Backspace and delete take the character before the cursor. */
  lemma EraseKeys(e: Editor, a: string, x: char, b: string, left: string, erase: string, enter: string)
    requires Ready(e) && IsTypedText(a + [x] + b) && |a| + |b| + 1 < INPUT_MAX
    requires left in LEFT && erase in ERASE && enter in ENTER
    ensures HandsOn(e, a + [x] + b + Times(left, |b|) + erase + enter, a + b + "\n")
  {
    var typed, back := a + [x] + b, Times(left, |b|);
    TypingLeads(e, typed);
    MovesLeft(e, left, a + [x], b, "");
    assert b + "" == b;
    ThenLeads(e, typed, typed, "", back, a + [x], b);
    Erases(e, erase, a, x, b);
    ThenLeads(e, typed + back, a + [x], b, erase, a, b);
    ThenEnter(e, typed + back + erase, a, b, enter);
  }

  /** A full line takes no more, and is handed on without a line end. */
  lemma FullLine(e: Editor, s: string, more: string, enter: string)
    requires Ready(e) && IsTypedText(s) && |s| == INPUT_MAX && IsTypedText(more) && enter in ENTER
    ensures HandsOn(e, s + more + enter, s)
  {
    TypingLeads(e, s);
    RefusesMore(e, s, more);
    ThenLeads(e, s, s, "", more, s, "");
    assert Reach(e, s + more) == At(e, s, "");
    ReachMore(e, s + more, enter);
    EndsLine(e, enter, s, "");
    assert s + "" == s;
  }

  lemma {:induction false} RefusesMore(e: Editor, s: string, more: string)
    requires Sane(At(e, s, "")) && |s| == INPUT_MAX && IsTypedText(more)
    ensures Goes(At(e, s, ""), more, At(e, s, ""))
    decreases |more|
  {
    if |more| == 0 {
      StaysPut(At(e, s, ""));
    } else {
      var before, c := more[..|more| - 1], more[|more| - 1];
      assert more == before + [c];
      RefusesMore(e, s, before);
      TypesOne(e, s, c, "");
      ThenGoes(At(e, s, ""), before, At(e, s, ""), [c], At(e, s, ""));
    }
  }

  // ----- the history -----

  lemma StepUp(e: Editor, up: string, at: nat)
    requires Ready(e) && up in UP && at < |e.history|
    ensures at == |e.history| - 1 ==> Goes(e, up, Recall(e, at))
    ensures at < |e.history| - 1 ==> Goes(Recall(e, at + 1), up, Recall(e, at))
  {
    var i :| 0 <= i < 2 && UP[i] == up;
    ArrowsSpelled(i);
    if at == |e.history| - 1 {
      ReachKey(e, up, Up);
    } else {
      ReachKey(Recall(e, at + 1), up, Up);
    }
  }

  lemma StepDown(e: Editor, down: string, at: nat)
    requires Ready(e) && down in DOWN && at < |e.history|
    ensures Goes(Recall(e, at), down, if at + 1 < |e.history| then Recall(e, at + 1) else e)
  {
    var i :| 0 <= i < 2 && DOWN[i] == down;
    ArrowsSpelled(i);
    ReachKey(Recall(e, at), down, Down);
  }

  lemma {:induction false} GoesUp(e: Editor, up: string, n: nat)
    requires Ready(e) && up in UP && 0 < n <= |e.history|
    ensures Goes(e, Times(up, n), Recall(e, |e.history| - n))
  {
    var at := |e.history| - n;
    StepUp(e, up, at);
    if n == 1 {
      assert Times(up, n) == "" + up && "" + up == up;
    } else {
      GoesUp(e, up, n - 1);
      ThenGoes(e, Times(up, n - 1), Recall(e, at + 1), up, Recall(e, at));
    }
  }

  lemma {:induction false} GoesDown(e: Editor, down: string, at: nat, n: nat)
    requires Ready(e) && down in DOWN && at + n < |e.history|
    ensures Goes(Recall(e, at), Times(down, n), Recall(e, at + n))
  {
    if n == 0 {
      StaysPut(Recall(e, at));
    } else {
      GoesDown(e, down, at, n - 1);
      StepDown(e, down, at + n - 1);
      ThenGoes(Recall(e, at), Times(down, n - 1), Recall(e, at + n - 1), down, Recall(e, at + n));
    }
  }

  lemma GoesPast(e: Editor, down: string, at: nat, n: nat)
    requires Ready(e) && down in DOWN && n > 0 && at + n == |e.history|
    ensures Goes(Recall(e, at), Times(down, n), e)
  {
    GoesDown(e, down, at, n - 1);
    StepDown(e, down, at + n - 1);
    ThenGoes(Recall(e, at), Times(down, n - 1), Recall(e, at + n - 1), down, e);
  }

  lemma RecalledIsHandedOn(e: Editor, at: nat, enter: string)
    requires Ready(e) && at < |e.history| && |e.history[at]| < INPUT_MAX && enter in ENTER
    ensures HandsOn(Recall(e, at), enter, e.history[at] + "\n")
  {
    OneOctetSpelled();
    ReachKey(Recall(e, at), enter, Enter);
    assert Reach(Recall(e, at), enter) == Press(Recall(e, at), Enter);
    assert e.history[at] + "" == e.history[at];
  }

  lemma ThenHandsOn(e: Editor, s: string, f: Editor, t: string, line: string)
    requires Sane(e) && Goes(e, s, f) && Sane(f) && f.submitted == e.submitted && HandsOn(f, t, line)
    ensures HandsOn(e, s + t, line)
  {
    assert Reach(e, s) == f;
    ReachMore(e, s, t);
  }

  /** Up goes to older lines and down to newer ones. */
  lemma UpAndDown(e: Editor, up: string, down: string, n: nat, m: nat, enter: string)
    requires Ready(e) && up in UP && down in DOWN && m < n <= |e.history| && enter in ENTER
    requires |e.history[|e.history| - n + m]| < INPUT_MAX
    ensures HandsOn(e, Times(up, n) + Times(down, m) + enter, e.history[|e.history| - n + m] + "\n")
  {
    var at := |e.history| - n;
    GoesUp(e, up, n);
    GoesDown(e, down, at, m);
    ThenGoes(e, Times(up, n), Recall(e, at), Times(down, m), Recall(e, at + m));
    RecalledIsHandedOn(e, at + m, enter);
    ThenHandsOn(e, Times(up, n) + Times(down, m), Recall(e, at + m), enter, e.history[at + m] + "\n");
  }

  lemma EmptyLine(e: Editor, enter: string)
    requires Ready(e) && enter in ENTER
    ensures HandsOn(e, enter, "\n")
  {
    EndsLine(e, enter, "", "");
    assert At(e, "", "") == e;
  }

  /** Down past the newest line is an empty line. */
  lemma DownPastNewest(e: Editor, up: string, down: string, n: nat, enter: string)
    requires Ready(e) && up in UP && down in DOWN && 0 < n <= |e.history| && enter in ENTER
    ensures HandsOn(e, Times(up, n) + Times(down, n) + enter, "\n")
  {
    var at := |e.history| - n;
    GoesUp(e, up, n);
    GoesPast(e, down, at, n);
    ThenGoes(e, Times(up, n), Recall(e, at), Times(down, n), e);
    EmptyLine(e, enter);
    ThenHandsOn(e, Times(up, n) + Times(down, n), e, enter, "\n");
  }

  /** A line that was typed comes back. */
  lemma TypedLineComesBack(e: Editor, s: string, enter: string, up: string)
    requires Ready(e) && IsTypedText(s) && 0 < |s| < INPUT_MAX && enter in ENTER && up in UP
    ensures HandsOn(e, s + enter, s + "\n")
    ensures HandsOn(Reach(e, s + enter), up + enter, s + "\n")
  {
    TypingLeads(e, s);
    ThenEnter(e, s, s, "", enter);
    assert s + "" == s;
    var f := Reach(e, s + enter);
    KeptIsTyped(s);
    NewestIsKept(e.history, s);
    var last := |f.history| - 1;
    StepUp(f, up, last);
    RecalledIsHandedOn(f, last, enter);
    ThenHandsOn(f, up, Recall(f, last), enter, s + "\n");
  }

  lemma NewestIsKept(history: seq<string>, s: string)
    requires |s| > 0 && Kept(s + "\n") == s
    ensures var h := LastN(AddLine(history, s + "\n"), HISTORY_MAX); |h| > 0 && h[|h| - 1] == s
  {
    var lines := AddLine(history, s + "\n");
    LastNLast(lines, HISTORY_MAX);
  }

  lemma KeptIsTyped(s: string)
    requires IsTypedText(s) && 0 < |s| < INPUT_MAX
    ensures Kept(s + "\n") == s
  {
    assert IsTyped(s[|s| - 1]);
    KeptIs(s, "\n");
  }

  const EDITED: string := ['a', 'c', ESC, '[', 'D', 'b', '\r']

  lemma EditedExample()
    ensures After(EDITED).submitted == ["abc\n"]
  {
    LeftArrows(START, "a", "c", LEFT[0], 'b', "\r");
    assert Times(LEFT[0], 1) == Times(LEFT[0], 0) + LEFT[0] && Times(LEFT[0], 0) == "";
    assert "a" + "c" + Times(LEFT[0], 1) + ['b'] + "\r" == EDITED;
    assert "a" + ['b'] + "c" + "\n" == "abc\n";
  }

  /** For instance, at a fresh prompt: "ac", the left arrow, "b" and Enter. */
  method EditedLine() returns (lines: seq<string>)
    ensures lines == ["abc\n"]
  {
    var editor := new InputLine();
    EditedExample();
    lines := editor.HandleStdin(EDITED);
    assert "" + EDITED == EDITED && [] + lines == lines;
  }

  // ----- what is ignored -----

  /** Other control octets do nothing. */
  lemma ControlsIgnored(c: char)
    requires !IsTyped(c) && c != ESC && c != '\r' && c != '\n' && c as int != 8 && c as int != 127
    ensures DecodeAll(Plain, [c]) == Decoded([], Plain)
  {
    DecodeOne(c);
  }

  /** Nor does an escape that opens no sequence, or a letter that names no key. */
  lemma OthersIgnored(c: char)
    ensures c != '[' && c != 'O' ==> DecodeAll(Plain, [ESC, c]) == Decoded([], Plain)
    ensures c !in "ABCDHF" && !IsDigit(c) ==> DecodeAll(Plain, [ESC, '[', c]) == Decoded([], Plain)
    ensures c !in "ABCDHFhfwq" ==> DecodeAll(Plain, [ESC, 'O', c]) == Decoded([], Plain)
  {
    DecodeOne(ESC);
    DecodeOneMore(Plain, [ESC], c);
    assert [ESC] + [c] == [ESC, c];
    DecodeThree('[', c);
    DecodeThree('O', c);
  }

  /** Sequences with other digits, or with parameters, are skipped whole. */
  lemma SequencesSkipped(d: char, body: string, final: char)
    requires IsDigit(d) && ('A' <= final <= 'Z' || final == '~')
    requires forall i | 0 <= i < |body| :: !('A' <= body[i] <= 'Z') && body[i] != '~'
    requires |body| > 0 || (final == '~' && d != '1' && d != '4' && d != '7' && d != '8')
    ensures DecodeAll(Plain, [ESC, '[', d] + body + [final]) == Decoded([], Plain)
  {
    OpensDigit(d);
    SkippedFrom([ESC, '[', d], d, body, final);
  }

  lemma SkippedFrom(open: string, d: char, body: string, final: char)
    requires DecodeAll(Plain, open) == Decoded([], Digit(d))
    requires IsDigit(d) && ('A' <= final <= 'Z' || final == '~')
    requires forall i | 0 <= i < |body| :: !('A' <= body[i] <= 'Z') && body[i] != '~'
    requires |body| > 0 || (final == '~' && d != '1' && d != '4' && d != '7' && d != '8')
    ensures DecodeAll(Plain, open + body + [final]) == Decoded([], Plain)
  {
    if |body| > 0 {
      SkipsBody(open, d, body);
      DecodeNext(open + body, Skipping, final);
    } else {
      assert open + body == open;
      DecodeNext(open, Digit(d), final);
    }
  }

  lemma OpensDigit(d: char)
    requires IsDigit(d)
    ensures DecodeAll(Plain, [ESC, '[', d]) == Decoded([], Digit(d))
  {
    DecodeThree('[', d);
  }

  lemma DecodeNext(s: string, esc: Esc, c: char)
    requires DecodeAll(Plain, s) == Decoded([], esc)
    ensures DecodeAll(Plain, s + [c]) == Decode(esc, c)
  {
    DecodeOneMore(Plain, s, c);
    assert [] + Decode(esc, c).keys == Decode(esc, c).keys;
  }

  lemma {:induction false} SkipsBody(open: string, d: char, body: string)
    requires DecodeAll(Plain, open) == Decoded([], Digit(d)) && |body| > 0
    requires forall i | 0 <= i < |body| :: !('A' <= body[i] <= 'Z') && body[i] != '~'
    ensures DecodeAll(Plain, open + body) == Decoded([], Skipping)
    decreases |body|
  {
    var before, c := body[..|body| - 1], body[|body| - 1];
    assert open + body == (open + before) + [c];
    if |before| > 0 {
      SkipsBody(open, d, before);
      DecodeNext(open + before, Skipping, c);
    } else {
      assert open + before == open;
      DecodeNext(open, Digit(d), c);
    }
  }
}
