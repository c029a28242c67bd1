/** The line splitter of `multi_handle_stdin` (src/main.c): a buffer of 8192
    octets from which lines are dispatched at each newline, or whole when full. */
module Splitter {
  import opened Text

  datatype Parts = Parts(lines: seq<string>, rest: string)

  /** The length of the first line of `s`, 0 when no line is complete. */
  function LineLength(s: string): (n: nat)
    ensures n <= |s| && n <= INPUT_MAX
  {
    var nl := IndexOfChar(s, '\n');
    if nl < |s| && nl < INPUT_MAX then nl + 1
    else if |s| >= INPUT_MAX then INPUT_MAX
    else 0
  }

  /** The greedy split at a newline or at 8192 octets. */
  function Split(s: string): Parts {
    var n := LineLength(s);
    if n == 0 then Parts([], s)
    else
      var p := Split(s[n..]);
      Parts([s[..n]] + p.lines, p.rest)
  }

  /** A complete line: one newline, at its end, or 8192 octets without any. */
  predicate IsLine(l: string) {
    && 0 < |l| <= INPUT_MAX
    && (forall k | 0 <= k < |l| - 1 :: l[k] != '\n')
    && (l[|l| - 1] == '\n' || |l| == INPUT_MAX)
  }

  predicate AllLines(lines: seq<string>) {
    forall l | l in lines :: IsLine(l)
  }

  predicate IsRest(r: string) {
    NoNewline(r) && |r| < INPUT_MAX
  }

  /** A line in front is the first line. */
  lemma LineInFront(l: string, tail: string)
    requires IsLine(l)
    ensures LineLength(l + tail) == |l|
    ensures (l + tail)[..|l|] == l && (l + tail)[|l|..] == tail
  {
    var s := l + tail;
    assert forall k | 0 <= k < |l| :: s[k] == l[k];
    if l[|l| - 1] == '\n' {
      IndexOfCharUnique(s, '\n', |l| - 1);
    }
  }

  lemma FirstLine(s: string)
    ensures LineLength(s) == 0 ==> IsRest(s)
    ensures LineLength(s) > 0 ==> IsLine(s[..LineLength(s)])
  {
  }

  /** Nothing is lost or reordered, and the pieces are what they should be. */
  lemma {:induction false} SplitParts(s: string)
    ensures Flatten(Split(s).lines) + Split(s).rest == s
    ensures AllLines(Split(s).lines)
    ensures IsRest(Split(s).rest)
    decreases |s|
  {
    var n := LineLength(s);
    FirstLine(s);
    if n > 0 {
      SplitParts(s[n..]);
      Reassemble(s, n, Split(s[n..]).lines, Split(s[n..]).rest);
    }
  }

  lemma Reassemble(s: string, n: nat, lines: seq<string>, rest: string)
    requires n <= |s| && Flatten(lines) + rest == s[n..]
    ensures Flatten([s[..n]] + lines) + rest == s
  {
    assert ([s[..n]] + lines)[1..] == lines;
    assert (s[..n] + Flatten(lines)) + rest == s[..n] + (Flatten(lines) + rest);
    assert s[..n] + s[n..] == s;
  }

  lemma SplitCons(l: string, tail: string)
    requires IsLine(l)
    ensures Split(l + tail) == Parts([l] + Split(tail).lines, Split(tail).rest)
  {
    LineInFront(l, tail);
  }

  /** The split is the only way to cut `s` into complete lines and a rest. */
  lemma {:induction false} SplitUnique(lines: seq<string>, rest: string)
    requires AllLines(lines) && IsRest(rest)
    ensures Split(Flatten(lines) + rest) == Parts(lines, rest)
    decreases |lines|
  {
    if |lines| == 0 {
      IndexOfCharUnique(rest, '\n', |rest|);
      assert Flatten(lines) + rest == rest;
    } else {
      var l, more := lines[0], lines[1..];
      assert lines == [l] + more;
      SplitUnique(more, rest);
      Assoc(l, Flatten(more), rest);
      SplitCons(l, Flatten(more) + rest);
    }
  }

  /** Splitting may stop anywhere and resume with the rest. */
  lemma {:induction false} SplitResumes(a: string, b: string)
    ensures var p := Split(a);
            var q := Split(p.rest + b);
            Split(a + b) == Parts(p.lines + q.lines, q.rest)
    decreases |a|
  {
    var n := LineLength(a);
    if n > 0 {
      FirstLine(a);
      Assoc(a[..n], a[n..], b);
      assert a[..n] + a[n..] == a;
      SplitCons(a[..n], a[n..] + b);
      SplitResumes(a[n..], b);
      var p := Split(a[n..]);
      var q := Split(p.rest + b);
      Assoc([a[..n]], p.lines, q.lines);
    }
  }

  /** The split of a stream of which `lines` were handed on and `buffered` is left. */
  function Resumed(lines: seq<string>, buffered: string): Parts {
    Parts(lines + Split(buffered).lines, Split(buffered).rest)
  }

  lemma ResumedStep(lines: seq<string>, buffered: string)
    requires LineLength(buffered) > 0
    ensures var n := LineLength(buffered);
            Resumed(lines, buffered) == Resumed(lines + [buffered[..n]], buffered[n..])
  {
    var n := LineLength(buffered);
    var p := Split(buffered[n..]);
    assert lines + ([buffered[..n]] + p.lines) == (lines + [buffered[..n]]) + p.lines;
  }

  lemma NothingLeft(lines: seq<string>, buffered: string)
    requires LineLength(buffered) == 0
    ensures Resumed(lines, buffered) == Parts(lines, buffered) && |buffered| < INPUT_MAX
  {
    FirstLine(buffered);
  }

  class LineReader {
    const input: array<char>
    var inputLen: nat
    /** The lines handed on so far, and every octet read so far. */
    ghost var lines: seq<string>
    ghost var seen: string

    ghost predicate Valid()
      reads this, input
    {
      && input.Length == INPUT_MAX
      && inputLen < INPUT_MAX
      && Split(seen) == Parts(lines, input[..inputLen])
    }

    constructor ()
      ensures Valid() && seen == "" && lines == [] && fresh(input)
    {
      input := new char[INPUT_MAX];
      inputLen, lines, seen := 0, [], "";
    }

    /** `memchr` for a newline, and how much of the buffer to dispatch. */
    method NextLine() returns (n: nat)
      requires input.Length == INPUT_MAX && inputLen <= INPUT_MAX
      ensures n == LineLength(input[..inputLen])
    {
      var nl := 0;
      while nl < inputLen && input[nl] != '\n'
        invariant nl <= inputLen && forall k | 0 <= k < nl :: input[k] != '\n'
      {
        nl := nl + 1;
      }
      IndexOfCharUnique(input[..inputLen], '\n', nl);
      if nl == inputLen {
        return if inputLen == INPUT_MAX then INPUT_MAX else 0;
      }
      return nl + 1;
    }

    /** Dispatches the first `n` octets of the buffer as a line. */
    method DispatchLine(n: nat) returns (line: string)
      requires input.Length == INPUT_MAX && 0 < n <= inputLen <= INPUT_MAX
      modifies this`lines, this`inputLen, input
      ensures line == old(input[..n]) && lines == old(lines) + [line]
      ensures inputLen == old(inputLen) - n && input[..inputLen] == old(input[n..inputLen])
    {
      line := input[..n];
      lines := lines + [line];
      MemMove(input, 0, n, inputLen - n);
      inputLen := inputLen - n;
    }

    /** Dispatches the next complete line, if there is one. */
    method DispatchNext() returns (line: Option<string>)
      requires input.Length == INPUT_MAX && 0 < inputLen <= INPUT_MAX
      modifies this`lines, this`inputLen, input
      ensures inputLen <= INPUT_MAX
      ensures Resumed(lines, input[..inputLen]) == old(Resumed(lines, input[..inputLen]))
      ensures lines == old(lines) + if line.Some? then [line.value] else []
      ensures line.Some? ==> inputLen < old(inputLen)
      ensures line.None? ==> inputLen == old(inputLen) && LineLength(input[..inputLen]) == 0
    {
      var n := NextLine();
      if n == 0 {
        return None;
      }
      ResumedStep(lines, input[..inputLen]);
      assert input[..inputLen][..n] == input[..n] && input[..inputLen][n..] == input[n..inputLen];
      var l := DispatchLine(n);
      return Some(l);
    }

    /** Dispatches all lines that are complete. */
    method DispatchAll() returns (out: seq<string>)
      requires input.Length == INPUT_MAX && inputLen <= INPUT_MAX
      modifies this`lines, this`inputLen, input
      ensures inputLen < INPUT_MAX && lines == old(lines) + out
      ensures Parts(lines, input[..inputLen]) == old(Resumed(lines, input[..inputLen]))
    {
      out := [];
      var more := true;
      while inputLen > 0 && more
        invariant inputLen <= INPUT_MAX && lines == old(lines) + out
        invariant Resumed(lines, input[..inputLen]) == old(Resumed(lines, input[..inputLen]))
        invariant !more ==> LineLength(input[..inputLen]) == 0
        decreases inputLen, more
      {
        var line := DispatchNext();
        more := line.Some?;
        if more {
          Assoc(old(lines), out, [line.value]);
          out := out + [line.value];
        }
      }
      NothingLeft(lines, input[..inputLen]);
    }

    /** One `read` of at most the free room and the dispatch of what it
        completed, `out`: after any series of reads the lines handed on and the
        octets kept are the split of everything read. */
    method HandleStdin(chunk: string) returns (out: seq<string>)
      requires Valid() && |chunk| <= INPUT_MAX - inputLen
      modifies this, input
      ensures Valid() && seen == old(seen) + chunk && lines == old(lines) + out
    {
      SplitResumes(seen, chunk);
      seen := seen + chunk;
      MemCopy(input, inputLen, chunk);
      inputLen := inputLen + |chunk|;
      assert input[..inputLen] == old(input[..inputLen]) + chunk;
      out := DispatchAll();
    }

    /** Any partition of a stream into reads: `sizes` are what the descriptor
        offers; every read has room, so enough of them take in the stream. */
    method Feed(stream: string, sizes: seq<nat>) returns (taken: nat)
      requires Valid()
      modifies this, input
      ensures Valid() && taken <= |stream| && seen == old(seen) + stream[..taken]
      ensures |sizes| >= |stream| && (forall i | 0 <= i < |sizes| :: sizes[i] > 0) ==> taken == |stream|
    {
      taken := 0;
      for i := 0 to |sizes|
        invariant Valid() && taken <= |stream| && seen == old(seen) + stream[..taken]
        invariant (forall k | 0 <= k < |sizes| :: sizes[k] > 0) ==> taken >= i || taken == |stream|
      {
        var n := sizes[i];
        n := if n > INPUT_MAX - inputLen then INPUT_MAX - inputLen else n;
        n := if n > |stream| - taken then |stream| - taken else n;
        TakeMore(old(seen), stream, taken, taken + n);
        var out := HandleStdin(stream[taken..taken + n]);
        taken := taken + n;
      }
    }
  }
}
