/** Octet strings and the few C library routines that several modules share.
    An octet of a text buffer is a `char`; nothing below depends on it being
    smaller than 256. */
module Text {

  /** One more than the largest `unsigned int`. */
  const UINT_RANGE: nat := 0x1_0000_0000
  /** The size of every terminal input buffer of src/main.c. */
  const INPUT_MAX: nat := 8192

  datatype Option<+T> = None | Some(value: T) {
    function GetOr(default: T): T {
      if Some? then value else default
    }
  }

  /** The last `n` elements of `s`, or all of `s` when it is shorter. */
  function LastN<T>(s: seq<T>, n: nat): (r: seq<T>) {
    if |s| <= n then s else s[|s| - n..]
  }

  lemma LastNTwice<T>(s: seq<T>, t: seq<T>, n: nat)
    ensures LastN(LastN(s, n) + t, n) == LastN(s + t, n)
  {
    if |s| > n {
      assert s + t == s[..|s| - n] + (s[|s| - n..] + t);
    }
  }

  lemma LastNLast<T>(s: seq<T>, n: nat)
    requires |s| > 0 && n > 0
    ensures LastN(LastN(s, n), n) == LastN(s, n) && |LastN(s, n)| > 0 && LastN(s, n)[|LastN(s, n)| - 1] == s[|s| - 1]
  {
  }

  lemma Assoc<T>(a: seq<T>, b: seq<T>, c: seq<T>)
    ensures (a + b) + c == a + (b + c)
  {
  }

  lemma TakeMore<T>(front: seq<T>, s: seq<T>, i: nat, j: nat)
    requires i <= j <= |s|
    ensures (front + s[..i]) + s[i..j] == front + s[..j]
  {
    assert s[..i] + s[i..j] == s[..j];
    Assoc(front, s[..i], s[i..j]);
  }

  /** The pieces, one after the other. */
  function Flatten(pieces: seq<string>): string {
    if |pieces| == 0 then "" else pieces[0] + Flatten(pieces[1..])
  }

  lemma {:induction false} FlattenMore(pieces: seq<string>, last: string)
    ensures Flatten(pieces + [last]) == Flatten(pieces) + last
  {
    if |pieces| == 0 {
      assert pieces + [last] == [last] && [last][1..] == [];
    } else {
      FlattenMore(pieces[1..], last);
      assert (pieces + [last])[1..] == pieces[1..] + [last];
      Assoc(pieces[0], Flatten(pieces[1..]), last);
    }
  }

  // ----- memmove and memcpy on a fixed-size buffer -----

  method MemMove(a: array<char>, dst: nat, src: nat, n: nat)
    requires dst + n <= a.Length && src + n <= a.Length
    modifies a
    ensures a[..] == old(a[..dst]) + old(a[src..src + n]) + old(a[dst + n..])
  {
    forall i | 0 <= i < n {
      a[dst + i] := a[src + i];
    }
  }

  method MemCopy(a: array<char>, at: nat, buf: string)
    requires at + |buf| <= a.Length
    modifies a
    ensures a[..] == old(a[..at]) + buf + old(a[at + |buf|..])
  {
    forall i | 0 <= i < |buf| {
      a[at + i] := buf[i];
    }
  }

  // ----- characters -----

  predicate NoNewline(s: string) {
    forall k | 0 <= k < |s| :: s[k] != '\n'
  }

  predicate IsControl(c: char) {
    c as int < 32 || c as int == 127
  }

  function HexDigit(d: nat): char
    requires d < 16
  {
    if d < 10 then ('0' as int + d) as char else ('a' as int + d - 10) as char
  }

  function HexValue(c: char): Option<nat> {
    if '0' <= c <= '9' then Some(c as int - '0' as int)
    else if 'a' <= c <= 'f' then Some(c as int - 'a' as int + 10)
    else if 'A' <= c <= 'F' then Some(c as int - 'A' as int + 10)
    else None
  }

  // ----- C strings -----

  /** A line without the line ends at its back. */
  function TrimEol(s: string): string {
    if |s| > 0 && (s[|s| - 1] == '\n' || s[|s| - 1] == '\r') then TrimEol(s[..|s| - 1]) else s
  }

  /** A C string ends at its first NUL. */
  function CString(s: string): string {
    if |s| == 0 || s[0] == '\0' then "" else [s[0]] + CString(s[1..])
  }

  lemma {:induction false} NoNulIsWhole(s: string)
    requires forall i | 0 <= i < |s| :: s[i] != '\0'
    ensures CString(s) == s
  {
    if |s| > 0 {
      NoNulIsWhole(s[1..]);
      assert s == [s[0]] + s[1..];
    }
  }

  /** The index of the first `c`, or the length when there is none. */
  function IndexOfChar(s: string, c: char): (n: nat)
    ensures n <= |s| && (n < |s| ==> s[n] == c)
    ensures forall k | 0 <= k < n :: s[k] != c
  {
    if |s| == 0 || s[0] == c then 0 else 1 + IndexOfChar(s[1..], c)
  }

  lemma IndexOfCharUnique(s: string, c: char, n: nat)
    requires n <= |s| && (n < |s| ==> s[n] == c) && forall k | 0 <= k < n :: s[k] != c
    ensures IndexOfChar(s, c) == n
  {
  }

  // ----- %u -----

  function Digit(d: nat): char
    requires d < 10
  {
    ('0' as int + d) as char
  }

  predicate IsDigit(c: char) {
    '0' <= c <= '9'
  }

  function Decimal(n: nat): string {
    if n < 10 then [Digit(n)] else Decimal(n / 10) + [Digit(n % 10)]
  }

  /** The value of a string of digits; what `Decimal` writes it reads back. */
  function DigitsValue(s: string): nat {
    if |s| == 0 || !IsDigit(s[|s| - 1]) then 0
    else 10 * DigitsValue(s[..|s| - 1]) + (s[|s| - 1] as int - '0' as int)
  }

  predicate AllDigits(s: string) {
    forall i | 0 <= i < |s| :: IsDigit(s[i])
  }

  lemma {:induction false} DecimalRoundTrip(n: nat)
    ensures |Decimal(n)| > 0 && AllDigits(Decimal(n))
    ensures DigitsValue(Decimal(n)) == n
  {
    var s := Decimal(n);
    if n >= 10 {
      DecimalRoundTrip(n / 10);
    }
    assert s[..|s| - 1] == if n < 10 then "" else Decimal(n / 10);
  }

  // ----- strtol in base 10 -----

  function DigitCount(s: string): (n: nat)
    ensures n <= |s| && AllDigits(s[..n])
  {
    if |s| > 0 && IsDigit(s[0]) then
      var n := 1 + DigitCount(s[1..]);
      assert s[..n] == [s[0]] + s[1..][..n - 1];
      n
    else 0
  }

  lemma {:induction false} DigitCountBefore(d: string, rest: string)
    requires AllDigits(d) && (|rest| > 0 ==> !IsDigit(rest[0]))
    ensures DigitCount(d + rest) == |d|
  {
    if |d| == 0 {
      assert d + rest == rest;
    } else {
      DigitCountBefore(d[1..], rest);
      assert (d + rest)[1..] == d[1..] + rest;
    }
  }

  function SpaceCount(s: string): (n: nat)
    ensures n <= |s|
  {
    if |s| > 0 && (s[0] == ' ' || 9 <= s[0] as int <= 13) then 1 + SpaceCount(s[1..]) else 0
  }

  datatype Number = Number(value: int, used: nat)

  /** Where the digits begin, behind a sign. */
  function AfterSign(s: string, w: nat): (at: nat)
    requires w <= |s|
    ensures w <= at <= |s| && at <= w + 1
    ensures at > w <==> w < |s| && (s[w] == '-' || s[w] == '+')
  {
    if w < |s| && (s[w] == '-' || s[w] == '+') then w + 1 else w
  }

  /** The value and how many octets it took; 0 octets when there is no number.
      Values beyond the range of `long` saturate in C; every caller rejects
      them by its own, smaller bound. */
  function StrToL(s: string): (r: Number)
    ensures r.used <= |s|
  {
    var w := SpaceCount(s);
    var at := AfterSign(s, w);
    var n := DigitCount(s[at..]);
    if n == 0 then Number(0, 0) else Number(SignedValue(at > w && s[w] == '-', s[at..at + n]), at + n)
  }

  function SignedValue(minus: bool, digits: string): int {
    var v: int := DigitsValue(digits);
    if minus then -v else v
  }

  lemma {:induction false} AllDigitsCount(s: string)
    requires AllDigits(s)
    ensures DigitCount(s) == |s|
  {
    if |s| > 0 {
      AllDigitsCount(s[1..]);
    }
  }

  /** A string of digits is read whole. */
  lemma StrToLDigits(s: string)
    requires |s| > 0 && AllDigits(s)
    ensures StrToL(s) == Number(DigitsValue(s), |s|)
  {
    AllDigitsCount(s);
    assert s[0..] == s && s[..|s|] == s;
    assert IsDigit(s[0]);
  }

  function Pow10(k: nat): nat {
    if k == 0 then 1 else 10 * Pow10(k - 1)
  }

  lemma {:induction false} DecimalLength(n: nat, k: nat)
    requires 0 < k && n < Pow10(k)
    ensures |Decimal(n)| <= k
  {
    if n >= 10 {
      DecimalLength(n / 10, k - 1);
    }
  }
}
