/** HTTP CONNECT as both ends of src/proxy.c speak it (section 9.3.6 of
    RFC 9110). A stream is the octets that reads yield
    before the first that fails or reports the end. */
module Connect {
  import opened Text

  const HOST_SIZE: nat := 256
  const PORT_SIZE: nat := 32
  const ENDPOINT_SIZE: nat := 512
  const REQUEST_SIZE: nat := 512       // the client's request buffer
  const SERVER_BUFFER: nat := 4096
  const CLIENT_BUFFER: nat := 1024

  datatype Endpoint = Endpoint(host: string, port: string)

  /** `strrchr`: the index of the last `c`, -1 when there is none. */
  function LastIndexOf(s: string, c: char): (n: int)
    ensures -1 <= n < |s| && (n >= 0 ==> s[n] == c)
    ensures forall k | n < k < |s| :: s[k] != c
  {
    if |s| == 0 then -1
    else if s[|s| - 1] == c then |s| - 1
    else LastIndexOf(s[..|s| - 1], c)
  }

  function ParsePort(s: string): (r: int)
    ensures r == -1 || 1 <= r <= 65535
  {
    var n := StrToL(s);
    if n.used == 0 || n.used != |s| || n.value < 1 || n.value > 65535 then -1 else n.value
  }

  function SplitHostPort(s: string): Option<Endpoint> {
    var colon := LastIndexOf(s, ':');
    if colon <= 0 || colon + 1 == |s| then None
    else if colon >= HOST_SIZE || |s| - colon - 1 >= PORT_SIZE then None
    else if ParsePort(s[colon + 1..]) > 0 then Some(Endpoint(s[..colon], s[colon + 1..]))
    else None
  }

  function ParseConnect(buf: string): Option<Endpoint> {
    if !("CONNECT " <= buf) then None
    else
      var target := buf[8..];
      var space := IndexOfChar(target, ' ');
      if space == |target| || space == 0 || space >= ENDPOINT_SIZE then None
      else SplitHostPort(target[..space])
  }

  // ----- what is accepted, exactly -----

  predicate IsSpaces(s: string) {
    forall i | 0 <= i < |s| :: s[i] == ' ' || 9 <= s[i] as int <= 13
  }

  /** White space, perhaps a plus sign, and a number from 1 to 65535. */
  predicate IsPortText(spaces: string, sign: string, digits: string) {
    && IsSpaces(spaces) && (sign == "" || sign == "+")
    && |digits| > 0 && AllDigits(digits) && 1 <= DigitsValue(digits) <= 65535
  }

  lemma {:induction false} SpacesCounted(spaces: string, rest: string)
    requires IsSpaces(spaces) && (|rest| > 0 ==> rest[0] != ' ' && !(9 <= rest[0] as int <= 13))
    ensures SpaceCount(spaces + rest) == |spaces|
  {
    if |spaces| == 0 {
      assert spaces + rest == rest;
    } else {
      SpacesCounted(spaces[1..], rest);
      assert (spaces + rest)[1..] == spaces[1..] + rest;
    }
  }

  lemma {:induction false} CountedSpaces(s: string)
    ensures IsSpaces(s[..SpaceCount(s)])
  {
    if |s| > 0 && (s[0] == ' ' || 9 <= s[0] as int <= 13) {
      CountedSpaces(s[1..]);
      assert s[..SpaceCount(s)] == [s[0]] + s[1..][..SpaceCount(s) - 1];
    }
  }

  lemma SignPlace(spaces: string, sign: string, digits: string)
    requires sign == "" || sign == "+"
    requires |digits| > 0 && IsDigit(digits[0])
    ensures var s, at := spaces + (sign + digits), |spaces| + |sign|;
            && s[at..] == digits && AfterSign(s, |spaces|) == at && s[|spaces|] != '-'
            && (sign + digits)[0] != ' ' && !(9 <= (sign + digits)[0] as int <= 13)
  {
    var s := spaces + (sign + digits);
    if sign == "+" {
      assert s[|spaces|] == '+';
    } else {
      assert s[|spaces|] == digits[0];
    }
  }

  lemma ReadsNumberAt(s: string, w: nat, at: nat, d: string)
    requires SpaceCount(s) == w && AfterSign(s, w) == at && w < |s| && s[w] != '-'
    requires s[at..] == d && 0 < |d| && DigitCount(d) == |d|
    ensures StrToL(s) == Number(DigitsValue(d), |s|)
  {
    var n := |d|;
    assert s[at..at + n] == d;
    assert SignedValue(false, d) == DigitsValue(d);
  }

  /** A port of that shape is accepted. */
  lemma AcceptsPort(spaces: string, sign: string, digits: string)
    requires IsPortText(spaces, sign, digits)
    ensures ParsePort(spaces + (sign + digits)) == DigitsValue(digits)
  {
    SignPlace(spaces, sign, digits);
    SpacesCounted(spaces, sign + digits);
    AllDigitsCount(digits);
    ReadsNumberAt(spaces + (sign + digits), |spaces|, |spaces| + |sign|, digits);
  }

  lemma WholeNumber(s: string, w: nat, at: nat, d: string)
    requires SpaceCount(s) == w && AfterSign(s, w) == at && s[at..] == d
    requires StrToL(s).used == |s| && StrToL(s).value > 0
    ensures DigitCount(d) == |d| > 0 && s[at..at + |d|] == d
    ensures !(at > w && s[w] == '-') && StrToL(s).value == DigitsValue(d)
  {
    assert at + DigitCount(d) == |s|;
    assert s[at..at + |d|] == d;
  }

  /** And nothing else is. */
  lemma AcceptsOnlyPorts(s: string) returns (spaces: string, sign: string, digits: string)
    requires ParsePort(s) > 0
    ensures s == spaces + (sign + digits) && IsPortText(spaces, sign, digits) && ParsePort(s) == DigitsValue(digits)
  {
    var w := SpaceCount(s);
    var at := AfterSign(s, w);
    CountedSpaces(s);
    spaces, sign, digits := s[..w], s[w..at], s[at..];
    WholeNumber(s, w, at, digits);
    assert digits[..|digits|] == digits;
    if at > w {
      assert sign == [s[w]];
    }
    assert s == spaces + (sign + digits);
  }

  lemma LastIndexOfAt(s: string, c: char, n: nat)
    requires n < |s| && s[n] == c && forall k | n < k < |s| :: s[k] != c
    ensures LastIndexOf(s, c) == n
  {
  }

  lemma LastColon(host: string, port: string)
    requires ':' !in port
    ensures var t := host + ":" + port;
            && LastIndexOf(t, ':') == |host| && |t| == |host| + 1 + |port|
            && t[..|host|] == host && t[|host| + 1..] == port
  {
    var t, n := host + ":" + port, |host|;
    assert t[n] == ':' && forall k | n < k < |t| :: t[k] == port[k - n - 1];
    LastIndexOfAt(t, ':', n);
  }

  /** A host and a port that are told apart by the last colon. */
  predicate IsSplit(e: Endpoint) {
    0 < |e.host| < HOST_SIZE && 0 < |e.port| < PORT_SIZE && ':' !in e.port && ParsePort(e.port) > 0
  }

  lemma SplitsAtColon(e: Endpoint)
    requires IsSplit(e)
    ensures SplitHostPort(e.host + ":" + e.port) == Some(e)
  {
    LastColon(e.host, e.port);
  }

  lemma SplitOnlyAtColon(t: string) returns (e: Endpoint)
    requires SplitHostPort(t).Some?
    ensures SplitHostPort(t) == Some(e) && IsSplit(e) && t == e.host + ":" + e.port
  {
    var colon := LastIndexOf(t, ':');
    e := Endpoint(t[..colon], t[colon + 1..]);
    assert forall k | 0 <= k < |e.port| :: e.port[k] == t[colon + 1 + k];
  }

  lemma TargetIsCut(t: string, rest: string)
    requires 0 < |t| < ENDPOINT_SIZE && ' ' !in t
    ensures ParseConnect("CONNECT " + t + (" " + rest)) == SplitHostPort(t)
  {
    var buf := "CONNECT " + t + (" " + rest);
    var target := t + (" " + rest);
    assert buf[..8] == "CONNECT " && buf[8..] == target;
    assert forall k | 0 <= k < |t| :: target[k] == t[k];
    IndexOfCharUnique(target, ' ', |t|);
    assert target[..|t|] == t;
  }

  lemma OnlyTargetsAreCut(buf: string) returns (t: string, rest: string)
    requires ParseConnect(buf).Some?
    ensures buf == "CONNECT " + t + (" " + rest) && ' ' !in t && ParseConnect(buf) == SplitHostPort(t)
  {
    var target := buf[8..];
    var space := IndexOfChar(target, ' ');
    t, rest := target[..space], target[space + 1..];
    assert forall k | 0 <= k < |t| :: t[k] == target[k];
    assert target == t + (" " + rest);
    assert buf == "CONNECT " + target;
  }

  /** A request that names host and port without a space. */
  predicate IsRequestFor(buf: string, e: Endpoint, rest: string) {
    buf == "CONNECT " + (e.host + ":" + e.port) + (" " + rest) && IsSplit(e) && ' ' !in e.host && ' ' !in e.port
  }

  lemma AcceptsRequest(buf: string, e: Endpoint, rest: string)
    requires IsRequestFor(buf, e, rest)
    ensures ParseConnect(buf) == Some(e)
  {
    TargetIsCut(e.host + ":" + e.port, rest);
    SplitsAtColon(e);
  }

  /** Only such requests are accepted. */
  lemma AcceptsOnlyRequests(buf: string) returns (e: Endpoint, rest: string)
    requires ParseConnect(buf).Some?
    ensures ParseConnect(buf) == Some(e) && IsRequestFor(buf, e, rest)
  {
    var t: string;
    t, rest := OnlyTargetsAreCut(buf);
    e := SplitOnlyAtColon(t);
    assert forall k | 0 <= k < |e.host| :: e.host[k] == t[k];
    assert forall k | 0 <= k < |e.port| :: e.port[k] == t[|e.host| + 1 + k];
  }

  // ----- reading a header, one octet at a time -----

  /** A blank line ends just before index `k`. */
  predicate BlankLineAt(s: string, k: int) {
    4 <= k <= |s| && s[k - 4] == '\r' && s[k - 3] == '\n' && s[k - 2] == '\r' && s[k - 1] == '\n'
  }

  predicate HasBlankLine(s: string) {
    exists k | 4 <= k <= |s| :: BlankLineAt(s, k)
  }

  /** The first `k` octets are the header: they end with the first blank line,
      hold no NUL before it, and fit the buffer with its terminator. */
  ghost predicate IsHeader(s: string, size: nat, k: nat) {
    && k < size && BlankLineAt(s, k)
    && (forall j | 0 <= j < k :: !BlankLineAt(s, j))
    && (forall j | 0 <= j < k :: s[j] != '\0')
  }

  lemma {:induction false} CStringPrefix(s: string)
    ensures CString(s) <= s
    ensures |CString(s)| < |s| ==> s[|CString(s)|] == '\0'
    ensures forall j | 0 <= j < |CString(s)| :: s[j] != '\0'
  {
    if |s| > 0 && s[0] != '\0' {
      CStringPrefix(s[1..]);
    }
  }

  /** The read loop of both ends: it takes exactly the header out of the stream. */
  method ReadHeader(stream: string, size: nat) returns (ok: bool, used: nat)
    ensures used <= |stream|
    ensures ok ==> IsHeader(stream, size, used)
    ensures !ok ==> forall k: nat :: !IsHeader(stream, size, k)
    ensures !ok ==> used == |stream| || used + 1 == size || size == 0
    ensures used + 1 <= size || used == 0
  {
    used := 0;
    while used + 1 < size
      invariant used <= |stream| && (used < size || used == 0)
      invariant forall k: nat | k <= used :: !IsHeader(stream, size, k)
      decreases size - used
    {
      if used == |stream| {
        return false, used;
      }
      used := used + 1;
      var buf := stream[..used];
      if HasBlankLine(CString(buf)) {
        FoundHeader(stream, size, used);
        return true, used;
      }
      NotYet(stream, size, used);
    }
    return false, used;
  }

  lemma FoundHeader(stream: string, size: nat, used: nat)
    requires 0 < used <= |stream| && used < size
    requires HasBlankLine(CString(stream[..used]))
    requires forall k: nat | k < used :: !IsHeader(stream, size, k)
    ensures IsHeader(stream, size, used)
  {
    var buf := stream[..used];
    CStringPrefix(buf);
    var k := FirstBlankLine(CString(buf));
    forall j | 0 <= j <= k
      ensures BlankLineAt(stream, j) == BlankLineAt(CString(buf), j)
    {
    }
    assert IsHeader(stream, size, k);
  }

  lemma FirstBlankLine(s: string) returns (k: nat)
    requires HasBlankLine(s)
    ensures BlankLineAt(s, k) && forall j | 0 <= j < k :: !BlankLineAt(s, j)
  {
    k := 0;
    while !BlankLineAt(s, k)
      invariant k <= |s| && forall j | 0 <= j < k :: !BlankLineAt(s, j)
      decreases |s| - k
    {
      k := k + 1;
    }
  }

  lemma NotYet(stream: string, size: nat, used: nat)
    requires 0 < used <= |stream| && !HasBlankLine(CString(stream[..used]))
    ensures !IsHeader(stream, size, used)
  {
    var buf := stream[..used];
    CStringPrefix(buf);
    if IsHeader(stream, size, used) {
      assert CString(buf) == buf;
      assert BlankLineAt(buf, used);
    }
  }

  // ----- the messages -----

  const CRLF: string := "\r\n"

  /** Lines, each ended by CRLF, and a blank line. */
  function Message(lines: seq<string>): string {
    if |lines| == 0 then CRLF else lines[0] + (CRLF + Message(lines[1..]))
  }

  predicate IsBreak(c: char) {
    c == '\r' || c == '\n'
  }

  predicate NoNul(s: string) {
    forall i | 0 <= i < |s| :: s[i] != '\0'
  }

  /** Text without line breaks. */
  predicate IsPlain(s: string) {
    NoNul(s) && forall i | 0 <= i < |s| :: !IsBreak(s[i])
  }

  /** A line of a message. It neither begins nor ends with a line break; inside
      it may have some, but no blank line. */
  predicate IsLine(l: string) {
    |l| > 0 && NoNul(l) && !HasBlankLine(l) && !IsBreak(l[0]) && !IsBreak(l[|l| - 1])
  }

  lemma PlainIsLine(l: string)
    requires |l| > 0 && IsPlain(l)
    ensures IsLine(l)
  {
    assert forall k | 4 <= k <= |l| && BlankLineAt(l, k) :: IsBreak(l[k - 4]);
  }

  /** Plain text around any text: a blank line of the whole is one of the middle. */
  lemma OnlyInTheMiddle(front: string, middle: string, back: string, k: int)
    requires IsPlain(front) && IsPlain(back) && BlankLineAt(front + middle + back, k)
    ensures BlankLineAt(middle, k - |front|)
  {
    var l := front + middle + back;
    assert forall i | 0 <= i < |front| :: l[i] == front[i];
    assert forall i | 0 <= i < |middle| :: l[|front| + i] == middle[i];
    assert forall i | 0 <= i < |back| :: l[|front| + |middle| + i] == back[i];
    assert IsBreak(l[k - 4]) && IsBreak(l[k - 1]);
    assert |front| <= k - 4 && k <= |front| + |middle|;
  }

  lemma Wrapped(front: string, middle: string, back: string)
    requires |front| > 0 && |back| > 0 && IsPlain(front) && IsPlain(back)
    requires NoNul(middle) && !HasBlankLine(middle)
    ensures IsLine(front + middle + back)
  {
    var l := front + middle + back;
    forall k | 4 <= k <= |l|
      ensures !BlankLineAt(l, k)
    {
      if BlankLineAt(l, k) {
        OnlyInTheMiddle(front, middle, back, k);
      }
    }
    assert l[0] == front[0] && l[|l| - 1] == back[|back| - 1];
  }

  /** The first blank line of a message is its end, whatever follows it. */
  lemma {:induction false} NoEarlyBlankLine(lines: seq<string>, tail: string, j: int)
    requires forall i | 0 <= i < |lines| :: IsLine(lines[i])
    requires j < |Message(lines)|
    ensures !BlankLineAt(Message(lines) + tail, j)
  {
    if |lines| > 0 && 4 <= j {
      var l, rest := lines[0], Message(lines[1..]);
      var n := |l|;
      var s := Message(lines) + tail;
      assert s == l + (CRLF + (rest + tail));
      if j <= n {
        assert BlankLineAt(s, j) ==> BlankLineAt(l, j);
      } else if j - 4 < n {
        assert s[n - 1] == l[n - 1];
      } else if j - 4 == n {
        assert s[j - 2] == rest[0];
        assert |lines| > 1;
        assert rest[0] == lines[1][0];
      } else if j - 4 == n + 1 {
        assert s[j - 4] == '\n';
      } else {
        NoEarlyBlankLine(lines[1..], tail, j - n - 2);
        assert s[n + 2..] == rest + tail;
      }
    }
  }

  lemma {:induction false} EndsWithBlankLine(lines: seq<string>, tail: string)
    requires |lines| > 0
    ensures |Message(lines)| >= 4 && BlankLineAt(Message(lines) + tail, |Message(lines)|)
  {
    var l, rest := lines[0], Message(lines[1..]);
    var s := Message(lines) + tail;
    assert s == (l + CRLF) + (rest + tail);
    if |lines| > 1 {
      EndsWithBlankLine(lines[1..], tail);
      var m, n := |rest|, |l| + 2;
      assert forall k | 0 <= k < m :: s[n + k] == (rest + tail)[k];
    }
  }

  lemma {:induction false} MessageHasNoNul(lines: seq<string>)
    requires forall i | 0 <= i < |lines| :: IsLine(lines[i])
    ensures forall j | 0 <= j < |Message(lines)| :: Message(lines)[j] != '\0'
  {
    if |lines| > 0 {
      MessageHasNoNul(lines[1..]);
    }
  }

  lemma MessageIsHeader(lines: seq<string>, tail: string, size: nat)
    requires |lines| > 0 && (forall i | 0 <= i < |lines| :: IsLine(lines[i]))
    requires |Message(lines)| < size
    ensures IsHeader(Message(lines) + tail, size, |Message(lines)|)
  {
    EndsWithBlankLine(lines, tail);
    MessageHasNoNul(lines);
    forall j | 0 <= j < |Message(lines)|
      ensures !BlankLineAt(Message(lines) + tail, j)
    {
      NoEarlyBlankLine(lines, tail, j);
    }
  }

  function Target(e: Endpoint): string {
    e.host + ":" + e.port
  }

  function RequestLines(e: Endpoint): seq<string> {
    ["CONNECT " + Target(e) + " HTTP/1.1", "Host: " + Target(e), "User-Agent: wcat/0.1"]
  }

  /** The request of `http_connect_negotiate`. */
  function Request(e: Endpoint): string {
    Message(RequestLines(e))
  }

  /** What a client may be told to ask for: a host that fits, with a port. */
  predicate IsNamed(e: Endpoint) {
    && 0 < |e.host| < HOST_SIZE && NoNul(e.host)
    && 0 < |e.port| < PORT_SIZE && AllDigits(e.port) && 1 <= DigitsValue(e.port) <= 65535
  }

  /** Those that come through: the host has no space and no blank line. */
  predicate IsEndpoint(e: Endpoint) {
    IsNamed(e) && ' ' !in e.host && !HasBlankLine(e.host)
  }

  lemma PortIsRead(port: string)
    requires |port| > 0 && AllDigits(port) && 1 <= DigitsValue(port) <= 65535
    ensures ParsePort(port) > 0
  {
    StrToLDigits(port);
  }

  /** Splitting at the last colon finds the port, colons in the host or not. */
  lemma SplitsTarget(e: Endpoint)
    requires IsNamed(e)
    ensures SplitHostPort(Target(e)) == Some(e)
  {
    LastColon(e.host, e.port);
    PortIsRead(e.port);
  }

  lemma ParsesRequestLine(e: Endpoint, tail: string)
    requires IsNamed(e) && ' ' !in e.host
    ensures ParseConnect("CONNECT " + Target(e) + (" " + tail)) == Some(e)
  {
    TargetIsCut(Target(e), tail);
    SplitsTarget(e);
  }

  lemma RequestShape(e: Endpoint) returns (tail: string)
    ensures Request(e) == "CONNECT " + Target(e) + (" " + tail)
  {
    var lines := RequestLines(e);
    tail := "HTTP/1.1" + (CRLF + Message(lines[1..]));
    assert lines[0] == "CONNECT " + Target(e) + (" " + "HTTP/1.1");
    Assoc("CONNECT " + Target(e), " " + "HTTP/1.1", CRLF + Message(lines[1..]));
    Assoc(" ", "HTTP/1.1", CRLF + Message(lines[1..]));
  }

  lemma RequestLinesAreLines(e: Endpoint)
    requires IsEndpoint(e)
    ensures forall i | 0 <= i < 3 :: IsLine(RequestLines(e)[i])
  {
    var lines := RequestLines(e);
    var first, second := ":" + e.port + " HTTP/1.1", ":" + e.port;
    assert forall i | 0 <= i < |e.port| :: IsDigit(e.port[i]);
    Wrapped("CONNECT ", e.host, first);
    Wrapped("Host: ", e.host, second);
    PlainIsLine(lines[2]);
    assert lines[0] == "CONNECT " + e.host + first;
    assert lines[1] == "Host: " + e.host + second;
  }

  /** The server takes exactly the client's request out of whatever follows it
      and recovers the endpoint. */
  lemma ConnectRoundTrip(e: Endpoint, tail: string)
    requires IsEndpoint(e) && |Request(e)| < REQUEST_SIZE
    ensures IsHeader(Request(e) + tail, SERVER_BUFFER, |Request(e)|)
    ensures ParseConnect(Request(e)) == Some(e)
  {
    RequestLinesAreLines(e);
    MessageIsHeader(RequestLines(e), tail, SERVER_BUFFER);
    var rest := RequestShape(e);
    ParsesRequestLine(e, rest);
  }

  /** A space in the host is the one thing that keeps the parser from getting
      it back: the request line ends there. */
  lemma ParsesBackIff(e: Endpoint)
    requires IsNamed(e)
    ensures ParseConnect(Request(e)) == Some(e) <==> ' ' !in e.host
  {
    var tail := RequestShape(e);
    if ' ' !in e.host {
      ParsesRequestLine(e, tail);
    } else {
      var t, buf := Target(e), Request(e);
      var rest := buf[8..];
      assert rest == t + (" " + tail);
      var i := IndexOfChar(e.host, ' ');
      assert i < |e.host| && forall k | 0 <= k <= i :: rest[k] == e.host[k];
      IndexOfCharUnique(rest, ' ', i);
    }
  }

  /** And a blank line in it is the one thing that ends the header too early. */
  lemma ComesThroughIff(e: Endpoint, tail: string)
    requires IsNamed(e) && |Request(e)| < REQUEST_SIZE
    ensures IsHeader(Request(e) + tail, SERVER_BUFFER, |Request(e)|) && ParseConnect(Request(e)) == Some(e) <==>
            IsEndpoint(e)
  {
    ParsesBackIff(e);
    if IsEndpoint(e) {
      ConnectRoundTrip(e, tail);
    } else if HasBlankLine(e.host) {
      BlankLineEndsHeader(e, tail);
    }
  }

  lemma BlankLineEndsHeader(e: Endpoint, tail: string)
    requires HasBlankLine(e.host)
    ensures !IsHeader(Request(e) + tail, SERVER_BUFFER, |Request(e)|)
  {
    var k := FirstBlankLine(e.host);
    var rest := RequestShape(e);
    var s := Request(e) + tail;
    assert Request(e) == "CONNECT " + (e.host + (":" + e.port + (" " + rest)));
    assert forall i | 0 <= i < |e.host| :: s[8 + i] == e.host[i];
    assert BlankLineAt(s, 8 + k);
  }

  lemma HeaderUnique(s: string, size: nat, j: nat, k: nat)
    requires IsHeader(s, size, j) && IsHeader(s, size, k)
    ensures j == k
  {
  }

  /** The head of `serve_proxy_client`: the endpoint asked for and how much of
      the stream was read; no endpoint means 400. */
  method ServeRequest(stream: string) returns (r: Option<Endpoint>, used: nat)
    ensures used <= |stream|
    ensures forall k: nat | IsHeader(stream, SERVER_BUFFER, k) :: used == k && r == ParseConnect(stream[..k])
    ensures (forall k: nat :: !IsHeader(stream, SERVER_BUFFER, k)) ==> r == None
    ensures forall e: Endpoint, tail: string |
              IsNamed(e) && |Request(e)| < REQUEST_SIZE && stream == Request(e) + tail ::
              r == Some(e) && used == |Request(e)| <==> IsEndpoint(e)
  {
    var ok: bool;
    ok, used := ReadHeader(stream, SERVER_BUFFER);
    r := if ok then ParseConnect(stream[..used]) else None;
    forall k: nat | IsHeader(stream, SERVER_BUFFER, k)
      ensures used == k
    {
      if ok {
        HeaderUnique(stream, SERVER_BUFFER, used, k);
      }
    }
    forall e: Endpoint, tail: string |
      IsNamed(e) && |Request(e)| < REQUEST_SIZE && stream == Request(e) + tail
      ensures r == Some(e) && used == |Request(e)| <==> IsEndpoint(e)
    {
      ComesThroughIff(e, tail);
      assert stream[..|Request(e)|] == Request(e);
    }
  }

  // ----- the answer -----

  /** `write_proxy_response`. */
  function Response(status: nat, text: string): string {
    Message(["HTTP/1.1 " + Decimal(status) + " " + text])
  }

  /** The server's three answers. */
  function Reply(parsed: bool, connected: bool): string {
    if !parsed then Response(400, "Bad Request")
    else if !connected then Response(502, "Bad Gateway")
    else Response(200, "Connection Established")
  }

  predicate OkAt(s: string, k: int) {
    0 <= k && k + 5 <= |s| && s[k] == ' ' && s[k + 1] == '2' && s[k + 2] == '0' && s[k + 3] == '0' && s[k + 4] == ' '
  }

  /** The client's status check, `strstr(buf, " 200 ")`. */
  predicate SaysOk(s: string) {
    exists k | 0 <= k < |s| :: OkAt(s, k)
  }

  lemma ResponseIsHeader(status: nat, text: string, tail: string)
    requires IsPlain(text) && |Response(status, text)| < CLIENT_BUFFER
    ensures IsHeader(Response(status, text) + tail, CLIENT_BUFFER, |Response(status, text)|)
  {
    DecimalRoundTrip(status);
    var line := "HTTP/1.1 " + Decimal(status) + " " + text;
    PlainIsLine(line);
    MessageIsHeader([line], tail, CLIENT_BUFFER);
  }

  /** What a reader gets of a stream when the read after `limit` octets fails
      or is interrupted; to the client that is the end. */
  function Arriving(stream: string, limit: nat): string {
    if limit < |stream| then stream[..limit] else stream
  }

  /** The rest of `http_connect_negotiate`. A response that fills the buffer
      without a blank line goes to the status check as well. */
  method AwaitResponse(stream: string, limit: nat) returns (ok: bool, used: nat)
    ensures var s := Arriving(stream, limit);
            && used <= |s|
            && (forall k: nat | IsHeader(s, CLIENT_BUFFER, k) :: used == k && ok == SaysOk(s[..k]))
            && ((forall k: nat :: !IsHeader(s, CLIENT_BUFFER, k)) ==>
                  if |s| + 1 < CLIENT_BUFFER then !ok && used == |s|
                  else used == CLIENT_BUFFER - 1 && ok == SaysOk(CString(s[..used])))
  {
    var s := Arriving(stream, limit);
    var complete: bool;
    complete, used := ReadHeader(s, CLIENT_BUFFER);
    forall k: nat | IsHeader(s, CLIENT_BUFFER, k)
      ensures used == k
    {
      if complete {
        HeaderUnique(s, CLIENT_BUFFER, used, k);
      }
    }
    if !complete && used + 1 < CLIENT_BUFFER {
      return false, used;
    }
    var buf := s[..used];
    if complete {
      NoNulIsWhole(buf);
    }
    ok := SaysOk(CString(buf));
  }

  lemma OneLine(l: string)
    ensures Message([l]) == l + (CRLF + CRLF)
  {
    assert [l][1..] == [];
    assert Message([]) == CRLF;
  }

  lemma ThreeDigits(status: nat)
    requires 100 <= status <= 999
    ensures Decimal(status) == [Digit(status / 100), Digit(status / 10 % 10), Digit(status % 10)]
  {
    assert status / 10 / 10 == status / 100;
    assert Decimal(status / 100) == [Digit(status / 100)];
    assert Decimal(status / 10) == Decimal(status / 100) + [Digit(status / 10 % 10)];
  }

  /** The client's search for " 200 " finds the status, or a 200 on its own in
      the reason phrase. */
  lemma StatusIsRead(status: nat, text: string)
    requires 100 <= status <= 999
    ensures SaysOk(Response(status, text)) <==> status == 200 || SaysOk(" " + text)
  {
    var d, phrase := Decimal(status), " " + text;
    ThreeDigits(status);
    var s := Response(status, text);
    ResponseShape(status, text);
    assert forall k | 0 <= k < 3 :: s[9 + k] == d[k] && IsDigit(d[k]);
    assert forall k | 0 <= k < |phrase| :: s[12 + k] == phrase[k];
    assert OkAt(s, 8) <==> d == "200";
    assert forall k | 0 <= k < 12 && k != 8 :: s[k] != ' ';
    forall k | OkAt(s, k)
      ensures k == 8 || OkAt(phrase, k - 12)
    {
      EndOfPhrase(s, |phrase|, k);
    }
    forall k | OkAt(phrase, k)
      ensures OkAt(s, 12 + k)
    {
    }
    assert d == "200" <==> status == 200;
  }

  lemma ResponseShape(status: nat, text: string)
    requires 100 <= status <= 999
    ensures var s, phrase := Response(status, text), " " + text;
            && |s| == 12 + |phrase| + 4
            && s == "HTTP/1.1 " + (Decimal(status) + (phrase + (CRLF + CRLF)))
            && s[12 + |phrase|..] == CRLF + CRLF
  {
    ThreeDigits(status);
    var d, phrase := Decimal(status), " " + text;
    var line := "HTTP/1.1 " + d + " " + text;
    OneLine(line);
    assert line == "HTTP/1.1 " + (d + phrase);
    assert (("HTTP/1.1 " + (d + phrase)) + (CRLF + CRLF)) == "HTTP/1.1 " + (d + (phrase + (CRLF + CRLF)));
  }

  /** A match does not reach into the line breaks at the end. */
  lemma EndOfPhrase(s: string, n: nat, k: int)
    requires |s| == 12 + n + 4 && s[12 + n..] == CRLF + CRLF && OkAt(s, k)
    ensures k + 5 <= 12 + n
  {
    assert forall i | 0 <= i < 4 :: s[12 + n + i] == (CRLF + CRLF)[i];
  }

  /** So a refusal that mentions a 200 is taken for success. */
  lemma MisreadStatus()
    ensures SaysOk(Response(502, "no 200 here"))
  {
    assert " " + "no 200 here" == " no 200 here" && OkAt(" no 200 here", 3);
    StatusIsRead(502, "no 200 here");
  }

  lemma NoTwo(text: string)
    requires forall i | 0 <= i < |text| :: text[i] != '2'
    ensures !SaysOk(" " + text)
  {
    assert forall k | 0 <= k < |text| :: (" " + text)[k + 1] == text[k];
  }

  /** The messages, spelled out. */
  lemma RequestText(e: Endpoint)
    ensures var t := e.host + ":" + e.port;
            Request(e) == "CONNECT " + t + " HTTP/1.1" + ("\r\n" + ("Host: " + t + ("\r\n" +
                          ("User-Agent: wcat/0.1" + ("\r\n" + "\r\n")))))
  {
    var t := Target(e);
    ThreeLines("CONNECT " + t + " HTTP/1.1", "Host: " + t, "User-Agent: wcat/0.1");
  }

  lemma ResponseText(status: nat, text: string)
    ensures Response(status, text) == "HTTP/1.1 " + Decimal(status) + " " + text + ("\r\n" + "\r\n")
  {
    OneLine("HTTP/1.1 " + Decimal(status) + " " + text);
  }

  lemma ThreeLines(a: string, b: string, c: string)
    ensures Message([a, b, c]) == a + (CRLF + (b + (CRLF + (c + (CRLF + CRLF)))))
  {
    assert [a, b, c][1..] == [b, c] && [b, c][1..] == [c];
    OneLine(c);
  }

  /** Both ends together: `stream` is what the client sends, `connected` whether
      the server reaches the endpoint asked for, `written` how many octets of
      its answer the server gets out, and `tail` what its end sends after a
      whole answer. A client that asks for an endpoint succeeds exactly when it
      was reached and the whole answer got through; the server took exactly the
      request, and the client exactly the answer, so both tails are left for
      the relay. */
  method Handshake(stream: string, connected: bool, written: nat, tail: string)
    returns (target: Option<Endpoint>, taken: nat, ok: bool, answer: string, used: nat)
    ensures ok ==> connected && target.Some? && written >= |answer|
    ensures forall k: nat | IsHeader(stream, SERVER_BUFFER, k) :: taken == k && target == ParseConnect(stream[..k])
    ensures forall e: Endpoint, rest: string |
              IsEndpoint(e) && |Request(e)| < REQUEST_SIZE && stream == Request(e) + rest ::
              target == Some(e) && taken == |Request(e)| && ok == (connected && written >= |answer|)
    ensures answer == Reply(target.Some?, connected)
    ensures used == if written < |answer| then written else |answer|
  {
    target, taken := ServeRequest(stream);
    ok, answer, used := SendReply(target.Some?, connected, written, tail);
  }

  /** Of the three answers the client takes exactly the 200 for success. */
  method SendReply(parsed: bool, connected: bool, written: nat, tail: string)
    returns (ok: bool, answer: string, used: nat)
    ensures answer == Reply(parsed, connected)
    ensures ok == (parsed && connected && written >= |answer|)
    ensures used == if written < |answer| then written else |answer|
  {
    NoTwo("Bad Request");
    NoTwo("Bad Gateway");
    NoTwo("Connection Established");
    if !parsed {
      ok, answer, used := Answer(400, "Bad Request", written, tail);
    } else if !connected {
      ok, answer, used := Answer(502, "Bad Gateway", written, tail);
    } else {
      ok, answer, used := Answer(200, "Connection Established", written, tail);
    }
  }

  /** What is left of an answer that was cut short has no blank line. */
  lemma CutAnswerHasNoEnd(status: nat, text: string, n: nat, k: nat)
    requires IsPlain(text) && n < |Response(status, text)|
    ensures !IsHeader(Response(status, text)[..n], CLIENT_BUFFER, k)
  {
    var line := "HTTP/1.1 " + Decimal(status) + " " + text;
    DecimalRoundTrip(status);
    PlainIsLine(line);
    if 4 <= k <= n {
      var whole := Message([line]);
      NoEarlyBlankLine([line], "", k);
      assert whole + "" == whole;
      assert BlankLineAt(whole[..n], k) ==> BlankLineAt(whole, k);
    }
  }

  /** One answer on its way to the client. */
  method Answer(status: nat, text: string, written: nat, tail: string) returns (ok: bool, answer: string, used: nat)
    requires 100 <= status <= 999 && IsPlain(text) && |text| <= 100
    ensures answer == Response(status, text)
    ensures ok == ((status == 200 || SaysOk(" " + text)) && written >= |answer|)
    ensures used == if written < |answer| then written else |answer|
  {
    answer := Response(status, text);
    AnswerIsShort(status, text);
    if written < |answer| {
      forall k: nat
        ensures !IsHeader(answer[..written], CLIENT_BUFFER, k)
      {
        CutAnswerHasNoEnd(status, text, written, k);
      }
      ok, used := AwaitResponse(answer[..written], written);
    } else {
      ResponseIsHeader(status, text, tail);
      StatusIsRead(status, text);
      assert (answer + tail)[..|answer|] == answer;
      ok, used := AwaitResponse(answer + tail, |answer + tail|);
    }
  }

  lemma AnswerIsShort(status: nat, text: string)
    requires 100 <= status <= 999 && |text| <= 100
    ensures |Response(status, text)| + 1 < CLIENT_BUFFER
  {
    ThreeDigits(status);
    OneLine("HTTP/1.1 " + Decimal(status) + " " + text);
  }
}
