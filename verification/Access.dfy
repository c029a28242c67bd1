/** Allow and deny lists of src/access.c. */
module Access {
  import opened Text
  import opened Cidr

  const IP_SIZE: nat := 46     // INET6_ADDRSTRLEN
  const TOKEN_SIZE: nat := 54  // INET6_ADDRSTRLEN + 8

  datatype Family = V4 | V6

  function Width(f: Family): nat {
    if f == V4 then 4 else 16
  }

  type Octets4 = s: seq<bv8> | |s| == 4 witness [0, 0, 0, 0]
  type Octets16 = s: seq<bv8> | |s| == 16 witness [0, 0, 0, 0, 0, 0, 0, 0, 0, 0, 0, 0, 0, 0, 0, 0]

  /** `inet_pton`, as two partial functions. */
  datatype Inet = Inet(v4: string -> Option<Octets4>, v6: string -> Option<Octets16>)

  datatype Peer = Peer(family: Family, addr: seq<bv8>)

  predicate IsPeer(p: Peer) {
    |p.addr| == Width(p.family)
  }

  datatype Net = Net(family: Family, addr: seq<bv8>, bits: nat)

  predicate IsNet(n: Net) {
    |n.addr| == Width(n.family) && n.bits <= 8 * |n.addr|
  }

  type Block = n: Net | IsNet(n) witness Net(V4, [0, 0, 0, 0], 0)

  /** What turns a token into a network; `ParseNet` over some `inet_pton`. */
  type Parser = string -> Option<Block>

  function ParseBits(s: string, max: nat): (r: Option<nat>)
    ensures r.Some? ==> r.value <= max
  {
    var n := StrToL(s);
    if n.used == 0 || n.used != |s| || n.value < 0 || n.value > max then None else Some(n.value)
  }

  function ParseNet(inet: Inet, spec: string): Option<Block> {
    var slash := IndexOfChar(spec, '/');
    if slash == 0 || slash >= IP_SIZE then None
    else
      var ip := spec[..slash];
      var four, six := inet.v4(ip), inet.v6(ip);
      if four.None? && six.None? then None
      else
        var max := if four.Some? then 32 else 128;
        var bits := if slash == |spec| then Some(max) else ParseBits(spec[slash + 1..], max);
        if bits.None? then None
        else if four.Some? then Some(Net(V4, four.value, bits.value))
        else Some(Net(V6, six.value, bits.value))
  }

  /** What the text form ADDRESS stands for. */
  lemma ParsesAddress(inet: Inet, ip: string)
    requires 0 < |ip| < IP_SIZE && '/' !in ip
    ensures ParseNet(inet, ip) ==
            if inet.v4(ip).Some? then Some(Net(V4, inet.v4(ip).value, 32))
            else if inet.v6(ip).Some? then Some(Net(V6, inet.v6(ip).value, 128)) else None
  {
    IndexOfCharUnique(ip, '/', |ip|);
    assert ip[..|ip|] == ip;
  }

  lemma ParsesBits(bits: nat, max: nat)
    ensures ParseBits(Decimal(bits), max) == if bits <= max then Some(bits) else None
  {
    DecimalRoundTrip(bits);
    StrToLDigits(Decimal(bits));
  }

  lemma CutAtSlash(ip: string, tail: string)
    requires '/' !in ip
    ensures var spec := ip + "/" + tail;
            IndexOfChar(spec, '/') == |ip| && spec[..|ip|] == ip && spec[|ip| + 1..] == tail && |spec| > |ip|
  {
    IndexOfCharUnique(ip + "/" + tail, '/', |ip|);
  }

  /** What the text form ADDRESS/BITS stands for: a length out of range is refused. */
  lemma ParsesCidrText(inet: Inet, ip: string, bits: nat)
    requires 0 < |ip| < IP_SIZE && '/' !in ip
    ensures ParseNet(inet, ip + "/" + Decimal(bits)) ==
            if inet.v4(ip).Some? then (if bits <= 32 then Some(Net(V4, inet.v4(ip).value, bits)) else None)
            else if inet.v6(ip).Some? && bits <= 128 then Some(Net(V6, inet.v6(ip).value, bits)) else None
  {
    CutAtSlash(ip, Decimal(bits));
    ParsesBits(bits, 32);
    ParsesBits(bits, 128);
  }

  /** The parser the program uses, over some `inet_pton`. */
  function NetParser(inet: Inet): Parser {
    (token: string) => ParseNet(inet, token)
  }

  // ----- entries of a list -----

  predicate IsBlank(c: char) {
    c == ' ' || c == '\t'
  }

  function TrimLeft(s: string): (r: string)
    ensures |r| <= |s|
  {
    if |s| > 0 && IsBlank(s[0]) then TrimLeft(s[1..]) else s
  }

  function TrimRight(s: string): (r: string)
    ensures |r| <= |s|
  {
    if |s| > 0 && IsBlank(s[|s| - 1]) then TrimRight(s[..|s| - 1]) else s
  }

  function Token(entry: string): string {
    TrimRight(TrimLeft(entry))
  }

  /** The network an entry stands for, if it is well formed. */
  function EntryNet(parse: Parser, entry: string): (r: Option<Block>)
    ensures |Token(entry)| == 0 ==> r.None?
  {
    var t := Token(entry);
    if 0 < |t| < TOKEN_SIZE then parse(t) else None
  }

  predicate Hits(net: Option<Block>, peer: Peer)
    requires IsPeer(peer)
  {
    net.Some? && net.value.family == peer.family && MatchNet(peer.addr, net.value.addr, net.value.bits)
  }

  predicate EntryMatches(parse: Parser, entry: string, peer: Peer)
    requires IsPeer(peer)
  {
    Hits(EntryNet(parse, entry), peer)
  }

  /** The list cut at its commas. */
  function Entries(list: string): (r: seq<string>)
    ensures |r| > 0
  {
    var i := IndexOfChar(list, ',');
    if i == |list| then [list] else [list[..i]] + Entries(list[i + 1..])
  }

  /** `list_matches` as the loop goes: entry by entry, up to the end of the string. */
  predicate Matches(parse: Parser, list: string, peer: Peer)
    requires IsPeer(peer)
    decreases |list|
  {
    |list| > 0 &&
    var i := IndexOfChar(list, ',');
    EntryMatches(parse, list[..i], peer) || (i < |list| && Matches(parse, list[i + 1..], peer))
  }

  /** `wcat_access_validate_list` on a list that is given. */
  predicate Validates(parse: Parser, list: string)
    decreases |list|
  {
    |list| == 0 ||
    var i := IndexOfChar(list, ',');
    EntryNet(parse, list[..i]).Some? && (i < |list| ==> Validates(parse, list[i + 1..]))
  }

  /** A peer matches a list exactly when it matches one of its entries. */
  lemma {:induction false} MatchesSomeEntry(parse: Parser, list: string, peer: Peer)
    requires IsPeer(peer)
    ensures Matches(parse, list, peer) <==> exists e | e in Entries(list) :: EntryMatches(parse, e, peer)
    decreases |list|
  {
    var i := IndexOfChar(list, ',');
    assert list[..|list|] == list;
    if i < |list| {
      var rest := list[i + 1..];
      MatchesSomeEntry(parse, rest, peer);
      assert Entries(list) == [list[..i]] + Entries(rest);
      assert list[..i] in Entries(list);
      assert forall e | e in Entries(list) :: e == list[..i] || e in Entries(rest);
      assert forall e | e in Entries(rest) :: e in Entries(list);
    } else {
      assert Entries(list) == [list];
      if |list| == 0 {
        EmptyEntry(parse);
      }
    }
  }

  lemma EmptyEntry(parse: Parser)
    ensures EntryNet(parse, "").None?
  {
  }

  predicate AllParse(parse: Parser, es: seq<string>) {
    forall i | 0 <= i < |es| :: EntryNet(parse, es[i]).Some?
  }

  lemma AllParseCons(parse: Parser, e: string, es: seq<string>)
    ensures AllParse(parse, [e] + es) <==> EntryNet(parse, e).Some? && AllParse(parse, es)
  {
    if AllParse(parse, [e] + es) {
      assert ([e] + es)[0] == e && forall i | 0 <= i < |es| :: ([e] + es)[i + 1] == es[i];
    }
  }

  /** All entries are well formed; only an empty one at the very end is let through. */
  predicate WellListed(parse: Parser, es: seq<string>)
    requires |es| > 0
  {
    var n := |es| - 1;
    AllParse(parse, es[..n]) && (es[n] == "" || EntryNet(parse, es[n]).Some?)
  }

  lemma WellListedCons(parse: Parser, e: string, es: seq<string>)
    requires |es| > 0
    ensures WellListed(parse, [e] + es) <==> EntryNet(parse, e).Some? && WellListed(parse, es)
  {
    var all, n := [e] + es, |es| - 1;
    assert all[..n + 1] == [e] + es[..n] && all[n + 1] == es[n];
    AllParseCons(parse, e, es[..n]);
  }

  /** Exactly the lists whose entries are all well formed validate; only an
      empty entry at the very end is let through. */
  lemma {:induction false} ValidatesIff(parse: Parser, list: string)
    ensures Validates(parse, list) <==> WellListed(parse, Entries(list))
    decreases |list|
  {
    var i := IndexOfChar(list, ',');
    if i < |list| {
      ValidatesIff(parse, list[i + 1..]);
      WellListedCons(parse, list[..i], Entries(list[i + 1..]));
    } else {
      assert list[..i] == list && Entries(list) == [list];
    }
  }

  /** Appending a list adds exactly its matches. */
  lemma {:induction false} MatchesConcat(parse: Parser, a: string, b: string, peer: Peer)
    requires IsPeer(peer)
    ensures Matches(parse, a + "," + b, peer) <==> Matches(parse, a, peer) || Matches(parse, b, peer)
    decreases |a|
  {
    var whole := a + "," + b;
    var i := IndexOfChar(a, ',');
    IndexOfCharUnique(whole, ',', i);
    assert whole[..i] == a[..i];
    if i < |a| {
      assert whole[i + 1..] == a[i + 1..] + "," + b;
      MatchesConcat(parse, a[i + 1..], b, peer);
    } else {
      assert a[..i] == a && whole[i + 1..] == b;
      if |a| == 0 {
        EmptyEntry(parse);
      }
    }
  }

  // ----- the decision -----

  /** `wcat_access_check_fd`; no peer stands for a failed address lookup. */
  predicate Admits(parse: Parser, allow: Option<string>, deny: Option<string>, peer: Option<Peer>)
    requires peer.Some? ==> IsPeer(peer.value)
  {
    if allow.None? && deny.None? then true
    else if peer.None? then false
    else if deny.Some? && Matches(parse, deny.value, peer.value) then false
    else if allow.Some? && !Matches(parse, allow.value, peer.value) then false
    else true
  }

  /** Without the peer's address, only a program without lists admits it. */
  lemma NoAddressDecides(parse: Parser, allow: Option<string>, deny: Option<string>)
    ensures Admits(parse, allow, deny, None) <==> allow.None? && deny.None?
    ensures allow.None? && deny.None? ==> forall peer: Peer | IsPeer(peer) :: Admits(parse, allow, deny, Some(peer))
  {
  }

  /** More deny entries never admit more. */
  lemma DenyIsAntitone(parse: Parser, allow: Option<string>, deny: string, more: string, peer: Option<Peer>)
    requires peer.Some? ==> IsPeer(peer.value)
    ensures Admits(parse, allow, Some(deny + "," + more), peer) ==> Admits(parse, allow, Some(deny), peer)
    ensures Admits(parse, allow, Some(deny), peer) ==> Admits(parse, allow, None, peer)
  {
    if peer.Some? {
      MatchesConcat(parse, deny, more, peer.value);
    }
  }

  /** More allow entries, on a list that is there, never admit less. */
  lemma AllowIsMonotone(parse: Parser, allow: string, more: string, deny: Option<string>, peer: Option<Peer>)
    requires peer.Some? ==> IsPeer(peer.value)
    ensures Admits(parse, Some(allow), deny, peer) ==> Admits(parse, Some(allow + "," + more), deny, peer)
  {
    if peer.Some? {
      MatchesConcat(parse, allow, more, peer.value);
    }
  }

  /** Addresses of the same width in the same block, as numbers. */
  predicate InBlock(peer: Peer, net: Net)
    requires IsPeer(peer) && IsNet(net)
  {
    && peer.family == net.family
    && var d := Pow2(8 * |net.addr| - net.bits);
       BigEndian(peer.addr) / d == BigEndian(net.addr) / d
  }

  /** The decision in full: deny first, then allow, and each list stands for
      the union of the blocks of its well-formed entries. */
  lemma AdmitsIff(parse: Parser, allow: Option<string>, deny: Option<string>, peer: Peer)
    requires IsPeer(peer)
    ensures Admits(parse, allow, deny, Some(peer)) <==>
            (deny.Some? ==> !InList(parse, deny.value, peer)) && (allow.Some? ==> InList(parse, allow.value, peer))
  {
    if deny.Some? {
      MatchesIsInList(parse, deny.value, peer);
    }
    if allow.Some? {
      MatchesIsInList(parse, allow.value, peer);
    }
  }

  ghost predicate InList(parse: Parser, list: string, peer: Peer)
    requires IsPeer(peer)
  {
    exists e | e in Entries(list) :: EntryNet(parse, e).Some? && InBlock(peer, EntryNet(parse, e).value)
  }

  lemma MatchesIsInList(parse: Parser, list: string, peer: Peer)
    requires IsPeer(peer)
    ensures Matches(parse, list, peer) <==> InList(parse, list, peer)
  {
    MatchesSomeEntry(parse, list, peer);
    forall e | e in Entries(list)
      ensures EntryMatches(parse, e, peer) <==> EntryNet(parse, e).Some? && InBlock(peer, EntryNet(parse, e).value)
    {
      EntryIsBlock(parse, e, peer);
    }
  }

  lemma EntryIsBlock(parse: Parser, e: string, peer: Peer)
    requires IsPeer(peer)
    ensures EntryMatches(parse, e, peer) <==> EntryNet(parse, e).Some? && InBlock(peer, EntryNet(parse, e).value)
  {
    var net := EntryNet(parse, e);
    if net.Some? && net.value.family == peer.family {
      MatchIsArithmetic(peer.addr, net.value.addr, net.value.bits);
    }
  }

  /** A list that validates has no entry that is skipped: each one but a
      trailing empty one stands for a block. */
  lemma NothingSkipped(parse: Parser, list: string, e: string)
    requires Validates(parse, list) && e in Entries(list) && |Token(e)| > 0
    ensures EntryNet(parse, e).Some?
  {
    ValidatesIff(parse, list);
    var es := Entries(list);
    var n := |es| - 1;
    assert es == es[..n] + [es[n]];
  }

  // ----- lists as they are written: ADDRESS/BITS, separated by commas -----

  /** One entry, with the blanks around it. */
  datatype Written = Written(before: string, ip: string, bits: nat, after: string)

  function CidrText(w: Written): string {
    w.ip + "/" + Decimal(w.bits)
  }

  function WrittenText(w: Written): string {
    w.before + CidrText(w) + w.after
  }

  predicate AllBlank(s: string) {
    forall i | 0 <= i < |s| :: IsBlank(s[i])
  }

  /** An address that `inet_pton` takes, with a prefix length for its family. */
  predicate IsWritten(inet: Inet, w: Written) {
    && 0 < |w.ip| < IP_SIZE
    && (forall i | 0 <= i < |w.ip| :: w.ip[i] != '/' && w.ip[i] != ',' && !IsBlank(w.ip[i]))
    && AllBlank(w.before) && AllBlank(w.after)
    && if inet.v4(w.ip).Some? then w.bits <= 32 else inet.v6(w.ip).Some? && w.bits <= 128
  }

  function BlockOf(inet: Inet, w: Written): Block
    requires IsWritten(inet, w)
  {
    if inet.v4(w.ip).Some? then Net(V4, inet.v4(w.ip).value, w.bits) else Net(V6, inet.v6(w.ip).value, w.bits)
  }

  function ListText(ws: seq<Written>): string
    requires |ws| > 0
  {
    if |ws| == 1 then WrittenText(ws[0]) else WrittenText(ws[0]) + "," + ListText(ws[1..])
  }

  /** Blanks around a token do not count. */
  lemma TokenTrims(before: string, t: string, after: string)
    requires |t| > 0 && !IsBlank(t[0]) && !IsBlank(t[|t| - 1]) && AllBlank(before) && AllBlank(after)
    ensures Token(before + t + after) == t
  {
    Assoc(before, t, after);
    TrimsLeft(before, t + after);
    TrimsRight(t, after);
  }

  lemma {:induction false} TrimsLeft(before: string, t: string)
    requires AllBlank(before) && |t| > 0 && !IsBlank(t[0])
    ensures TrimLeft(before + t) == t
  {
    if |before| == 0 {
      assert before + t == t;
    } else {
      TrimsLeft(before[1..], t);
      assert (before + t)[1..] == before[1..] + t;
    }
  }

  lemma {:induction false} TrimsRight(t: string, after: string)
    requires AllBlank(after) && |t| > 0 && !IsBlank(t[|t| - 1])
    ensures TrimRight(t + after) == t
    decreases |after|
  {
    if |after| == 0 {
      assert t + after == t;
    } else {
      var fewer := after[..|after| - 1];
      TrimsRight(t, fewer);
      assert (t + after)[..|t + after| - 1] == t + fewer;
    }
  }

  lemma CidrTextShape(inet: Inet, w: Written)
    requires IsWritten(inet, w)
    ensures var t := CidrText(w);
            && 0 < |t| < TOKEN_SIZE && !IsBlank(t[0]) && !IsBlank(t[|t| - 1]) && ',' !in t
  {
    var t, d := CidrText(w), Decimal(w.bits);
    DecimalRoundTrip(w.bits);
    assert Pow10(3) == 1000;
    DecimalLength(w.bits, 3);
    assert t[0] == w.ip[0] && t[|t| - 1] == d[|d| - 1] && IsDigit(d[|d| - 1]);
  }

  lemma WrittenIsToken(inet: Inet, w: Written)
    requires IsWritten(inet, w)
    ensures ',' !in WrittenText(w) && Token(WrittenText(w)) == CidrText(w)
    ensures 0 < |CidrText(w)| < TOKEN_SIZE
  {
    CidrTextShape(inet, w);
    TokenTrims(w.before, CidrText(w), w.after);
  }

  lemma WrittenStandsFor(inet: Inet, w: Written)
    requires IsWritten(inet, w)
    ensures EntryNet(NetParser(inet), WrittenText(w)) == Some(BlockOf(inet, w))
  {
    WrittenIsToken(inet, w);
    ParsesCidrText(inet, w.ip, w.bits);
  }

  lemma FirstEntry(first: string, rest: string)
    requires ',' !in first
    ensures Entries(first) == [first] && Entries(first + "," + rest) == [first] + Entries(rest)
  {
    IndexOfCharUnique(first, ',', |first|);
    var list := first + "," + rest;
    IndexOfCharUnique(list, ',', |first|);
    assert list[..|first|] == first && list[|first| + 1..] == rest;
  }

  /** A written list is in a block exactly when one of what it lists is. */
  lemma {:induction false} InWrittenList(inet: Inet, ws: seq<Written>, peer: Peer)
    requires IsPeer(peer) && |ws| > 0 && forall w | w in ws :: IsWritten(inet, w)
    ensures InList(NetParser(inet), ListText(ws), peer) <==> exists w | w in ws :: InBlock(peer, BlockOf(inet, w))
    decreases |ws|
  {
    var w, more := ws[0], ws[1..];
    var parse, text := NetParser(inet), WrittenText(w);
    WrittenIsToken(inet, w);
    WrittenStandsFor(inet, w);
    assert ws == [w] + more;
    if |more| == 0 {
      FirstEntry(text, "");
      assert Entries(ListText(ws)) == [text];
      assert text in Entries(ListText(ws));
    } else {
      var rest := ListText(more);
      FirstEntry(text, rest);
      InListCons(parse, text, rest, peer);
      InWrittenList(inet, more, peer);
    }
  }

  lemma InListCons(parse: Parser, first: string, rest: string, peer: Peer)
    requires IsPeer(peer) && ',' !in first
    ensures InList(parse, first + "," + rest, peer) <==>
            (EntryNet(parse, first).Some? && InBlock(peer, EntryNet(parse, first).value)) || InList(parse, rest, peer)
  {
    FirstEntry(first, rest);
    var es := Entries(first + "," + rest);
    assert first in es && forall e | e in es :: e == first || e in Entries(rest);
    assert forall e | e in Entries(rest) :: e in es;
  }

  /** The program on lists as users write them: a peer is admitted exactly when
      its address is in no denied block and in an allowed one. */
  lemma WrittenListsDecide(inet: Inet, allow: seq<Written>, deny: seq<Written>, peer: Peer)
    requires IsPeer(peer) && |allow| > 0 && |deny| > 0
    requires (forall w | w in allow :: IsWritten(inet, w)) && (forall w | w in deny :: IsWritten(inet, w))
    ensures Admits(NetParser(inet), Some(ListText(allow)), Some(ListText(deny)), Some(peer)) <==>
            && (forall w | w in deny :: !InBlock(peer, BlockOf(inet, w)))
            && (exists w | w in allow :: InBlock(peer, BlockOf(inet, w)))
  {
    AdmitsIff(NetParser(inet), Some(ListText(allow)), Some(ListText(deny)), peer);
    InWrittenList(inet, allow, peer);
    InWrittenList(inet, deny, peer);
  }

  // ----- the loops; `rest` is the part of the list still to be read -----

  method TrimToken(entry: string) returns (token: string)
    ensures token == Token(entry)
  {
    token := entry;
    while |token| > 0 && IsBlank(token[0])
      invariant TrimLeft(token) == TrimLeft(entry)
    {
      token := token[1..];
    }
    ghost var left := token;
    while |token| > 0 && IsBlank(token[|token| - 1])
      invariant TrimRight(token) == TrimRight(left)
    {
      token := token[..|token| - 1];
    }
  }

  method FindComma(s: string) returns (comma: nat)
    ensures comma == IndexOfChar(s, ',')
  {
    comma := 0;
    while comma < |s| && s[comma] != ','
      invariant comma <= |s| && forall k | 0 <= k < comma :: s[k] != ','
    {
      comma := comma + 1;
    }
    IndexOfCharUnique(s, ',', comma);
  }

  lemma MatchesUnfold(parse: Parser, s: string, peer: Peer)
    requires IsPeer(peer) && |s| > 0
    ensures var i := IndexOfChar(s, ',');
            var token := Token(s[..i]);
            Matches(parse, s, peer) ==
            ((0 < |token| < TOKEN_SIZE && Hits(parse(token), peer)) || (i < |s| && Matches(parse, s[i + 1..], peer)))
  {
  }

  method ListMatches(parse: Parser, list: string, peer: Peer) returns (r: bool)
    requires IsPeer(peer)
    ensures r == Matches(parse, list, peer)
  {
    var rest := list;
    while |rest| > 0
      invariant Matches(parse, list, peer) == Matches(parse, rest, peer)
    {
      MatchesUnfold(parse, rest, peer);
      var comma := FindComma(rest);
      var token := TrimToken(rest[..comma]);
      var hit := 0 < |token| < TOKEN_SIZE && Hits(parse(token), peer);
      if hit {
        return true;
      }
      if comma == |rest| {
        return false;
      }
      rest := rest[comma + 1..];
    }
    return false;
  }

  method ValidateList(parse: Parser, list: Option<string>) returns (r: int)
    ensures r == if list.None? || Validates(parse, list.value) then 0 else -1
  {
    if list.None? {
      return 0;
    }
    var rest := list.value;
    while |rest| > 0
      invariant Validates(parse, list.value) == Validates(parse, rest)
    {
      var comma := FindComma(rest);
      var token := TrimToken(rest[..comma]);
      if |token| == 0 || |token| >= TOKEN_SIZE {
        return -1;
      }
      var net := parse(token);
      if net.None? {
        return -1;
      }
      if comma == |rest| {
        return 0;
      }
      rest := rest[comma + 1..];
    }
    return 0;
  }

  method CheckPeer(parse: Parser, allow: Option<string>, deny: Option<string>, peer: Option<Peer>) returns (ok: bool)
    requires peer.Some? ==> IsPeer(peer.value)
    ensures ok == Admits(parse, allow, deny, peer)
  {
    if allow.None? && deny.None? {
      return true;
    }
    if peer.None? {
      return false;
    }
    if deny.Some? {
      var denied := ListMatches(parse, deny.value, peer.value);
      if denied {
        return false;
      }
    }
    if allow.Some? {
      ok := ListMatches(parse, allow.value, peer.value);
      return;
    }
    return true;
  }
}
