/** CIDR matching of src/access.c against the arithmetic meaning of a prefix
    (section 3.1 of RFC 4632). */
module Cidr {

  function Value(x: bv8): (v: nat)
    ensures v < 256
  {
    x as int
  }

  /** The `rem` high bits of an octet. */
  function Mask(rem: nat): bv8
    requires 0 < rem < 8
  {
    if rem == 1 then 0x80
    else if rem == 2 then 0xc0
    else if rem == 3 then 0xe0
    else if rem == 4 then 0xf0
    else if rem == 5 then 0xf8
    else if rem == 6 then 0xfc
    else 0xfe
  }

  /** As the program computes it: all ones, shifted left in an octet. */
  lemma MaskIsShift(rem: nat)
    requires 0 < rem < 8
    ensures Mask(rem) == 0xff << (8 - rem)
  {
    match rem
    case 1 => assert (0xff as bv8) << 7 == 0x80;
    case 2 => assert (0xff as bv8) << 6 == 0xc0;
    case 3 => assert (0xff as bv8) << 5 == 0xe0;
    case 4 => assert (0xff as bv8) << 4 == 0xf0;
    case 5 => assert (0xff as bv8) << 3 == 0xf8;
    case 6 => assert (0xff as bv8) << 2 == 0xfc;
    case 7 => assert (0xff as bv8) << 1 == 0xfe;
  }

  predicate SameHighBits(x: bv8, y: bv8, rem: nat)
    requires 0 < rem < 8
  {
    x & Mask(rem) == y & Mask(rem)
  }

  /** `match_net`: whole octets, then the masked octet that is left. */
  predicate MatchNet(addr: seq<bv8>, net: seq<bv8>, bits: nat)
    requires |addr| == |net| && bits <= 8 * |addr|
  {
    var full, rem := bits / 8, bits % 8;
    if full > 0 && addr[..full] != net[..full] then false
    else if rem != 0 && !SameHighBits(addr[full], net[full], rem) then false
    else true
  }

  function Pow2(k: nat): (p: nat)
    ensures p > 0
  {
    if k == 0 then 1 else 2 * Pow2(k - 1)
  }

  /** The address as a number, network order. */
  function BigEndian(s: seq<bv8>): nat {
    if |s| == 0 then 0 else 256 * BigEndian(s[..|s| - 1]) + Value(s[|s| - 1])
  }

  lemma ValueInjective(x: bv8, y: bv8)
    ensures Value(x) == Value(y) <==> x == y
  {
  }

  lemma LastDigit(p: nat, x: nat, q: nat, y: nat)
    requires x < 256 && y < 256
    ensures 256 * p + x == 256 * q + y <==> p == q && x == y
  {
  }

  lemma SameButLast<T>(a: seq<T>, b: seq<T>)
    requires |a| == |b| && |a| > 0
    ensures var n := |a| - 1; a == b <==> a[..n] == b[..n] && a[n] == b[n]
  {
    var n := |a| - 1;
    assert a == a[..n] + [a[n]] && b == b[..n] + [b[n]];
  }

  lemma {:induction false} BigEndianInjective(a: seq<bv8>, b: seq<bv8>)
    requires |a| == |b|
    ensures BigEndian(a) == BigEndian(b) <==> a == b
  {
    if |a| > 0 {
      var n := |a| - 1;
      BigEndianInjective(a[..n], b[..n]);
      ValueInjective(a[n], b[n]);
      SameButLast(a, b);
      LastDigit(BigEndian(a[..n]), Value(a[n]), BigEndian(b[..n]), Value(b[n]));
    }
  }

  lemma Pow2Small(k: nat)
    requires k <= 8
    ensures Pow2(k) == [1, 2, 4, 8, 16, 32, 64, 128, 256][k]
  {
    if k > 0 {
      Pow2Small(k - 1);
    }
  }

  // The high bits of an octet, for each number of them.

  lemma Ignore1(x: bv8, y: bv8)
    ensures SameHighBits(x, y, 7) <==> Value(x) / 2 == Value(y) / 2
  {
    assert Mask(7) == 0xfe;
    assert (x >> 1) as int == (x as int) / 2 && (y >> 1) as int == (y as int) / 2;
    assert x & 0xfe == y & 0xfe <==> x >> 1 == y >> 1;
  }

  lemma Ignore2(x: bv8, y: bv8)
    ensures SameHighBits(x, y, 6) <==> Value(x) / 4 == Value(y) / 4
  {
    assert Mask(6) == 0xfc;
    assert (x >> 2) as int == (x as int) / 4 && (y >> 2) as int == (y as int) / 4;
    assert x & 0xfc == y & 0xfc <==> x >> 2 == y >> 2;
  }

  lemma Ignore3(x: bv8, y: bv8)
    ensures SameHighBits(x, y, 5) <==> Value(x) / 8 == Value(y) / 8
  {
    assert Mask(5) == 0xf8;
    assert (x >> 3) as int == (x as int) / 8 && (y >> 3) as int == (y as int) / 8;
    assert x & 0xf8 == y & 0xf8 <==> x >> 3 == y >> 3;
  }

  lemma Ignore4(x: bv8, y: bv8)
    ensures SameHighBits(x, y, 4) <==> Value(x) / 16 == Value(y) / 16
  {
    assert Mask(4) == 0xf0;
    assert (x >> 4) as int == (x as int) / 16 && (y >> 4) as int == (y as int) / 16;
    assert x & 0xf0 == y & 0xf0 <==> x >> 4 == y >> 4;
  }

  lemma Ignore5(x: bv8, y: bv8)
    ensures SameHighBits(x, y, 3) <==> Value(x) / 32 == Value(y) / 32
  {
    assert Mask(3) == 0xe0;
    assert (x >> 5) as int == (x as int) / 32 && (y >> 5) as int == (y as int) / 32;
    assert x & 0xe0 == y & 0xe0 <==> x >> 5 == y >> 5;
  }

  lemma Ignore6(x: bv8, y: bv8)
    ensures SameHighBits(x, y, 2) <==> Value(x) / 64 == Value(y) / 64
  {
    assert Mask(2) == 0xc0;
    assert (x >> 6) as int == (x as int) / 64 && (y >> 6) as int == (y as int) / 64;
    assert x & 0xc0 == y & 0xc0 <==> x >> 6 == y >> 6;
  }

  lemma Ignore7(x: bv8, y: bv8)
    ensures SameHighBits(x, y, 1) <==> Value(x) / 128 == Value(y) / 128
  {
    assert Mask(1) == 0x80;
    assert (x >> 7) as int == (x as int) / 128 && (y >> 7) as int == (y as int) / 128;
    assert x & 0x80 == y & 0x80 <==> x >> 7 == y >> 7;
  }

  lemma FewIgnored(x: bv8, y: bv8, k: nat)
    requires 0 < k <= 3
    ensures SameHighBits(x, y, 8 - k) <==> Value(x) / Pow2(k) == Value(y) / Pow2(k)
  {
    Pow2Small(k);
    match k
    case 1 => Ignore1(x, y);
    case 2 => Ignore2(x, y);
    case 3 => Ignore3(x, y);
  }

  lemma ManyIgnored(x: bv8, y: bv8, k: nat)
    requires 4 <= k <= 7
    ensures SameHighBits(x, y, 8 - k) <==> Value(x) / Pow2(k) == Value(y) / Pow2(k)
  {
    Pow2Small(k);
    match k
    case 4 => Ignore4(x, y);
    case 5 => Ignore5(x, y);
    case 6 => Ignore6(x, y);
    case 7 => Ignore7(x, y);
  }

  /** The masked comparison of one octet is a comparison of its high bits; the
      `k` low ones are ignored. */
  lemma MaskIsDivision(x: bv8, y: bv8, k: nat)
    requires 0 < k < 8
    ensures SameHighBits(x, y, 8 - k) <==> Value(x) / Pow2(k) == Value(y) / Pow2(k)
  {
    if k <= 3 {
      FewIgnored(x, y, k);
    } else {
      ManyIgnored(x, y, k);
    }
  }

  /** Dropping a whole octet from the end. */
  lemma DropOctet(q: nat, x: nat, m: nat)
    requires m > 0 && x < 256
    ensures (256 * q + x) / (256 * m) == q / m
  {
    var d := q / m;
    assert d * m <= q < (d + 1) * m;
    assert d * (256 * m) == 256 * (d * m);
    assert (d + 1) * (256 * m) == 256 * ((d + 1) * m);
    QuotientIs(256 * q + x, 256 * m, d);
  }

  lemma QuotientIs(a: nat, b: nat, d: nat)
    requires b > 0 && d * b <= a < (d + 1) * b
    ensures a / b == d
  {
    var q := a / b;
    assert q * b <= a < (q + 1) * b;
    MulOrder(q + 1, d, b);
    MulOrder(d + 1, q, b);
  }

  lemma MulOrder(x: nat, y: nat, b: nat)
    ensures x <= y ==> x * b <= y * b
  {
  }

  /** Keeping the high bits of the last octet. */
  lemma CutOctet(q: nat, x: nat, k: nat)
    requires k <= 8 && x < 256
    ensures (256 * q + x) / Pow2(k) == Pow2(8 - k) * q + x / Pow2(k)
  {
    Pow2Small(k);
    Pow2Small(8 - k);
  }

  /** `match_net` succeeds exactly when the two numbers agree after division by
      2^(W - bits), for addresses of any width W, 32 and 128 in particular. */
  lemma {:induction false} MatchIsArithmetic(addr: seq<bv8>, net: seq<bv8>, bits: nat)
    requires |addr| == |net| && bits <= 8 * |addr|
    ensures var d := Pow2(8 * |addr| - bits);
            MatchNet(addr, net, bits) <==> BigEndian(addr) / d == BigEndian(net) / d
    decreases |addr|
  {
    if |addr| > 0 {
      var n, k := |addr| - 1, 8 * |addr| - bits;
      var a, b := addr[..n], net[..n];
      if k >= 8 {
        MatchIsArithmetic(a, b, bits);
        MatchIgnoresLast(addr, net, bits);
        Pow2Drop8(k);
        DropOctet(BigEndian(a), Value(addr[n]), Pow2(k - 8));
        DropOctet(BigEndian(b), Value(net[n]), Pow2(k - 8));
      } else {
        LastOctet(addr, net, bits);
      }
    }
  }

  lemma Pow2Drop8(k: nat)
    requires k >= 8
    ensures Pow2(k) == 256 * Pow2(k - 8)
  {
    assert Pow2(k) == 4 * Pow2(k - 2) && Pow2(k - 2) == 4 * Pow2(k - 4);
    assert Pow2(k - 4) == 4 * Pow2(k - 6) && Pow2(k - 6) == 4 * Pow2(k - 8);
  }

  lemma MatchIgnoresLast(addr: seq<bv8>, net: seq<bv8>, bits: nat)
    requires |addr| == |net| && |addr| > 0 && bits <= 8 * (|addr| - 1)
    ensures var n := |addr| - 1;
            MatchNet(addr, net, bits) == MatchNet(addr[..n], net[..n], bits)
  {
    var n, full := |addr| - 1, bits / 8;
    assert addr[..n][..full] == addr[..full] && net[..n][..full] == net[..full];
  }

  lemma MatchLast(addr: seq<bv8>, net: seq<bv8>, k: nat)
    requires |addr| == |net| && |addr| > 0 && 0 < k < 8
    ensures var n := |addr| - 1;
            MatchNet(addr, net, 8 * |addr| - k) <==> addr[..n] == net[..n] && SameHighBits(addr[n], net[n], 8 - k)
  {
    var n, bits := |addr| - 1, 8 * |addr| - k;
    assert bits / 8 == n && bits % 8 == 8 - k;
    assert n == 0 ==> addr[..n] == net[..n];
  }

  lemma AllOctets(addr: seq<bv8>, net: seq<bv8>)
    requires |addr| == |net|
    ensures MatchNet(addr, net, 8 * |addr|) <==> BigEndian(addr) == BigEndian(net)
  {
    var n := |addr|;
    assert addr[..n] == addr && net[..n] == net;
    BigEndianInjective(addr, net);
  }

  /** The last octet takes part with its high bits. */
  lemma MatchLastBits(addr: seq<bv8>, net: seq<bv8>, k: nat)
    requires |addr| == |net| && |addr| > 0 && 0 < k < 8
    ensures var n := |addr| - 1;
            MatchNet(addr, net, 8 * |addr| - k) <==>
            addr[..n] == net[..n] && Value(addr[n]) / Pow2(k) == Value(net[n]) / Pow2(k)
  {
    var n := |addr| - 1;
    MatchLast(addr, net, k);
    MaskIsDivision(addr[n], net[n], k);
  }

  lemma PartOctet(same: bool, addr: seq<bv8>, net: seq<bv8>, k: nat)
    requires |addr| == |net| && |addr| > 0 && 0 < k < 8
    requires var n := |addr| - 1;
             same <==> addr[..n] == net[..n] && Value(addr[n]) / Pow2(k) == Value(net[n]) / Pow2(k)
    ensures same <==> BigEndian(addr) / Pow2(k) == BigEndian(net) / Pow2(k)
  {
    var n := |addr| - 1;
    BigEndianInjective(addr[..n], net[..n]);
    var p, q, x, y := BigEndian(addr[..n]), BigEndian(net[..n]), Value(addr[n]), Value(net[n]);
    LastStep(p == q, x / Pow2(k) == y / Pow2(k), p, x, q, y, k);
  }

  lemma LastOctet(addr: seq<bv8>, net: seq<bv8>, bits: nat)
    requires |addr| == |net| && |addr| > 0 && 8 * (|addr| - 1) < bits <= 8 * |addr|
    ensures var d := Pow2(8 * |addr| - bits);
            MatchNet(addr, net, bits) <==> BigEndian(addr) / d == BigEndian(net) / d
  {
    if bits == 8 * |addr| {
      AllOctets(addr, net);
      assert Pow2(0) == 1;
    } else {
      var k := 8 * |addr| - bits;
      assert bits == 8 * |addr| - k;
      MatchLastBits(addr, net, k);
      PartOctet(MatchNet(addr, net, bits), addr, net, k);
    }
  }

  lemma LastStep(front: bool, last: bool, p: nat, x: nat, q: nat, y: nat, k: nat)
    requires 0 < k < 8 && x < 256 && y < 256
    requires front <==> p == q
    requires last <==> x / Pow2(k) == y / Pow2(k)
    ensures front && last <==> (256 * p + x) / Pow2(k) == (256 * q + y) / Pow2(k)
  {
    CutOctet(p, x, k);
    CutOctet(q, y, k);
    HighLow(p, x, q, y, k);
  }

  lemma HighLow(p: nat, x: nat, q: nat, y: nat, k: nat)
    requires 0 < k < 8 && x < 256 && y < 256
    ensures Pow2(8 - k) * p + x / Pow2(k) == Pow2(8 - k) * q + y / Pow2(k) <==>
            p == q && x / Pow2(k) == y / Pow2(k)
  {
    Pow2Small(k);
    Pow2Small(8 - k);
  }
}
