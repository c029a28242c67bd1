/** ALPN offers and their selection in src/quic.c (section 3.1 of RFC 7301). */
module Alpn {
  import opened Text

  type octet = x: int | 0 <= x < 256
  type Name = seq<octet>

  /** "wcat/1" */
  const DEFAULT_NAME: Name := [119, 99, 97, 116, 47, 49]

  predicate IsName(n: Name) {
    1 <= |n| <= 255
  }

  function EncodeOne(n: Name): seq<octet>
    requires IsName(n)
  {
    var len: octet := |n|;
    [len] + n
  }

  /** A protocol name list on the wire. */
  function Encode(names: seq<Name>): seq<octet>
    requires forall i | 0 <= i < |names| :: IsName(names[i])
  {
    if |names| == 0 then [] else EncodeOne(names[0]) + Encode(names[1..])
  }

  datatype Item = Item(at: nat, name: Name)

  /** The complete items of any octets, with where each name starts; a cut-off
      last item is left out. */
  function Items(wire: seq<octet>, off: nat): seq<Item>
    requires off <= |wire|
    decreases |wire| - off
  {
    if off == |wire| || off + 1 + wire[off] > |wire| then []
    else [Item(off + 1, wire[off + 1..off + 1 + wire[off]])] + Items(wire, off + 1 + wire[off])
  }

  function Names(items: seq<Item>): seq<Name> {
    if |items| == 0 then [] else [items[0].name] + Names(items[1..])
  }

  /** The first item with that name. */
  function FirstItem(items: seq<Item>, name: Name): (r: Option<Item>)
    ensures r.Some? ==> r.value in items && r.value.name == name
    ensures r.None? ==> forall i | 0 <= i < |items| :: items[i].name != name
  {
    if |items| == 0 then None
    else if items[0].name == name then Some(items[0])
    else FirstItem(items[1..], name)
  }

  /** `set_alpn`: the offer of one name, or a refusal. */
  method SetAlpn(alpn: Option<Name>) returns (wire: Option<seq<octet>>)
    ensures var name := alpn.GetOr(DEFAULT_NAME);
            wire == if IsName(name) then Some(Encode([name])) else None
    ensures wire.Some? ==> |wire.value| > 0 && wire.value[0] == |wire.value| - 1
    ensures wire.Some? ==> wire.value[1..] == alpn.GetOr(DEFAULT_NAME)
    ensures alpn.None? ==> wire == Some([6, 119, 99, 97, 116, 47, 49])
  {
    var name := alpn.GetOr(DEFAULT_NAME);
    if |name| == 0 || |name| > 255 {
      return None;
    }
    ghost var names: seq<Name> := [name];
    assert |names[1..]| == 0;
    assert Encode(names) == EncodeOne(name);
    ghost var six: seq<octet> := [6];
    assert six + DEFAULT_NAME == [6, 119, 99, 97, 116, 47, 49];
    return Some(EncodeOne(name));
  }

  /** Every item lies inside the wire. */
  lemma {:induction false} ItemsInBounds(wire: seq<octet>, off: nat, item: Item)
    requires off <= |wire| && item in Items(wire, off)
    ensures off < item.at && item.at + |item.name| <= |wire|
    ensures wire[item.at..item.at + |item.name|] == item.name
    decreases |wire| - off
  {
    var next := off + 1 + wire[off];
    var first := Item(off + 1, wire[off + 1..next]);
    if item != first {
      assert item in [first] + Items(wire, next);
      ItemsInBounds(wire, next, item);
    }
  }

  function Found(wire: seq<octet>, off: nat, name: Name): Option<Item>
    requires off <= |wire|
  {
    FirstItem(Items(wire, off), name)
  }

  /** One turn of the scan. */
  lemma ScanStep(wire: seq<octet>, off: nat, name: Name)
    requires off < |wire|
    ensures var next := off + 1 + wire[off];
            Found(wire, off, name) ==
            if next > |wire| then None
            else if wire[off + 1..next] == name then Some(Item(off + 1, name))
            else Found(wire, next, name)
  {
    var next := off + 1 + wire[off];
    if next <= |wire| {
      FirstItemCons(Item(off + 1, wire[off + 1..next]), Items(wire, next), name);
    }
  }

  /** The scan of `select_alpn_cb`, on any octets. */
  method Scan(wire: seq<octet>, name: Name) returns (r: Option<Item>)
    ensures r == FirstItem(Items(wire, 0), name)
  {
    var off := 0;
    ghost var goal := FirstItem(Items(wire, 0), name);
    while off < |wire|
      invariant 0 <= off <= |wire|
      invariant goal == Found(wire, off, name)
    {
      ScanStep(wire, off, name);
      var len := wire[off];
      off := off + 1;
      if len > |wire| - off {
        return None;
      }
      if len == |name| && wire[off..off + len] == name {
        return Some(Item(off, name));
      }
      off := off + len;
    }
    return None;
  }

  /** `select_alpn_cb`: it finds the first complete item with the configured
      name exactly when there is one. */
  method SelectAlpn(wire: seq<octet>, alpn: Option<Name>) returns (r: Option<Item>)
    ensures var name := alpn.GetOr(DEFAULT_NAME);
            r == if IsName(name) then FirstItem(Items(wire, 0), name) else None
  {
    var name := alpn.GetOr(DEFAULT_NAME);
    if |name| == 0 || |name| > 255 {
      return None;
    }
    r := Scan(wire, name);
  }

  /** The first item of an encoded list, behind any octets. */
  lemma FirstEncoded(before: seq<octet>, n: Name, more: seq<octet>)
    requires IsName(n)
    ensures var wire := before + (EncodeOne(n) + more);
            var longer := before + EncodeOne(n);
            && wire == longer + more
            && Items(wire, |before|) == [Item(|before| + 1, n)] + Items(wire, |longer|)
  {
    var wire := before + (EncodeOne(n) + more);
    assert wire[|before|] == |n|;
    assert wire[|before| + 1..|before| + 1 + |n|] == n;
    Assoc(before, EncodeOne(n), more);
  }

  lemma FirstItemCons(item: Item, items: seq<Item>, name: Name)
    ensures FirstItem([item] + items, name) == if item.name == name then Some(item) else FirstItem(items, name)
  {
    assert ([item] + items)[1..] == items;
  }

  lemma NamesCons(item: Item, items: seq<Item>)
    ensures Names([item] + items) == [item.name] + Names(items)
  {
    assert ([item] + items)[1..] == items;
  }

  /** Decoding an encoded list gives the list back, at any place in the wire. */
  lemma {:induction false} ItemsOfEncoding(before: seq<octet>, names: seq<Name>)
    requires forall i | 0 <= i < |names| :: IsName(names[i])
    ensures Names(Items(before + Encode(names), |before|)) == names
    decreases |names|
  {
    if |names| > 0 {
      var n, rest := names[0], names[1..];
      var longer := before + EncodeOne(n);
      FirstEncoded(before, n, Encode(rest));
      ItemsOfEncoding(longer, rest);
      NamesCons(Item(|before| + 1, n), Items(longer + Encode(rest), |longer|));
    }
  }

  lemma {:induction false} FirstItemIff(items: seq<Item>, name: Name)
    ensures FirstItem(items, name).Some? <==> name in Names(items)
  {
    if |items| > 0 {
      FirstItemIff(items[1..], name);
    }
  }

  /** Selection from an encoded offer succeeds exactly when the name is offered. */
  lemma SelectedIffOffered(names: seq<Name>, name: Name)
    requires forall i | 0 <= i < |names| :: IsName(names[i])
    ensures FirstItem(Items(Encode(names), 0), name).Some? <==> name in names
  {
    ItemsOfEncoding([], names);
    assert [] + Encode(names) == Encode(names);
    FirstItemIff(Items(Encode(names), 0), name);
  }

  /** The length of the encoding of the names before the first `name`. */
  function OffsetOf(names: seq<Name>, name: Name): nat
    requires name in names
  {
    if names[0] == name then 1 else 1 + |names[0]| + OffsetOf(names[1..], name)
  }

  /** The first name of an encoded list is found, or the search goes on behind it. */
  lemma FoundOrBehind(before: seq<octet>, n: Name, more: seq<octet>, name: Name)
    requires IsName(n)
    ensures var wire := before + (EncodeOne(n) + more);
            var longer := before + EncodeOne(n);
            Found(wire, |before|, name) ==
            if n == name then Some(Item(|before| + 1, n)) else Found(longer + more, |longer|, name)
  {
    var wire := before + (EncodeOne(n) + more);
    var longer := before + EncodeOne(n);
    FirstEncoded(before, n, more);
    FirstItemCons(Item(|before| + 1, n), Items(wire, |longer|), name);
  }

  /** And it is the first occurrence that is selected. */
  lemma {:induction false} SelectsFirst(before: seq<octet>, names: seq<Name>, name: Name)
    requires (forall i | 0 <= i < |names| :: IsName(names[i])) && name in names
    ensures Found(before + Encode(names), |before|, name) == Some(Item(|before| + OffsetOf(names, name), name))
    decreases |names|
  {
    var n, rest := names[0], names[1..];
    FoundOrBehind(before, n, Encode(rest), name);
    if n != name {
      assert names == [n] + rest;
      SelectsFirst(before + EncodeOne(n), rest, name);
    }
  }

  /** Two ends configured alike agree: an offer is selected by its own name. */
  method Negotiate(client: Option<Name>, server: Option<Name>) returns (ok: bool)
    ensures ok <==> IsName(client.GetOr(DEFAULT_NAME)) && client.GetOr(DEFAULT_NAME) == server.GetOr(DEFAULT_NAME)
  {
    var wire := SetAlpn(client);
    if wire.None? {
      return false;
    }
    SelectedIffOffered([client.GetOr(DEFAULT_NAME)], server.GetOr(DEFAULT_NAME));
    var r := SelectAlpn(wire.value, server);
    return r.Some?;
  }
}
