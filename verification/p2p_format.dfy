/** Frames with a P2P information element, as section 4.1.1 of the Wi-Fi P2P Technical
    Specification lays them out: elements, in one of them attributes, and in one of these
    the channel list of section 4.1.13. */
module P2pFormat {
  import opened Collections
  import opened Octets

  /** A tag and a body with one octet of length: an element of a frame, or an operating
      class and its channels in a channel list. */
  datatype Item = Item(tag: byte, body: seq<byte>)

  /** An attribute: two octets of length, the low one first. */
  datatype Attr = Attr(id: byte, body: seq<byte>)

  predicate Fits(e: Item) { |e.body| < 0x100 }
  predicate FitsAttr(a: Attr) { |a.body| < 0x1_0000 }

  ghost predicate AllFit(s: seq<Item>) { forall i :: 0 <= i < |s| ==> Fits(s[i]) }
  ghost predicate AllAttrsFit(s: seq<Attr>) { forall i :: 0 <= i < |s| ==> FitsAttr(s[i]) }

  function Length16(lo: byte, hi: byte): nat {
    lo as int + hi as int * 0x100
  }

  // ---------------------------------------------------------------- writing

  function ItemBytes(e: Item): seq<byte>
    requires Fits(e)
  {
    [e.tag, |e.body|] + e.body
  }

  function AttrBytes(a: Attr): seq<byte>
    requires FitsAttr(a)
  {
    [a.id, |a.body| % 0x100, |a.body| / 0x100] + a.body
  }

  ghost function Bytes(s: seq<Item>): seq<byte>
    requires AllFit(s)
  {
    if s == [] then [] else ItemBytes(s[0]) + Bytes(s[1..])
  }

  ghost function AttrsBytes(s: seq<Attr>): seq<byte>
    requires AllAttrsFit(s)
  {
    if s == [] then [] else AttrBytes(s[0]) + AttrsBytes(s[1..])
  }

  // ---------------------------------------------------------------- reading

  function Parse(b: seq<byte>): Option<seq<Item>> {
    if b == [] then Some([])
    else if |b| < 2 || |b| - 2 < b[1] then None
    else
      var n := 2 + b[1] as int;
      var rest := Parse(b[n..]);
      if rest.None? then None else Some([Item(b[0], b[2..n])] + rest.value)
  }

  function ParseAttrs(b: seq<byte>): Option<seq<Attr>> {
    if b == [] then Some([])
    else if |b| < 3 || |b| - 3 < Length16(b[1], b[2]) then None
    else
      var n := 3 + Length16(b[1], b[2]);
      var rest := ParseAttrs(b[n..]);
      if rest.None? then None else Some([Attr(b[0], b[3..n])] + rest.value)
  }

  // ---------------------------------------------------------------- one is the inverse of the other

  lemma {:induction false} RoundTrip(s: seq<Item>)
    requires AllFit(s)
    ensures Parse(Bytes(s)) == Some(s)
  {
    if s != [] {
      RoundTrip(s[1..]);
      var b, n := Bytes(s), |s[0].body|;
      assert b[1] == n;
      assert b[2..2 + n] == s[0].body && b[2 + n..] == Bytes(s[1..]);
      assert [s[0]] + s[1..] == s;
    }
  }

  lemma {:induction false} AttrsRoundTrip(s: seq<Attr>)
    requires AllAttrsFit(s)
    ensures ParseAttrs(AttrsBytes(s)) == Some(s)
  {
    if s != [] {
      AttrsRoundTrip(s[1..]);
      var b, n := AttrsBytes(s), |s[0].body|;
      assert Length16(b[1], b[2]) == n;
      assert b[3..3 + n] == s[0].body && b[3 + n..] == AttrsBytes(s[1..]);
      assert [s[0]] + s[1..] == s;
    }
  }

  lemma ItemFirst(e: Item, s: seq<Item>)
    requires Fits(e) && AllFit(s)
    ensures AllFit([e] + s) && Bytes([e] + s) == ItemBytes(e) + Bytes(s)
  {
    assert ([e] + s)[1..] == s;
  }

  lemma AttrFirst(a: Attr, s: seq<Attr>)
    requires FitsAttr(a) && AllAttrsFit(s)
    ensures AllAttrsFit([a] + s) && AttrsBytes([a] + s) == AttrBytes(a) + AttrsBytes(s)
  {
    assert ([a] + s)[1..] == s;
  }

  lemma {:induction false} ParsedBytes(b: seq<byte>)
    requires Parse(b).Some?
    ensures AllFit(Parse(b).value) && Bytes(Parse(b).value) == b
  {
    if b != [] {
      var n := 2 + b[1] as int;
      ParsedBytes(b[n..]);
      ItemFirst(Item(b[0], b[2..n]), Parse(b[n..]).value);
      Cut(b, 2, n);
      assert b[..2] == [b[0], b[1]];
    }
  }

  lemma {:induction false} ParsedAttrsBytes(b: seq<byte>)
    requires ParseAttrs(b).Some?
    ensures AllAttrsFit(ParseAttrs(b).value) && AttrsBytes(ParseAttrs(b).value) == b
  {
    if b != [] {
      var n := 3 + Length16(b[1], b[2]);
      ParsedAttrsBytes(b[n..]);
      AttrFirst(Attr(b[0], b[3..n]), ParseAttrs(b[n..]).value);
      AttrCut(b, n);
    }
  }

  lemma AttrCut(b: seq<byte>, n: nat)
    requires 3 <= n <= |b| && n == 3 + Length16(b[1], b[2])
    ensures FitsAttr(Attr(b[0], b[3..n])) && AttrBytes(Attr(b[0], b[3..n])) + b[n..] == b
  {
    Cut(b, 3, n);
    assert b[..3] == [b[0], b[1], b[2]];
  }

  // ---------------------------------------------------------------- concatenation

  lemma {:induction false} BytesAppend(s: seq<Item>, t: seq<Item>)
    requires AllFit(s) && AllFit(t)
    ensures AllFit(s + t) && Bytes(s + t) == Bytes(s) + Bytes(t)
  {
    if s == [] {
      assert s + t == t;
    } else {
      BytesAppend(s[1..], t);
      ItemFirst(s[0], s[1..] + t);
      Regroup([s[0]], s[1..], t);
      assert [s[0]] + s[1..] == s;
      Regroup(ItemBytes(s[0]), Bytes(s[1..]), Bytes(t));
    }
  }

  lemma {:induction false} AttrsAppend(s: seq<Attr>, t: seq<Attr>)
    requires AllAttrsFit(s) && AllAttrsFit(t)
    ensures AllAttrsFit(s + t) && AttrsBytes(s + t) == AttrsBytes(s) + AttrsBytes(t)
  {
    if s == [] {
      assert s + t == t;
    } else {
      AttrsAppend(s[1..], t);
      AttrFirst(s[0], s[1..] + t);
      Regroup([s[0]], s[1..], t);
      assert [s[0]] + s[1..] == s;
      Regroup(AttrBytes(s[0]), AttrsBytes(s[1..]), AttrsBytes(t));
    }
  }
}
