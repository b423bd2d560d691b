/** Which channels of a peer's list are left once it is narrowed to the channel in use, and
    the frame that carries the list. */
module P2pChannels {
  import opened Collections
  import opened Octets
  import opened P2pFormat

  const VENDOR: byte := 221
  const CHANNEL_LIST: byte := 11
  const OUI: seq<byte> := [0x50, 0x6f, 0x9a]

  /** The channel in use: whether it is in the 5 GHz band, whether the peer supports that
      band, and the operating classes of the 2.4 GHz band. */
  datatype Target = Target(chan: byte, is5g: bool, peer5g: bool, twoGhz: set<byte>)

  // ---------------------------------------------------------------- the rule

  /** What a class contributes: all its channels if it is a 2.4 GHz class and the peer cannot
      use the 5 GHz channel, else the channel in use, if the class has it. */
  function Kept(t: Target, e: Item): seq<Item> {
    if t.is5g && !t.peer5g && e.tag in t.twoGhz then [e]
    else if t.chan in e.body then [Item(e.tag, [t.chan])]
    else []
  }

  /** The list narrowed by the rule. */
  function Narrowed(t: Target, es: seq<Item>): seq<Item> {
    if es == [] then [] else Kept(t, es[0]) + Narrowed(t, es[1..])
  }

  /** What the driver makes of the list: it compares a position counted from the attribute's
      header with the length of its body, and so stops up to three octets early. */
  function Chosen(t: Target, es: seq<Item>): seq<Item> {
    if es == [] || (|es| == 1 && |es[0].body| < 2) then [] else Kept(t, es[0]) + Chosen(t, es[1..])
  }

  /** The last class of the list has at most one channel. */
  predicate ShortLast(es: seq<Item>) {
    es != [] && |es[|es| - 1].body| < 2
  }

  lemma {:induction false} NarrowedAppend(t: Target, a: seq<Item>, b: seq<Item>)
    ensures Narrowed(t, a + b) == Narrowed(t, a) + Narrowed(t, b)
  {
    if a == [] {
      assert a + b == b;
    } else {
      assert (a + b)[1..] == a[1..] + b;
      NarrowedAppend(t, a[1..], b);
      Regroup(Kept(t, a[0]), Narrowed(t, a[1..]), Narrowed(t, b));
    }
  }

  /** Only a last class with at most one channel is overlooked. */
  lemma {:induction false} ChosenNarrows(t: Target, es: seq<Item>)
    ensures Chosen(t, es) == Narrowed(t, if ShortLast(es) then es[..|es| - 1] else es)
  {
    if es != [] && !(|es| == 1 && |es[0].body| < 2) {
      ChosenNarrows(t, es[1..]);
      if ShortLast(es) {
        assert es[..|es| - 1] == [es[0]] + es[1..][..|es| - 2];
        assert es[..|es| - 1][1..] == es[1..][..|es| - 2];
      }
    }
  }

  /** The driver follows the rule if and only if the last class has two channels or more, or
      contributes nothing. */
  lemma ChosenExactly(t: Target, es: seq<Item>)
    ensures Chosen(t, es) == Narrowed(t, es) <==> !ShortLast(es) || Kept(t, es[|es| - 1]) == []
  {
    ChosenNarrows(t, es);
    if ShortLast(es) {
      var front, last := es[..|es| - 1], es[|es| - 1];
      assert es == front + [last];
      NarrowedAppend(t, front, [last]);
      assert [last][1..] == [];
      assert Narrowed(t, [last]) == Kept(t, last) + [];
      assert Kept(t, last) + [] == Kept(t, last);
    }
  }

  /** A class with the channel in use as its only channel, overlooked. */
  lemma OverlooksLast()
    ensures
      var t := Target(6, false, false, {});
      var es := [Item(81, [1, 6, 11]), Item(83, [6])];
      Narrowed(t, es) == [Item(81, [6]), Item(83, [6])] && Chosen(t, es) == [Item(81, [6])]
  {
    var t := Target(6, false, false, {});
    var es := [Item(81, [1, 6, 11]), Item(83, [6])];
    assert es[1..] == [Item(83, [6])] && es[1..][1..] == [];
    assert 6 in es[0].body by { assert es[0].body[1] == 6; }
  }

  /** A channel of the 5 GHz band: a peer that cannot use it keeps its classes of the 2.4 GHz
      band whole, others only the channel in use. */
  lemma FiveGhz()
    ensures
      var es := [Item(81, [1, 6, 11]), Item(115, [36, 40])];
      && Chosen(Target(36, true, false, {81}), es) == [Item(81, [1, 6, 11]), Item(115, [36])]
      && Chosen(Target(36, true, true, {81}), es) == [Item(115, [36])]
  {
    var es := [Item(81, [1, 6, 11]), Item(115, [36, 40])];
    assert es[1..] == [Item(115, [36, 40])] && es[1..][1..] == [];
    assert 36 in es[1].body by { assert es[1].body[0] == 36; }
    assert 36 !in es[0].body;
  }

  // ---------------------------------------------------------------- classes and channels

  /** The class and channel pairs of a list. */
  ghost function Pairs(es: seq<Item>): set<(byte, byte)> {
    if es == [] then {} else (set c | c in es[0].body :: (es[0].tag, c)) + Pairs(es[1..])
  }

  lemma {:induction false} PairsOf(es: seq<Item>, p: (byte, byte))
    ensures p in Pairs(es) <==> exists i :: 0 <= i < |es| && es[i].tag == p.0 && p.1 in es[i].body
  {
    if es != [] {
      PairsOf(es[1..], p);
      assert forall i :: 0 <= i < |es[1..]| ==> es[1..][i] == es[i + 1];
      if i :| 0 < i < |es| && es[i].tag == p.0 && p.1 in es[i].body {
        assert es[1..][i - 1] == es[i];
      }
    }
  }

  lemma {:induction false} PairsAppend(a: seq<Item>, b: seq<Item>)
    ensures Pairs(a + b) == Pairs(a) + Pairs(b)
  {
    if a == [] {
      assert a + b == b;
    } else {
      assert (a + b)[1..] == a[1..] + b;
      PairsAppend(a[1..], b);
    }
  }

  /** Pairs that the rule keeps: those with the channel in use, and if the peer cannot use it
      those of 2.4 GHz classes. */
  predicate Wanted(t: Target, p: (byte, byte)) {
    p.1 == t.chan || (t.is5g && !t.peer5g && p.0 in t.twoGhz)
  }

  /** The narrowed list has exactly the wanted pairs of the list. */
  lemma {:induction false} NarrowedPairs(t: Target, es: seq<Item>)
    ensures forall p :: p in Pairs(Narrowed(t, es)) <==> p in Pairs(es) && Wanted(t, p)
  {
    if es != [] {
      NarrowedPairs(t, es[1..]);
      PairsAppend(Kept(t, es[0]), Narrowed(t, es[1..]));
      KeptPairs(t, es[0]);
    }
  }

  lemma KeptPairs(t: Target, e: Item)
    ensures forall p :: p in Pairs(Kept(t, e)) <==> p.0 == e.tag && p.1 in e.body && Wanted(t, p)
  {
    forall p
      ensures p in Pairs(Kept(t, e)) <==> p.0 == e.tag && p.1 in e.body && Wanted(t, p)
    {
      PairsOf(Kept(t, e), p);
    }
  }

  /** Nothing is made up: the pairs left are wanted ones of the list, and all of those unless
      a last class with at most one channel is overlooked. */
  lemma ChosenPairs(t: Target, es: seq<Item>)
    ensures forall p :: p in Pairs(Chosen(t, es)) ==> p in Pairs(es) && Wanted(t, p)
    ensures !ShortLast(es) ==> forall p :: p in Pairs(es) && Wanted(t, p) ==> p in Pairs(Chosen(t, es))
  {
    ChosenNarrows(t, es);
    var front := if ShortLast(es) then es[..|es| - 1] else es;
    NarrowedPairs(t, front);
    if ShortLast(es) {
      assert es == front + [es[|es| - 1]];
      PairsAppend(front, [es[|es| - 1]]);
    }
  }

  /** The list gets no longer. */
  lemma {:induction false} ChosenFits(t: Target, es: seq<Item>)
    requires AllFit(es)
    ensures AllFit(Chosen(t, es)) && |Bytes(Chosen(t, es))| <= |Bytes(es)|
  {
    if es != [] && !(|es| == 1 && |es[0].body| < 2) {
      ChosenFits(t, es[1..]);
      KeptFits(t, es[0]);
      BytesAppend(Kept(t, es[0]), Chosen(t, es[1..]));
    }
  }

  lemma KeptFits(t: Target, e: Item)
    requires Fits(e)
    ensures AllFit(Kept(t, e)) && |Bytes(Kept(t, e))| <= |ItemBytes(e)|
  {
    assert t.chan in e.body ==> |e.body| >= 1;
    assert Kept(t, e) != [] ==> Kept(t, e)[1..] == [];
  }

  // ---------------------------------------------------------------- the frame

  datatype ChanList = ChanList(country: seq<byte>, entries: seq<Item>)

  /** The attributes of the P2P element, with the channel list apart. */
  datatype P2p = P2p(kind: byte, pre: seq<Attr>, list: Option<ChanList>, post: seq<Attr>)

  /** A frame with 32 octets of headers, then elements, with the P2P element apart. */
  datatype Frame = Frame(hdr: seq<byte>, before: seq<Item>, p2p: Option<P2p>, after: seq<Item>)

  ghost predicate ListOk(c: ChanList) {
    |c.country| == 3 && AllFit(c.entries) && |Bytes(c.entries)| <= 200
  }

  ghost predicate NoList(s: seq<Attr>) {
    forall i :: 0 <= i < |s| ==> s[i].id != CHANNEL_LIST
  }

  ghost function ListAttr(c: ChanList): (a: Attr)
    requires ListOk(c)
    ensures FitsAttr(a)
  {
    Attr(CHANNEL_LIST, c.country + Bytes(c.entries))
  }

  ghost predicate AttrsOk(p: P2p) {
    && AllAttrsFit(p.pre) && AllAttrsFit(p.post) && NoList(p.pre)
    && (p.list.Some? ==> ListOk(p.list.value))
    && (p.list.None? ==> p.post == [])
  }

  ghost function Attrs(p: P2p): (s: seq<Attr>)
    requires AttrsOk(p)
    ensures AllAttrsFit(s)
  {
    if p.list.Some? then p.pre + [ListAttr(p.list.value)] + p.post else p.pre
  }

  ghost function P2pItem(p: P2p): Item
    requires AttrsOk(p)
  {
    Item(VENDOR, OUI + [p.kind] + AttrsBytes(Attrs(p)))
  }

  /** Vendor elements other than the P2P element; they are long enough for an identifier of
      the vendor. */
  ghost predicate NotP2p(s: seq<Item>) {
    forall i :: 0 <= i < |s| && s[i].tag == VENDOR ==> |s[i].body| >= 3 && s[i].body[..3] != OUI
  }

  /** The search for a channel list does not stop at the end of the P2P element: it takes the
      octets after it for attributes, and comes upon one numbered as a channel list. */
  ghost predicate Strays(b: seq<byte>) {
    && b != []
    && (b[0] == CHANNEL_LIST
        || (|b| >= 3 && 3 + Length16(b[1], b[2]) < |b| && Strays(b[3 + Length16(b[1], b[2])..])))
  }

  /** Where it comes upon it. */
  ghost function StrayPos(b: seq<byte>): (pos: nat)
    requires Strays(b)
    ensures pos < |b| && b[pos] == CHANNEL_LIST
  {
    if b[0] == CHANNEL_LIST then 0
    else
      var n := 3 + Length16(b[1], b[2]);
      n + StrayPos(b[n..])
  }

  /** What the driver takes for granted: the lengths are right, and the P2P element is the first
      of its vendor. */
  ghost predicate FrameOk(f: Frame) {
    && |f.hdr| == 32 && AllFit(f.before) && AllFit(f.after) && NotP2p(f.before)
    && (f.p2p.None? ==> f.after == [])
    && (f.p2p.Some? ==> AttrsOk(f.p2p.value) && Fits(P2pItem(f.p2p.value)))
  }

  ghost function Items(f: Frame): (s: seq<Item>)
    requires FrameOk(f)
    ensures AllFit(s)
  {
    f.before + (if f.p2p.Some? then [P2pItem(f.p2p.value)] else []) + f.after
  }

  ghost function FrameBytes(f: Frame): seq<byte>
    requires FrameOk(f)
  {
    f.hdr + Bytes(Items(f))
  }

  predicate HasList(f: Frame) {
    f.p2p.Some? && f.p2p.value.list.Some?
  }

  /** There is no list in the P2P element, and the search finds one behind it. */
  ghost predicate GoesAstray(f: Frame)
    requires FrameOk(f)
  {
    f.p2p.Some? && f.p2p.value.list.None? && Strays(Bytes(f.after))
  }

  /** What it finds there has the form of channel list `c`. */
  ghost predicate StrayList(f: Frame, c: ChanList)
    requires FrameOk(f) && GoesAstray(f)
  {
    ListOk(c) && AttrBytes(ListAttr(c)) <= Bytes(f.after)[StrayPos(Bytes(f.after))..]
  }

  /** The frame with other entries in its channel list. */
  function WithEntries(f: Frame, es: seq<Item>): Frame
    requires HasList(f)
  {
    var p := f.p2p.value;
    f.(p2p := Some(p.(list := Some(p.list.value.(entries := es)))))
  }
}
