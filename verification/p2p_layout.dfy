/** Where the parts of a frame lie, and how a frame rewritten is read back. */
module P2pLayout {
  import opened Collections
  import opened Octets
  import opened P2pFormat
  import opened P2pChannels
  import opened P2pRewrite

  // ---------------------------------------------------------------- parts

  lemma AttrsLayout(p: P2p)
    requires AttrsOk(p) && p.list.Some?
    ensures
      var c := p.list.value;
      var n := 3 + |Bytes(c.entries)|;
      AttrsBytes(Attrs(p)) ==
        AttrsBytes(p.pre) + ([CHANNEL_LIST, n % 0x100, n / 0x100] + (c.country + Bytes(c.entries))) + AttrsBytes(p.post)
  {
    var a := ListAttr(p.list.value);
    AttrFirst(a, []);
    assert [a] + [] == [a];
    AttrsAppend(p.pre, [a]);
    AttrsAppend(p.pre + [a], p.post);
    assert AttrBytes(a) + [] == AttrBytes(a);
  }

  lemma ItemsLayout(f: Frame)
    requires FrameOk(f) && f.p2p.Some?
    ensures Bytes(Items(f)) == Bytes(f.before) + ItemBytes(P2pItem(f.p2p.value)) + Bytes(f.after)
  {
    var e := P2pItem(f.p2p.value);
    ItemFirst(e, []);
    assert [e] + [] == [e];
    BytesAppend(f.before, [e]);
    BytesAppend(f.before + [e], f.after);
    assert ItemBytes(e) + [] == ItemBytes(e);
  }

  /** The parts of a frame with a channel list. */
  ghost function FrameParts(f: Frame): Parts
    requires FrameOk(f) && HasList(f)
  {
    var p := f.p2p.value;
    Parts(f.hdr + Bytes(f.before) + [VENDOR], |P2pItem(p).body|, OUI + [p.kind] + AttrsBytes(p.pre) + [CHANNEL_LIST],
          3 + |Bytes(p.list.value.entries)|, p.list.value.country, Bytes(p.list.value.entries),
          AttrsBytes(p.post) + Bytes(f.after))
  }

  /** A frame is its parts in order. */
  lemma Layout(f: Frame)
    requires FrameOk(f) && HasList(f)
    ensures PartsOk(FrameParts(f), f.p2p.value.list.value.entries) && FrameBytes(f) == Join(FrameParts(f))
    ensures FrameParts(f).lo <= FrameParts(f).m
  {
    var p := f.p2p.value;
    var c := p.list.value;
    AttrsLayout(p);
    ItemsLayout(f);
    var n := 3 + |Bytes(c.entries)|;
    assert n % 0x100 == n && n / 0x100 == 0;
    LayoutJoin(f.hdr, Bytes(f.before), |P2pItem(p).body|, OUI + [p.kind], AttrsBytes(p.pre), n, 0, c.country,
               Bytes(c.entries), AttrsBytes(p.post), Bytes(f.after), AttrsBytes(Attrs(p)), FrameBytes(f));
  }

  lemma LayoutJoin(hdr: seq<byte>, before: seq<byte>, m: byte, kind: seq<byte>, pre: seq<byte>, lo: byte, hi: byte,
                   country: seq<byte>, entries: seq<byte>, post: seq<byte>, after: seq<byte>, attrs: seq<byte>,
                   b: seq<byte>)
    requires attrs == pre + ([CHANNEL_LIST, lo, hi] + (country + entries)) + post
    requires b == hdr + (before + ([VENDOR, m] + (kind + attrs)) + after)
    ensures
      b ==
      hdr + before + [VENDOR] + [m] + (kind + pre + [CHANNEL_LIST]) + [lo, hi] + country + entries + (post + after)
  {
  }

  /** The parts of a frame with a list `c` at position `pos` of what follows the P2P element. */
  ghost function PartsBehind(f: Frame, c: ChanList, pos: nat): Parts
    requires FrameOk(f) && f.p2p.Some? && ListOk(c) && pos + 6 + |Bytes(c.entries)| <= |Bytes(f.after)|
  {
    var e, a, n := P2pItem(f.p2p.value), Bytes(f.after), 3 + |Bytes(c.entries)|;
    Parts(f.hdr + Bytes(f.before) + [VENDOR], |e.body|, e.body + (a[..pos] + [CHANNEL_LIST]), n, c.country,
          Bytes(c.entries), a[pos + 3 + n..])
  }

  lemma LayoutBehind(f: Frame, c: ChanList, pos: nat)
    requires FrameOk(f) && f.p2p.Some? && ListOk(c) && pos <= |Bytes(f.after)|
    requires AttrBytes(ListAttr(c)) <= Bytes(f.after)[pos..]
    ensures pos + 6 + |Bytes(c.entries)| <= |Bytes(f.after)|
    ensures PartsOk(PartsBehind(f, c, pos), c.entries) && FrameBytes(f) == Join(PartsBehind(f, c, pos))
  {
    var e, a, n := P2pItem(f.p2p.value), Bytes(f.after), 3 + |Bytes(c.entries)|;
    ItemsLayout(f);
    assert n % 0x100 == n && n / 0x100 == 0;
    Behind(a, pos, [CHANNEL_LIST, n, 0] + (c.country + Bytes(c.entries)));
    StrayJoin(f.hdr, Bytes(f.before), |e.body|, e.body, a[..pos], n, 0, c.country, Bytes(c.entries), a[pos + 3 + n..],
              a, FrameBytes(f));
  }

  /** The parts of a frame whose search goes astray. */
  ghost function StrayParts(f: Frame, c: ChanList): (p: Parts)
    requires FrameOk(f) && GoesAstray(f) && StrayList(f, c)
    ensures PartsOk(p, c.entries) && FrameBytes(f) == Join(p)
  {
    LayoutBehind(f, c, StrayPos(Bytes(f.after)));
    PartsBehind(f, c, StrayPos(Bytes(f.after)))
  }

  lemma Behind(a: seq<byte>, pos: nat, x: seq<byte>)
    requires pos <= |a| && x <= a[pos..]
    ensures pos + |x| <= |a| && a == a[..pos] + x + a[pos + |x|..]
  {
    assert a[pos..][..|x|] == x;
    Cut(a, pos, pos + |x|);
  }

  lemma StrayJoin(hdr: seq<byte>, before: seq<byte>, m: byte, body: seq<byte>, skip: seq<byte>, lo: byte, hi: byte,
                  country: seq<byte>, entries: seq<byte>, rest: seq<byte>, a: seq<byte>, b: seq<byte>)
    requires a == skip + ([CHANNEL_LIST, lo, hi] + (country + entries)) + rest
    requires b == hdr + (before + ([VENDOR, m] + body) + a)
    ensures
      b ==
      hdr + before + [VENDOR] + [m] + (body + (skip + [CHANNEL_LIST])) + [lo, hi] + country + entries + rest
  {
  }

  // ---------------------------------------------------------------- walking

  lemma ItemSplit(s: seq<Item>, k: nat)
    requires AllFit(s) && k < |s|
    ensures Bytes(s) == Bytes(s[..k]) + ([s[k].tag, |s[k].body|] + s[k].body + Bytes(s[k + 1..]))
    ensures |Bytes(s[..k + 1])| == |Bytes(s[..k])| + 2 + |s[k].body|
  {
    assert s == s[..k] + s[k..] && s[k..] == [s[k]] + s[k + 1..];
    BytesAppend(s[..k], s[k..]);
    ItemFirst(s[k], s[k + 1..]);
    assert s[..k + 1] == s[..k] + [s[k]];
    BytesAppend(s[..k], [s[k]]);
    ItemFirst(s[k], []);
    assert [s[k]] + [] == [s[k]];
  }

  lemma ItemAt(prefix: seq<byte>, s: seq<Item>, k: nat)
    requires AllFit(s) && k < |s|
    ensures
      var b, o := prefix + Bytes(s), |prefix| + |Bytes(s[..k])|;
      && o + 2 + |s[k].body| <= |b| && b[o] == s[k].tag && b[o + 1] == |s[k].body|
      && b[o + 2..o + 2 + |s[k].body|] == s[k].body
      && |Bytes(s[..k + 1])| == |Bytes(s[..k])| + 2 + |s[k].body|
  {
    ItemSplit(s, k);
    OneAt(prefix, Bytes(s[..k]), [s[k].tag, |s[k].body|], s[k].body, Bytes(s[k + 1..]));
  }

  lemma OneAt(prefix: seq<byte>, done: seq<byte>, hdr: seq<byte>, body: seq<byte>, rest: seq<byte>)
    ensures
      var b, o := prefix + (done + (hdr + body + rest)), |prefix| + |done|;
      && o + |hdr| + |body| <= |b|
      && b[o..o + |hdr|] == hdr && (forall i :: 0 <= i < |hdr| ==> b[o + i] == hdr[i])
      && b[o + |hdr|..o + |hdr| + |body|] == body
  {
  }

  lemma AttrSplit(s: seq<Attr>, k: nat)
    requires AllAttrsFit(s) && k < |s|
    ensures
      var n := |s[k].body|;
      && AttrsBytes(s) == AttrsBytes(s[..k]) + ([s[k].id, n % 0x100, n / 0x100] + s[k].body + AttrsBytes(s[k + 1..]))
      && |AttrsBytes(s[..k + 1])| == |AttrsBytes(s[..k])| + 3 + n
  {
    assert s == s[..k] + s[k..] && s[k..] == [s[k]] + s[k + 1..];
    AttrsAppend(s[..k], s[k..]);
    AttrFirst(s[k], s[k + 1..]);
    assert s[..k + 1] == s[..k] + [s[k]];
    AttrsAppend(s[..k], [s[k]]);
    AttrFirst(s[k], []);
    assert [s[k]] + [] == [s[k]];
  }

  lemma AttrAt(prefix: seq<byte>, s: seq<Attr>, k: nat)
    requires AllAttrsFit(s) && k < |s|
    ensures
      var b, o := prefix + AttrsBytes(s), |prefix| + |AttrsBytes(s[..k])|;
      && o + 3 + |s[k].body| <= |b| && b[o] == s[k].id && Length16(b[o + 1], b[o + 2]) == |s[k].body|
      && |AttrsBytes(s[..k + 1])| == |AttrsBytes(s[..k])| + 3 + |s[k].body|
  {
    AttrSplit(s, k);
    var n := |s[k].body|;
    OneAt(prefix, AttrsBytes(s[..k]), [s[k].id, n % 0x100, n / 0x100], s[k].body, AttrsBytes(s[k + 1..]));
  }

  /** The P2P element in the frame. */
  lemma P2pAt(f: Frame)
    requires FrameOk(f) && f.p2p.Some?
    ensures
      var o := 32 + |Bytes(f.before)|;
      var b := FrameBytes(f);
      && o + 6 <= |b| && b[o] == VENDOR && b[o + 2..o + 5] == OUI && Items(f)[..|f.before|] == f.before
      && b[..o + 6] + AttrsBytes(Attrs(f.p2p.value)) + Bytes(f.after) == b
  {
    var p := f.p2p.value;
    ItemsLayout(f);
    P2pJoin(f.hdr, Bytes(f.before), [VENDOR, |P2pItem(p).body|], OUI + [p.kind], AttrsBytes(Attrs(p)), Bytes(f.after));
  }

  lemma P2pJoin(hdr: seq<byte>, before: seq<byte>, start: seq<byte>, kind: seq<byte>, attrs: seq<byte>,
                after: seq<byte>)
    requires |start| == 2 && |kind| == 4
    ensures
      var b, o := hdr + (before + (start + (kind + attrs)) + after), |hdr| + |before|;
      && o + 6 <= |b| && b[o] == start[0] && b[o + 2..o + 5] == kind[..3] && b[..o + 6] + attrs + after == b
  {
  }

  // ---------------------------------------------------------------- the frame rewritten

  /** The frame with the list the driver chooses, unless that is empty. */
  function Rewritten(t: Target, f: Frame): Frame {
    if HasList(f) && Chosen(t, f.p2p.value.list.value.entries) != []
    then WithEntries(f, Chosen(t, f.p2p.value.list.value.entries))
    else f
  }

  /** Nothing but the list and the lengths changes. */
  lemma RewrittenParts(t: Target, f: Frame)
    requires FrameOk(f) && HasList(f) && Chosen(t, f.p2p.value.list.value.entries) != []
    ensures PartsOk(FrameParts(f), f.p2p.value.list.value.entries)
    ensures AllFit(Chosen(t, f.p2p.value.list.value.entries))
    ensures |Bytes(Chosen(t, f.p2p.value.list.value.entries))| <= |FrameParts(f).e|
    ensures FrameOk(Rewritten(t, f))
    ensures FrameParts(Rewritten(t, f)) == Shrunk(FrameParts(f), Bytes(Chosen(t, f.p2p.value.list.value.entries)))
  {
    Layout(f);
    ChosenFits(t, f.p2p.value.list.value.entries);
    ShorterList(f.p2p.value, Chosen(t, f.p2p.value.list.value.entries));
  }

  lemma ShorterList(p: P2p, es: seq<Item>)
    requires AttrsOk(p) && p.list.Some? && AllFit(es) && |Bytes(es)| <= |Bytes(p.list.value.entries)|
    ensures
      var p' := p.(list := Some(p.list.value.(entries := es)));
      AttrsOk(p') && |P2pItem(p').body| == |P2pItem(p).body| - (|Bytes(p.list.value.entries)| - |Bytes(es)|)
  {
    AttrsLayout(p);
    AttrsLayout(p.(list := Some(p.list.value.(entries := es))));
  }

  /** The octets of the rewritten frame. */
  lemma RewrittenBytes(t: Target, f: Frame)
    requires FrameOk(f) && HasList(f) && Chosen(t, f.p2p.value.list.value.entries) != []
    ensures PartsOk(FrameParts(f), f.p2p.value.list.value.entries)
    ensures AllFit(Chosen(t, f.p2p.value.list.value.entries)) && FrameOk(Rewritten(t, f))
    ensures |Bytes(Chosen(t, f.p2p.value.list.value.entries))| <= |FrameParts(f).e|
    ensures FrameBytes(Rewritten(t, f)) == Join(Shrunk(FrameParts(f), Bytes(Chosen(t, f.p2p.value.list.value.entries))))
    ensures |FrameBytes(Rewritten(t, f))| ==
            |FrameBytes(f)| - (|FrameParts(f).e| - |Bytes(Chosen(t, f.p2p.value.list.value.entries))|)
  {
    RewrittenParts(t, f);
    Layout(f);
    Layout(Rewritten(t, f));
  }

  /** Reading the rewritten frame back: the same elements but the P2P element, in it the same
      attributes but the channel list, in it the same country and the list chosen. */
  lemma RewrittenReads(t: Target, f: Frame)
    requires FrameOk(f) && HasList(f) && Chosen(t, f.p2p.value.list.value.entries) != []
    ensures FrameOk(Rewritten(t, f))
    ensures
      var b := FrameBytes(Rewritten(t, f));
      var p, c := f.p2p.value, f.p2p.value.list.value;
      exists e, a ::
        && b[..32] == f.hdr && Parse(b[32..]) == Some(f.before + [e] + f.after)
        && e.tag == VENDOR && |e.body| >= 4 && e.body[..4] == OUI + [p.kind]
        && ParseAttrs(e.body[4..]) == Some(p.pre + [a] + p.post)
        && a.id == CHANNEL_LIST && |a.body| >= 3 && a.body[..3] == c.country
        && Parse(a.body[3..]) == Some(Chosen(t, c.entries))
  {
    RewrittenParts(t, f);
    var f' := Rewritten(t, f);
    var p' := f'.p2p.value;
    var e, a := P2pItem(p'), ListAttr(p'.list.value);
    RoundTrip(Items(f'));
    AttrsRoundTrip(Attrs(p'));
    RoundTrip(p'.list.value.entries);
    assert FrameBytes(f')[32..] == Bytes(Items(f'));
    assert e.body[4..] == AttrsBytes(Attrs(p'));
    assert a.body[3..] == Bytes(p'.list.value.entries);
  }
}
