/** Finding the channel list of a frame and narrowing it. */
module P2pFrames {
  import opened Collections
  import opened Octets
  import opened P2pFormat
  import opened P2pChannels
  import opened P2pRewrite
  import opened P2pLayout

  // ---------------------------------------------------------------- finding the element

  /** The octets from `o` on are those of an element of the vendor. */
  ghost predicate OuiHere(b: seq<byte>, o: nat)
    requires o + 5 <= |b| || (o < |b| && b[o] != VENDOR)
  {
    b[o] == VENDOR && b[o + 2] == 0x50 && b[o + 3] == 0x6f && b[o + 4] == 0x9a
  }

  /** The element at position `o`, the `k`th of the frame, is looked at. */
  ghost predicate Looking(f: Frame, k: nat, b: seq<byte>, o: nat)
    requires FrameOk(f)
  {
    && k < |Items(f)| && o + 2 <= |b| && (b[o] == VENDOR ==> o + 5 <= |b|)
    && (OuiHere(b, o) <==> k == |f.before|)
    && 32 + |Bytes(Items(f)[..k + 1])| == o + b[o + 1] as int + 2
  }

  lemma ItemHere(f: Frame, k: nat)
    requires FrameOk(f) && k <= |f.before| && 32 + |Bytes(Items(f)[..k])| < |FrameBytes(f)|
    ensures Looking(f, k, FrameBytes(f), 32 + |Bytes(Items(f)[..k])|)
  {
    var s := Items(f);
    assert s[..|s|] == s;
    ItemAt(f.hdr, s, k);
    OuiAt(f, k, FrameBytes(f), 32 + |Bytes(s[..k])|);
  }

  lemma OuiAt(f: Frame, k: nat, b: seq<byte>, o: nat)
    requires FrameOk(f) && k <= |f.before| && k < |Items(f)|
    requires o + 2 + |Items(f)[k].body| <= |b| && b[o] == Items(f)[k].tag
    requires b[o + 2..o + 2 + |Items(f)[k].body|] == Items(f)[k].body
    ensures b[o] == VENDOR ==> o + 5 <= |b|
    ensures OuiHere(b, o) <==> k == |f.before|
  {
    var e := Items(f)[k];
    if k < |f.before| {
      assert e == f.before[k];
      if e.tag == VENDOR {
        assert e.body[..3] == [e.body[0], e.body[1], e.body[2]] && e.body[..3] != OUI;
        assert e.body[0] == b[o + 2] && e.body[1] == b[o + 3] && e.body[2] == b[o + 4];
      }
    } else {
      assert e == P2pItem(f.p2p.value);
      assert e.body[0] == b[o + 2] && e.body[1] == b[o + 3] && e.body[2] == b[o + 4];
    }
  }

  lemma ItemsDone(f: Frame, k: nat)
    requires FrameOk(f) && k <= |f.before| && 32 + |Bytes(Items(f)[..k])| >= |FrameBytes(f)|
    ensures f.p2p.None?
  {
    if k < |Items(f)| {
      ItemAt(f.hdr, Items(f), k);
    }
  }

  /** aml_get_p2p_ie_offset: the position of the P2P element, 0 if there is none. */
  method GetP2pOffset(buf: array<byte>, frameLen: nat, ghost f: Frame) returns (offset: nat)
    requires FrameOk(f) && frameLen <= buf.Length && buf[..frameLen] == FrameBytes(f)
    ensures offset == if f.p2p.None? then 0 else 32 + |Bytes(f.before)|
  {
    ghost var items, k, b := Items(f), 0, FrameBytes(f);
    assert forall i :: 0 <= i < frameLen ==> buf[i] == b[i];
    offset := 24 + 8;
    while offset < frameLen
      invariant k <= |f.before| && offset == 32 + |Bytes(items[..k])|
      decreases |f.before| - k
    {
      ItemHere(f, k);
      var id, len := buf[offset], buf[offset + 1];
      if id == VENDOR && buf[offset + 2] == 0x50 && buf[offset + 3] == 0x6f && buf[offset + 4] == 0x9a {
        assert items[..k] == f.before;
        return;
      }
      offset := offset + len as int + 2;
      k := k + 1;
    }
    ItemsDone(f, k);
    offset := 0;
  }

  // ---------------------------------------------------------------- finding the list

  /** The search is at position `o` of `b`, behind the P2P element; `a` is what follows it. */
  ghost predicate Astray(b: seq<byte>, a: seq<byte>, o: nat) {
    && |a| <= |b|
    && if o >= |b| then !Strays(a)
       else (Strays(a) <==> Strays(b[o..])) && (Strays(a) ==> |b| - |a| + StrayPos(a) == o + StrayPos(b[o..]))
  }

  lemma AstrayNext(b: seq<byte>, a: seq<byte>, o: nat, lo: byte, hi: byte)
    requires Astray(b, a, o) && o < |b| && b[o] != CHANNEL_LIST
    requires o + 3 <= |b| ==> lo == b[o + 1] && hi == b[o + 2]
    ensures Astray(b, a, o + 3 + Length16(lo, hi))
  {
    var c, n := b[o..], 3 + Length16(lo, hi);
    if o + n < |b| {
      assert c[n..] == b[o + n..];
    }
  }

  /** The search is at attribute `k` of the P2P element or past its last one. */
  ghost predicate Searching(f: Frame, k: nat, o: nat)
    requires FrameOk(f) && f.p2p.Some?
  {
    var p := f.p2p.value;
    || (k <= |p.pre| && k < |Attrs(p)| && o == 38 + |Bytes(f.before)| + |AttrsBytes(Attrs(p)[..k])|)
    || (p.list.None? && Astray(FrameBytes(f), Bytes(f.after), o))
  }

  lemma AttrHere(f: Frame, k: nat)
    requires FrameOk(f) && f.p2p.Some? && k <= |f.p2p.value.pre| && k < |Attrs(f.p2p.value)|
    ensures
      var p := f.p2p.value;
      var o, b, s := 38 + |Bytes(f.before)| + |AttrsBytes(Attrs(p)[..k])|, FrameBytes(f), Attrs(p);
      && o + 3 <= |b| && (b[o] == CHANNEL_LIST <==> k == |p.pre|)
      && 38 + |Bytes(f.before)| + |AttrsBytes(s[..k + 1])| == o + Length16(b[o + 1], b[o + 2]) + 3
      && Length16(b[o + 1], b[o + 2]) == |s[k].body|
  {
    var p := f.p2p.value;
    var s, b := Attrs(p), FrameBytes(f);
    P2pAt(f);
    AttrAt(b[..38 + |Bytes(f.before)|], s, k);
    assert b == (b[..38 + |Bytes(f.before)|] + AttrsBytes(s)) + Bytes(f.after);
    if k < |p.pre| {
      assert s[k] == p.pre[k];
    } else {
      assert s[k] == ListAttr(p.list.value);
    }
  }

  /** Past the last attribute. */
  lemma PastAttrs(f: Frame)
    requires FrameOk(f) && f.p2p.Some? && f.p2p.value.list.None?
    ensures Astray(FrameBytes(f), Bytes(f.after), 38 + |Bytes(f.before)| + |AttrsBytes(Attrs(f.p2p.value))|)
  {
    P2pAt(f);
    var b, s := FrameBytes(f), AttrsBytes(Attrs(f.p2p.value));
    var o := 38 + |Bytes(f.before)| + |s|;
    assert (b[..38 + |Bytes(f.before)|] + s + Bytes(f.after))[o..] == Bytes(f.after);
  }

  lemma SearchStarts(f: Frame)
    requires FrameOk(f) && f.p2p.Some?
    ensures Searching(f, 0, 38 + |Bytes(f.before)|)
  {
    if Attrs(f.p2p.value) == [] {
      PastAttrs(f);
    } else {
      assert Attrs(f.p2p.value)[..0] == [];
    }
  }

  /** Where the channel list is, or what is taken for one, and its length. */
  ghost predicate Found(f: Frame, b: seq<byte>, o: nat, len: nat)
    requires FrameOk(f)
  {
    && (HasList(f) || GoesAstray(f))
    && o + 2 < |b| && len == Length16(b[o + 1], b[o + 2])
    && if HasList(f) then o == |FrameParts(f).head| + |FrameParts(f).mid| && len == FrameParts(f).lo
       else o == |FrameBytes(f)| - |Bytes(f.after)| + StrayPos(Bytes(f.after))
  }

  /** At an attribute of the P2P element. */
  lemma SearchAttr(f: Frame, k: nat, b: seq<byte>, o: nat)
    requires FrameOk(f) && f.p2p.Some? && FrameBytes(f) <= b && k <= |f.p2p.value.pre| && k < |Attrs(f.p2p.value)|
    requires o == 38 + |Bytes(f.before)| + |AttrsBytes(Attrs(f.p2p.value)[..k])|
    ensures o + 3 <= |b|
    ensures
      var n := Length16(b[o + 1], b[o + 2]);
      if b[o] == CHANNEL_LIST then Found(f, b, o, n) else Searching(f, k + 1, o + n + 3)
  {
    var p, s := f.p2p.value, Attrs(f.p2p.value);
    AttrHere(f, k);
    if k == |p.pre| {
      assert s[..k] == p.pre;
    } else if k + 1 == |s| {
      assert s[..k + 1] == s;
      PastAttrs(f);
    }
  }

  /** One round of the search, while octets are left; `b` is the buffer. */
  lemma SearchNext(f: Frame, k: nat, b: seq<byte>, o: nat)
    requires FrameOk(f) && f.p2p.Some? && Searching(f, k, o) && o < |FrameBytes(f)|
    requires |FrameBytes(f)| + 2 <= |b| && FrameBytes(f) <= b
    ensures
      var n := Length16(b[o + 1], b[o + 2]);
      if b[o] == CHANNEL_LIST then Found(f, b, o, n) else Searching(f, k + 1, o + n + 3)
  {
    var p, s := f.p2p.value, Attrs(f.p2p.value);
    if k <= |p.pre| && k < |s| && o == 38 + |Bytes(f.before)| + |AttrsBytes(s[..k])| {
      SearchAttr(f, k, b, o);
    } else if b[o] != CHANNEL_LIST {
      AstrayNext(FrameBytes(f), Bytes(f.after), o, b[o + 1], b[o + 2]);
    }
  }

  lemma SearchFails(f: Frame, k: nat, o: nat, frameLen: nat)
    requires FrameOk(f) && f.p2p.Some? && Searching(f, k, o) && |FrameBytes(f)| == frameLen <= o
    ensures !HasList(f) && !GoesAstray(f)
  {
    var p, s := f.p2p.value, Attrs(f.p2p.value);
    if k <= |p.pre| && k < |s| && o == 38 + |Bytes(f.before)| + |AttrsBytes(s[..k])| {
      AttrHere(f, k);
    }
  }

  /** The search for the channel list attribute, from the first attribute on. It may read two
      octets past the frame. */
  method FindList(buf: array<byte>, frameLen: nat, start: nat, ghost f: Frame)
    returns (found: bool, offset: nat, len: nat)
    requires FrameOk(f) && f.p2p.Some? && frameLen + 2 <= buf.Length && buf[..frameLen] == FrameBytes(f)
    requires start == 38 + |Bytes(f.before)|
    ensures found <==> HasList(f) || GoesAstray(f)
    ensures found ==> Found(f, buf[..], offset, len)
  {
    ghost var k := 0;
    found, offset, len := false, start, 0;
    SearchStarts(f);
    while offset < frameLen
      invariant !found && Searching(f, k, offset)
      decreases frameLen - offset
    {
      found, offset, len := LookAt(buf, frameLen, offset, f, k);
      if found {
        break;
      }
      k := k + 1;
    }
    if !found {
      SearchFails(f, k, offset, frameLen);
    }
  }

  method LookAt(buf: array<byte>, frameLen: nat, at: nat, ghost f: Frame, ghost k: nat)
    returns (found: bool, offset: nat, len: nat)
    requires FrameOk(f) && f.p2p.Some? && frameLen + 2 <= buf.Length && buf[..frameLen] == FrameBytes(f)
    requires Searching(f, k, at) && at < frameLen
    ensures if found then Found(f, buf[..], offset, len) else Searching(f, k + 1, offset) && offset > at
  {
    SearchNext(f, k, buf[..], at);
    found := buf[at] == CHANNEL_LIST;
    len := Length16(buf[at + 1], buf[at + 2]);
    offset := if found then at else at + len + 3;
  }

  // ---------------------------------------------------------------- the frame

  /** What the driver answers for frame `f`: the frame sent, shorter by the difference
      reported, and no other octet of the buffer changed. If the search has gone astray, the
      octets that it took for list `c` are narrowed as if they were the list. */
  ghost predicate Answer(t: Target, f: Frame, c: ChanList, frameLen: nat, b: seq<byte>, b2: seq<byte>, diff: nat)
    requires FrameOk(f) && (GoesAstray(f) ==> StrayList(f, c))
  {
    if GoesAstray(f) then NarrowedTo(t, StrayParts(f, c), c.entries, frameLen, b, b2, diff)
    else
      && FrameOk(Rewritten(t, f)) && diff <= frameLen <= |b2| == |b|
      && b2[..frameLen - diff] == FrameBytes(Rewritten(t, f)) && b2[frameLen..] == b[frameLen..]
  }

  /** aml_change_p2p_chanlist: the frame becomes the rewritten one, and what it gets shorter by
      is reported; it stays as it is if no list is found, or nothing of it is left. */
  method ChangeChanList(buf: array<byte>, frameLen: nat, t: Target, ghost f: Frame, ghost c: ChanList)
    returns (diff: nat)
    requires FrameOk(f) && frameLen + 2 <= buf.Length && buf[..frameLen] == FrameBytes(f)
    requires GoesAstray(f) ==> StrayList(f, c)
    modifies buf
    ensures Answer(t, f, c, frameLen, old(buf[..]), buf[..], diff)
  {
    ghost var b := buf[..];
    diff := 0;
    var offset := GetP2pOffset(buf, frameLen, f);
    if offset == 0 {
      return;
    }
    var found, o, len := FindList(buf, frameLen, offset + 6, f);
    if !found {
      return;
    }
    ghost var p, es := FoundParts(f, c, b, o, len);
    diff := Narrow(buf, frameLen, offset + 1, o, len, t, p, es);
    Answered(t, f, c, frameLen, b, buf[..], diff);
  }

  /** The parts around the list found. */
  lemma FoundParts(f: Frame, c: ChanList, b: seq<byte>, o: nat, len: nat) returns (p: Parts, es: seq<Item>)
    requires FrameOk(f) && (GoesAstray(f) ==> StrayList(f, c))
    requires FrameBytes(f) <= b && Found(f, b, o, len)
    ensures PartsOk(p, es) && FrameBytes(f) == Join(p)
    ensures o == |p.head| + |p.mid| && len == p.lo && |p.head| == 33 + |Bytes(f.before)|
    ensures
      if GoesAstray(f) then p == StrayParts(f, c) && es == c.entries
      else HasList(f) && p == FrameParts(f) && es == f.p2p.value.list.value.entries
  {
    if GoesAstray(f) {
      p, es := StrayParts(f, c), c.entries;
      PartsAt(p, es, b, |FrameBytes(f)|);
    } else {
      p, es := FrameParts(f), f.p2p.value.list.value.entries;
      Layout(f);
    }
  }

  lemma Answered(t: Target, f: Frame, c: ChanList, frameLen: nat, b: seq<byte>, b2: seq<byte>, diff: nat)
    requires FrameOk(f) && (HasList(f) || GoesAstray(f)) && frameLen <= |b| == |b2| && b[..frameLen] == FrameBytes(f)
    requires GoesAstray(f) ==> StrayList(f, c) && NarrowedTo(t, StrayParts(f, c), c.entries, frameLen, b, b2, diff)
    requires HasList(f) ==> NarrowedTo(t, FrameParts(f), f.p2p.value.list.value.entries, frameLen, b, b2, diff)
    ensures Answer(t, f, c, frameLen, b, b2, diff)
  {
    if !GoesAstray(f) && Chosen(t, f.p2p.value.list.value.entries) != [] {
      RewrittenBytes(t, f);
    }
  }

  // ---------------------------------------------------------------- gone astray

  /** An element of a vendor at position `o`, with `m` for its length. */
  ghost predicate ElementAt(b: seq<byte>, o: nat, m: byte, body: seq<byte>) {
    o + 2 + |body| <= |b| && b[o] == VENDOR && b[o + 1] == m && b[o + 2..o + 2 + |body|] == body
  }

  /** The octets of the P2P element are as before, but if the frame got shorter its length is
      not that of the octets any more. */
  lemma StrayLength(t: Target, f: Frame, c: ChanList, frameLen: nat, b: seq<byte>, b2: seq<byte>, diff: nat)
    requires FrameOk(f) && GoesAstray(f) && StrayList(f, c)
    requires Answer(t, f, c, frameLen, b, b2, diff) && diff > 0
    ensures
      var e := P2pItem(f.p2p.value);
      var m := (|e.body| - diff) % 0x100;
      ElementAt(b2, 32 + |Bytes(f.before)|, m, e.body) && m != |e.body|
  {
    var s, x := AstrayParts(t, f, c, frameLen, b, b2, diff);
    ElementStays(s, f.hdr + Bytes(f.before), P2pItem(f.p2p.value).body, x, b2, frameLen - diff);
  }

  lemma AstrayParts(t: Target, f: Frame, c: ChanList, frameLen: nat, b: seq<byte>, b2: seq<byte>, diff: nat)
    returns (s: Parts, x: seq<byte>)
    requires FrameOk(f) && GoesAstray(f) && StrayList(f, c)
    requires Answer(t, f, c, frameLen, b, b2, diff) && diff > 0
    ensures s.head == f.hdr + Bytes(f.before) + [VENDOR] && s.mid == P2pItem(f.p2p.value).body + x
    ensures s.m == (|P2pItem(f.p2p.value).body| - diff) % 0x100 && s.m != |P2pItem(f.p2p.value).body|
    ensures diff <= frameLen <= |b2| && b2[..frameLen - diff] == Join(s)
  {
    s := Shrunk(StrayParts(f, c), Bytes(Chosen(t, c.entries)));
    x := Bytes(f.after)[..StrayPos(Bytes(f.after))] + [CHANNEL_LIST];
    Wraps(|P2pItem(f.p2p.value).body|, diff);
  }

  lemma Wraps(n: byte, diff: nat)
    requires 0 < diff <= 200
    ensures (n - diff) % 0x100 != n
  {
  }

  lemma ElementStays(p: Parts, h: seq<byte>, body: seq<byte>, x: seq<byte>, b: seq<byte>, n: nat)
    requires n <= |b| && b[..n] == Join(p) && p.head == h + [VENDOR] && p.mid == body + x
    ensures ElementAt(b, |h|, p.m, body)
  {
    var g, o, y := b[..n], |h|, [p.lo, 0] + p.country + p.e + p.tail;
    assert g == p.head + [p.m] + p.mid + y;
    assert g == h + ([VENDOR, p.m] + body) + (x + y);
    assert b[o] == g[o] == VENDOR && b[o + 1] == g[o + 1] == p.m;
    assert g[o + 2..o + 2 + |body|] == body;
    SubSlice(b, n, o + 2, o + 2 + |body|);
  }

  /** An invitation response that reports a failure, and so has no channel list; elements
      numbered 11 and 45 follow. */
  ghost function Refusal(): Frame {
    Frame(seq(32, i => 0), [], Some(P2p(9, [Attr(0, [1])], None, [])),
          [Item(11, [0, 88, 88, 4, 81, 3, 1, 6]), Item(45, [])])
  }

  /** What the search takes for a list in it. */
  function NoRealList(): ChanList {
    ChanList([88, 88, 4], [Item(81, [1, 6, 45])])
  }

  lemma RefusalOctets()
    ensures
      var f := Refusal();
      && FrameOk(f) && Bytes(f.after) == [11, 8, 0, 88, 88, 4, 81, 3, 1, 6, 45, 0]
      && Bytes(f.before) == [] && AttrsBytes(f.p2p.value.pre) == [0, 1, 0, 1]
      && P2pItem(f.p2p.value).body == [0x50, 0x6f, 0x9a, 9, 0, 1, 0, 1]
  {
    var f := Refusal();
    ItemFirst(f.after[0], [f.after[1]]);
    OneEntry(f.after[1]);
    AttrFirst(Attr(0, [1]), []);
  }

  lemma RefusalList()
    ensures var c := NoRealList(); ListOk(c) && AttrBytes(ListAttr(c)) == [11, 8, 0, 88, 88, 4, 81, 3, 1, 6, 45]
  {
    OneEntry(NoRealList().entries[0]);
  }

  lemma RefusalChosen()
    ensures
      var cs := Chosen(Target(6, false, false, {}), NoRealList().entries);
      AllFit(cs) && Bytes(cs) == [81, 1, 6]
  {
    var e := Item(81, [1, 6, 45]);
    assert e.body[1] == 6;
    assert [e][1..] == [];
    OneEntry(Item(81, [6]));
  }

  lemma RefusalGoesAstray()
    ensures FrameOk(Refusal()) && GoesAstray(Refusal()) && StrayList(Refusal(), NoRealList())
    ensures StrayPos(Bytes(Refusal().after)) == 0
  {
    RefusalOctets();
    RefusalList();
    assert Bytes(Refusal().after)[..11] == AttrBytes(ListAttr(NoRealList()));
  }

  /** The search finds a list in it, the octets of the two elements after the P2P element. */
  lemma RefusalStrays()
    ensures FrameOk(Refusal()) && !HasList(Refusal()) && GoesAstray(Refusal()) && StrayList(Refusal(), NoRealList())
    ensures FrameBytes(Refusal())[32..] ==
              [221, 8, 0x50, 0x6f, 0x9a, 9, 0, 1, 0, 1, 11, 8, 0, 88, 88, 4] + [81, 3, 1, 6, 45] + [0]
  {
    RefusalGoesAstray();
    var p := RefusalParts();
    RefusalJoin(p);
  }

  /** On channel 6 it is rewritten, and then its P2P element ends within an attribute. */
  lemma RefusalRewritten(frameLen: nat, b: seq<byte>, b2: seq<byte>, diff: nat)
    requires FrameOk(Refusal()) && GoesAstray(Refusal()) && StrayList(Refusal(), NoRealList())
    requires Answer(Target(6, false, false, {}), Refusal(), NoRealList(), frameLen, b, b2, diff)
    ensures diff == 2 && 34 <= frameLen <= |b2|
    ensures b2[..frameLen - 2][32..] ==
              [221, 6, 0x50, 0x6f, 0x9a, 9, 0, 1, 0, 1, 11, 6, 0, 88, 88, 4] + [81, 1, 6] + [0]
    ensures ParseAttrs([0, 1]) == None
  {
    RefusalChosen();
    var p := RefusalParts();
    RefusalJoin(Shrunk(p, [81, 1, 6]));
  }

  lemma RefusalParts() returns (p: Parts)
    requires FrameOk(Refusal()) && GoesAstray(Refusal()) && StrayList(Refusal(), NoRealList())
    ensures p == StrayParts(Refusal(), NoRealList()) && FrameBytes(Refusal()) == Join(p) && |p.head| == 33
    ensures p.head[32] == 221 && p.m == 8 && p.lo == 8
    ensures p.country == [88, 88, 4] && p.e == [81, 3, 1, 6, 45] && p.tail == [0]
    ensures p.mid == [0x50, 0x6f, 0x9a, 9, 0, 1, 0, 1, 11]
  {
    RefusalGoesAstray();
    RefusalOctets();
    OneEntry(NoRealList().entries[0]);
    p := StrayParts(Refusal(), NoRealList());
  }

  lemma RefusalJoin(p: Parts)
    requires |p.head| == 33 && p.head[32] == 221 && p.country == [88, 88, 4]
    requires p.mid == [0x50, 0x6f, 0x9a, 9, 0, 1, 0, 1, 11]
    ensures Join(p)[32..] ==
              [221, p.m, 0x50, 0x6f, 0x9a, 9, 0, 1, 0, 1, 11, p.lo, 0, 88, 88, 4] + p.e + p.tail
  {
    JoinFrom(p);
  }

  lemma JoinFrom(p: Parts)
    requires |p.head| == 33
    ensures Join(p)[32..] == [p.head[32], p.m] + p.mid + [p.lo, 0] + p.country + p.e + p.tail
  {
  }
}
