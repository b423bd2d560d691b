/** Narrowing a channel list in place: the octets of the list are overwritten, its length and
    that of the element around it are set, and the rest of the frame moves up. */
module P2pRewrite {
  import opened Collections
  import opened Octets
  import opened P2pFormat
  import opened P2pChannels

  // ---------------------------------------------------------------- copying

  /** memcpy from one buffer to another. */
  method CopyTo(dst: array<byte>, at: nat, src: array<byte>, from: nat, n: nat)
    requires dst != src && at + n <= dst.Length && from + n <= src.Length
    modifies dst
    ensures forall k :: 0 <= k < dst.Length ==> dst[k] == if at <= k < at + n then src[from + k - at] else old(dst[k])
  {
    var i := 0;
    while i < n
      invariant i <= n && forall k :: at <= k < at + i ==> dst[k] == src[from + k - at]
      invariant forall k :: 0 <= k < dst.Length && !(at <= k < at + i) ==> dst[k] == old(dst[k])
    {
      dst[at + i] := src[from + i];
      i := i + 1;
    }
  }

  /** `b1` is `b` with the `n` octets from `from` on repeated from `at` on. */
  ghost predicate Moved(b: seq<byte>, b1: seq<byte>, at: nat, from: nat, n: nat) {
    && |b1| == |b| && at <= from && from + n <= |b|
    && forall k {:trigger b1[k]} :: 0 <= k < |b| ==> b1[k] == b[if at <= k < at + n then from + k - at else k]
  }

  /** memcpy to a lower place in the same buffer, octet by octet from below. */
  method MoveDown(buf: array<byte>, at: nat, from: nat, n: nat)
    requires at <= from && from + n <= buf.Length
    modifies buf
    ensures Moved(old(buf[..]), buf[..], at, from, n)
  {
    var i := 0;
    while i < n
      invariant i <= n && forall k :: at <= k < at + i ==> buf[k] == old(buf[from + k - at])
      invariant forall k :: 0 <= k < buf.Length && !(at <= k < at + i) ==> buf[k] == old(buf[k])
    {
      buf[at + i] := buf[from + i];
      i := i + 1;
    }
  }

  // ---------------------------------------------------------------- the list

  /** Whether one of the `n` channels from position `at` is the one in use. */
  method HasChan(buf: array<byte>, at: nat, n: nat, chan: byte) returns (has: bool)
    requires at + n <= buf.Length
    ensures has <==> chan in buf[at..at + n]
  {
    var i := 0;
    while i < n
      invariant i <= n && chan !in buf[at..at + i]
    {
      assert buf[at..at + i + 1] == buf[at..at + i] + [buf[at + i]];
      if buf[at + i] == chan {
        assert buf[at..at + n][i] == chan;
        return true;
      }
      i := i + 1;
    }
    return false;
  }

  /** Entries `es` from position `at` on. */
  ghost predicate Holds(buf: seq<byte>, at: nat, es: seq<Item>)
  {
    AllFit(es) && at + |Bytes(es)| <= |buf| && buf[at..at + |Bytes(es)|] == Bytes(es)
  }

  lemma FirstHeld(buf: seq<byte>, at: nat, es: seq<Item>)
    requires Holds(buf, at, es) && es != []
    ensures
      var e := es[0];
      && at + 2 + |e.body| <= |buf| && buf[at] == e.tag && buf[at + 1] == |e.body|
      && buf[at + 2..at + 2 + |e.body|] == e.body && buf[at..at + 2 + |e.body|] == ItemBytes(e)
      && Holds(buf, at + 2 + |e.body|, es[1..]) && |Bytes(es)| == 2 + |e.body| + |Bytes(es[1..])|
  {
    var e, b := es[0], buf[at..at + |Bytes(es)|];
    var n := 2 + |e.body|;
    assert b == ItemBytes(e) + Bytes(es[1..]);
    assert b[..n] == ItemBytes(e) && b[n..] == Bytes(es[1..]);
    assert buf[at..at + n] == b[..n] && buf[at + n..at + n + |Bytes(es[1..])|] == b[n..];
    assert buf[at + 2..at + n] == b[..n][2..];
    assert b[0] == e.tag && b[1] == |e.body|;
  }

  /** The loop goes on exactly while entries are left that are not a short last one. */
  lemma GoesOn(t: Target, es: seq<Item>)
    requires AllFit(es)
    ensures |Bytes(es)| > 3 <==> !(es == [] || (|es| == 1 && |es[0].body| < 2))
    ensures |Bytes(es)| <= 3 ==> Chosen(t, es) == []
  {
    if |es| == 1 {
      assert es[1..] == [];
    }
  }

  /** Entry `e` at position `at`. */
  ghost predicate EntryAt(b: seq<byte>, at: nat, e: Item)
    requires Fits(e)
  {
    && at + 2 + |e.body| <= |b| && b[at] == e.tag && b[at + 1] == |e.body|
    && b[at + 2..at + 2 + |e.body|] == e.body && b[at..at + 2 + |e.body|] == ItemBytes(e)
  }

  /** One entry: what it contributes is put at position `n` of the local buffer. */
  method KeepEntry(buf: array<byte>, at: nat, t: Target, ghost e: Item, local: array<byte>, n: nat) returns (n': nat)
    requires local != buf && Fits(e) && EntryAt(buf[..], at, e)
    requires n + 2 + |e.body| <= local.Length
    modifies local
    ensures AllFit(Kept(t, e)) && n' == n + |Bytes(Kept(t, e))| <= n + 2 + |e.body|
    ensures local[..n'] == old(local[..n]) + Bytes(Kept(t, e))
  {
    KeptFits(t, e);
    var cls, len := buf[at], buf[at + 1] as int;
    n' := n;
    if t.is5g && !t.peer5g && cls in t.twoGhz {
      OneEntry(e);
      CopyTo(local, n, buf, at, len + 2);
      n' := n + len + 2;
      assert local[..n'] == local[..n] + local[n..n'];
      return;
    }
    var has := HasChan(buf, at + 2, len, t.chan);
    if has {
      OneEntry(Item(cls, [t.chan]));
      n' := PutEntry(local, n, cls, t.chan);
    }
  }

  /** A class with a single channel is put at position `n`. */
  method PutEntry(local: array<byte>, n: nat, cls: byte, chan: byte) returns (n': nat)
    requires n + 3 <= local.Length
    modifies local
    ensures n' == n + 3 && local[..n'] == old(local[..n]) + [cls, 1, chan]
  {
    local[n] := cls;
    local[n + 1] := 1;
    local[n + 2] := chan;
    n' := n + 3;
    assert local[..n'] == local[..n] + [cls, 1, chan];
  }

  lemma OneEntry(e: Item)
    requires Fits(e)
    ensures Bytes([e]) == ItemBytes(e)
  {
    assert [e][1..] == [];
    assert ItemBytes(e) + [] == ItemBytes(e);
  }

  /** What is in the local buffer, followed by what is chosen of the entries left, is what is
      chosen of all. */
  ghost predicate Progress(t: Target, es: seq<Item>, rest: seq<Item>, done: seq<byte>) {
    && AllFit(Chosen(t, es)) && AllFit(Chosen(t, rest))
    && done + Bytes(Chosen(t, rest)) == Bytes(Chosen(t, es))
  }

  lemma ProgressNext(t: Target, es: seq<Item>, rest: seq<Item>, done: seq<byte>)
    requires AllFit(rest) && Progress(t, es, rest, done) && |Bytes(rest)| > 3
    ensures rest != [] && AllFit(Kept(t, rest[0]))
    ensures Progress(t, es, rest[1..], done + Bytes(Kept(t, rest[0])))
  {
    GoesOn(t, rest);
    ChosenFits(t, rest[1..]);
    KeptFits(t, rest[0]);
    BytesAppend(Kept(t, rest[0]), Chosen(t, rest[1..]));
    Regroup(done, Bytes(Kept(t, rest[0])), Bytes(Chosen(t, rest[1..])));
  }

  lemma ProgressEnds(t: Target, es: seq<Item>, rest: seq<Item>, done: seq<byte>)
    requires AllFit(rest) && Progress(t, es, rest, done) && |Bytes(rest)| <= 3
    ensures done == Bytes(Chosen(t, es))
  {
    GoesOn(t, rest);
  }

  /** The entries `rest` are left, from position `idx` of the attribute on. */
  ghost predicate Choosing(t: Target, es: seq<Item>, rest: seq<Item>, b: seq<byte>, offset: nat, idx: nat, len: nat,
                           done: seq<byte>)
  {
    && Holds(b, offset + idx, rest) && idx + |Bytes(rest)| == len + 3 && |done| + 6 <= idx
    && Progress(t, es, rest, done)
  }

  lemma ChoosingNext(t: Target, es: seq<Item>, rest: seq<Item>, b: seq<byte>, offset: nat, idx: nat, len: nat,
                     done: seq<byte>)
    requires Choosing(t, es, rest, b, offset, idx, len, done) && idx < len
    ensures rest != []
    ensures
      var e := rest[0];
      && Fits(e) && EntryAt(b, offset + idx, e) && |done| + 2 + |e.body| <= len - 3
      && AllFit(Kept(t, e)) && |Bytes(Kept(t, e))| <= 2 + |e.body|
      && Choosing(t, es, rest[1..], b, offset, idx + 2 + |e.body|, len, done + Bytes(Kept(t, e)))
  {
    ProgressNext(t, es, rest, done);
    FirstHeld(b, offset + idx, rest);
    KeptFits(t, rest[0]);
  }

  method ChooseNext(buf: array<byte>, ghost b: seq<byte>, offset: nat, idx: nat, ghost len: nat, t: Target,
                    ghost es: seq<Item>, ghost rest: seq<Item>, local: array<byte>, n: nat) returns (n': nat, idx': nat)
    requires buf[..] == b && local != buf && n <= local.Length == 200 && len + 3 <= 206 && idx < len
    requires Choosing(t, es, rest, b, offset, idx, len, local[..n])
    modifies local
    ensures n' <= 200 && rest != [] && idx' > idx
    ensures Choosing(t, es, rest[1..], b, offset, idx', len, local[..n'])
  {
    ghost var done := local[..n];
    ChoosingNext(t, es, rest, b, offset, idx, len, done);
    ghost var e := rest[0];
    n' := KeepEntry(buf, offset + idx, t, e, local, n);
    assert local[..n'] == done + Bytes(Kept(t, e));
    idx' := idx + buf[offset + idx + 1] as int + 2;
    assert idx' == idx + 2 + |e.body|;
  }

  lemma ChoosingStarts(t: Target, es: seq<Item>, b: seq<byte>, offset: nat, len: nat)
    requires Holds(b, offset + 6, es) && len == 3 + |Bytes(es)|
    ensures Choosing(t, es, es, b, offset, 6, len, [])
  {
    ChosenFits(t, es);
    assert [] + Bytes(Chosen(t, es)) == Bytes(Chosen(t, es));
  }

  lemma ChoosingEnds(t: Target, es: seq<Item>, rest: seq<Item>, b: seq<byte>, offset: nat, idx: nat, len: nat,
                     done: seq<byte>)
    requires Holds(b, offset + 6, es) && Choosing(t, es, rest, b, offset, idx, len, done) && idx >= len
    ensures AllFit(Chosen(t, es)) && done == Bytes(Chosen(t, es)) && |done| <= |Bytes(es)|
  {
    ProgressEnds(t, es, rest, done);
    ChosenFits(t, es);
  }

  /** The entries chosen of the list at `offset` are put in a local buffer. */
  method Choose(buf: array<byte>, offset: nat, len: nat, t: Target, ghost es: seq<Item>)
    returns (local: array<byte>, n: nat)
    requires Holds(buf[..], offset + 6, es) && len == 3 + |Bytes(es)| <= 203
    ensures fresh(local) && n <= |Bytes(es)| && n <= local.Length
    ensures AllFit(Chosen(t, es)) && local[..n] == Bytes(Chosen(t, es))
  {
    ghost var b := buf[..];
    ChoosingStarts(t, es, b, offset, len);
    local := new byte[200](i => 0);
    n := ChooseAll(buf, offset, len, t, es, local);
  }

  method ChooseAll(buf: array<byte>, offset: nat, len: nat, t: Target, ghost es: seq<Item>, local: array<byte>)
    returns (n: nat)
    requires local != buf && local.Length == 200 && len <= 203 && Holds(buf[..], offset + 6, es)
    requires Choosing(t, es, es, buf[..], offset, 6, len, [])
    modifies local
    ensures n <= 200 && AllFit(Chosen(t, es)) && local[..n] == Bytes(Chosen(t, es)) && n <= |Bytes(es)|
  {
    ghost var b, rest := buf[..], es;
    var idx: nat := 3 + 3;
    n := 0;
    assert local[..n] == [];
    while idx < len
      invariant buf[..] == b && n <= 200 && Choosing(t, es, rest, b, offset, idx, len, local[..n])
      decreases len - idx
    {
      n, idx := ChooseNext(buf, b, offset, idx, len, t, es, rest, local, n);
      rest := rest[1..];
    }
    ChoosingEnds(t, es, rest, b, offset, idx, len, local[..n]);
  }

  /** `b1` is `b` with the octets `e` from position `at` on. */
  ghost predicate Overwritten(b: seq<byte>, b1: seq<byte>, at: nat, e: seq<byte>) {
    && |b1| == |b| && at + |e| <= |b|
    && forall i {:trigger b1[i]} :: 0 <= i < |b| ==> b1[i] == if at <= i < at + |e| then e[i - at] else b[i]
  }

  /** aml_scc_p2p_rewrite_chan_list: the entries after the country of the list at `offset` are
      overwritten by those chosen; their length is returned. */
  method RewriteChanList(buf: array<byte>, offset: nat, t: Target, ghost es: seq<Item>) returns (n: nat)
    requires offset + 6 <= buf.Length && Holds(buf[..], offset + 6, es) && |Bytes(es)| <= 200
    requires Length16(buf[offset + 1], buf[offset + 2]) == 3 + |Bytes(es)|
    modifies buf
    ensures AllFit(Chosen(t, es)) && n == |Bytes(Chosen(t, es))| <= |Bytes(es)|
    ensures Overwritten(old(buf[..]), buf[..], offset + 6, Bytes(Chosen(t, es)))
  {
    var local;
    var len := Length16(buf[offset + 1], buf[offset + 2]);
    local, n := Choose(buf, offset, len, t, es);
    CopyTo(buf, offset + 3 + 3, local, 0, n);
  }

  // ---------------------------------------------------------------- around the list

  /** `b2` is `b1` with the lengths at `m` and `o` smaller by `diff`, and `diff` octets that end
      before `end` left out. */
  ghost predicate Closed(b1: seq<byte>, b2: seq<byte>, frameLen: nat, m: nat, o: nat, end: nat, diff: nat) {
    && m < o && diff <= end && o + 6 <= end - diff && end <= frameLen <= |b1| == |b2| && b1[o + 1] >= diff
    && b2[m] == (b1[m] - diff) % 0x100 && b2[o + 1] == b1[o + 1] - diff && b2[o + 2] == 0
    && (forall i {:trigger b2[i]} :: 0 <= i < end - diff && i != m && i != o + 1 && i != o + 2 ==> b2[i] == b1[i])
    && (forall i {:trigger b2[i]} :: end - diff <= i < frameLen - diff ==> b2[i] == b1[i + diff])
    && (forall i {:trigger b2[i]} :: frameLen <= i < |b1| ==> b2[i] == b1[i])
  }

  lemma ClosedIs(b: seq<byte>, mid: seq<byte>, b2: seq<byte>, frameLen: nat, m: nat, o: nat, len: nat, n: nat,
                 after: nat)
    requires m < o && n + 3 <= len < 0x100 && o + 3 + len <= frameLen <= |b| && b[o + 1] == len
    requires mid == b[o + 1 := n + 3][o + 2 := 0][m := (b[m] - (len - (n + 3))) % 0x100]
    requires after == n + 3 && Moved(mid, b2, o + 3 + after, o + 3 + len, frameLen - o - 3 - len)
    ensures Closed(b, b2, frameLen, m, o, o + 3 + len, len - (n + 3))
  {
  }

  method SetLengths(buf: array<byte>, m: nat, o: nat, after: nat, diff: nat)
    requires m < o && o + 2 < buf.Length && after < 0x100
    modifies buf
    ensures buf[..] == old(buf[..])[o + 1 := after][o + 2 := 0][m := (old(buf[m]) - diff) % 0x100]
  {
    buf[o + 1] := after % 0x100;
    buf[o + 2] := 0;   // the source shifts by 255 where 8 is meant
    buf[m] := (buf[m] - diff) % 0x100;
  }

  /** The lengths are set and the rest of the frame moves up to the new end of the list:
      `m` is the position of the length of the element, `o` that of the list, `len` its old
      length and `n` the number of octets its entries have now. */
  method Close(buf: array<byte>, frameLen: nat, m: nat, o: nat, len: nat, n: nat) returns (diff: nat)
    requires m < o && n + 3 <= len < 0x100 && o + 3 + len <= frameLen <= buf.Length
    requires Length16(buf[o + 1], buf[o + 2]) == len
    modifies buf
    ensures diff == len - (n + 3) && Closed(old(buf[..]), buf[..], frameLen, m, o, o + 3 + len, diff)
  {
    ghost var b := buf[..];
    var after := n + 3;
    var before := Length16(buf[o + 1], buf[o + 2]);
    diff := before - after;
    SetLengths(buf, m, o, after, diff);
    ghost var mid := buf[..];
    MoveDown(buf, o + 3 + after, o + 3 + len, frameLen - o - 3 - len);
    ClosedIs(b, mid, buf[..], frameLen, m, o, len, n, after);
  }

  /** A frame around a channel list: `m` is the length of the element, `lo` that of the list,
      `e` are the entries. */
  datatype Parts = Parts(head: seq<byte>, m: byte, mid: seq<byte>, lo: byte, country: seq<byte>, e: seq<byte>,
                         tail: seq<byte>)

  ghost function Join(p: Parts): seq<byte> {
    p.head + [p.m] + p.mid + [p.lo, 0] + p.country + p.e + p.tail
  }

  ghost predicate PartsOk(p: Parts, es: seq<Item>) {
    && AllFit(es) && p.e == Bytes(es) && |p.e| <= 200 && |p.country| == 3 && |p.mid| > 0
    && p.lo == |p.e| + 3
  }

  /** The frame with other entries, no longer than before. */
  ghost function Shrunk(p: Parts, e: seq<byte>): Parts
    requires |e| <= |p.e| <= p.lo
  {
    p.(m := (p.m - (|p.e| - |e|)) % 0x100, lo := p.lo - (|p.e| - |e|), e := e)
  }

  lemma SevenSlices(a: seq<byte>, m: byte, d: seq<byte>, lo: byte, hi: byte, c: seq<byte>, e: seq<byte>, t: seq<byte>,
                    b: seq<byte>)
    requires b == a + [m] + d + [lo, hi] + c + e + t && |c| == 3
    ensures
      var o := |a| + |d|;
      && |b| == o + 6 + |e| + |t|
      && b[..|a|] == a && b[|a|] == m && b[|a| + 1..o + 1] == d && b[o + 1] == lo && b[o + 2] == hi
      && b[o + 3..o + 6] == c && b[o + 6..o + 6 + |e|] == e && b[o + 6 + |e|..] == t
  {
  }

  lemma SevenJoined(a: seq<byte>, m: byte, d: seq<byte>, lo: byte, hi: byte, c: seq<byte>, e: seq<byte>, t: seq<byte>,
                    b: seq<byte>)
    requires |c| == 3 && |b| == |a| + |d| + 6 + |e| + |t|
    requires
      var o := |a| + |d|;
      && b[..|a|] == a && b[|a|] == m && b[|a| + 1..o + 1] == d && b[o + 1] == lo && b[o + 2] == hi
      && b[o + 3..o + 6] == c && b[o + 6..o + 6 + |e|] == e && b[o + 6 + |e|..] == t
    ensures b == a + [m] + d + [lo, hi] + c + e + t
  {
    var o := |a| + |d|;
    assert b == b[..|a|] + [b[|a|]] + b[|a| + 1..o + 1] + [b[o + 1], b[o + 2]] + b[o + 3..o + 6]
                + b[o + 6..o + 6 + |e|] + b[o + 6 + |e|..];
  }

  lemma Spliced(a: seq<byte>, m: byte, d: seq<byte>, lo: byte, c: seq<byte>, e0: seq<byte>, e: seq<byte>, t: seq<byte>,
                b: seq<byte>, b1: seq<byte>, b2: seq<byte>, frameLen: nat)
    requires |c| == 3 && |e| <= |e0| && frameLen <= |b| && b[..frameLen] == a + [m] + d + [lo, 0] + c + e0 + t
    requires
      var o := |a| + |d|;
      && Overwritten(b, b1, o + 6, e) && |d| > 0
      && Closed(b1, b2, frameLen, |a|, o, o + 6 + |e0|, |e0| - |e|)
    ensures
      var diff := |e0| - |e|;
      && lo >= diff && diff <= frameLen
      && b2[..frameLen - diff] == a + [(m - diff) % 0x100] + d + [lo - diff, 0] + c + e + t
      && b2[frameLen..] == b[frameLen..]
  {
    var g := b[..frameLen];
    SevenSlices(a, m, d, lo, 0, c, e0, t, g);
    SplicedOctets(b, b1, b2, frameLen, |a|, |a| + |d|, e, |e0|);
    SplicedSlices(a, d, c, e0, e, t, b, b1, b2, frameLen);
    SevenJoined(a, (m - (|e0| - |e|)) % 0x100, d, lo - (|e0| - |e|), 0, c, e, t, b2[..frameLen - (|e0| - |e|)]);
  }

  lemma SplicedOctets(b: seq<byte>, b1: seq<byte>, b2: seq<byte>, frameLen: nat, m: nat, o: nat, e: seq<byte>, n: nat)
    requires |e| <= n && o + 6 + n <= frameLen <= |b| && m < o
    requires Overwritten(b, b1, o + 6, e) && Closed(b1, b2, frameLen, m, o, o + 6 + n, n - |e|)
    ensures
      var g, h, diff := b[..frameLen], b2[..frameLen - (n - |e|)], n - |e|;
      && g[o + 1] >= diff && h[m] == (g[m] - diff) % 0x100 && h[o + 1] == g[o + 1] - diff && h[o + 2] == 0
    ensures b2[frameLen..] == b[frameLen..]
  {
  }

  lemma SplicedSlices(a: seq<byte>, d: seq<byte>, c: seq<byte>, e0: seq<byte>, e: seq<byte>, t: seq<byte>,
                      b: seq<byte>, b1: seq<byte>, b2: seq<byte>, frameLen: nat)
    requires |c| == 3 && |e| <= |e0| && frameLen <= |b| && frameLen == |a| + |d| + 6 + |e0| + |t| && |d| > 0
    requires
      var o, g := |a| + |d|, b[..frameLen];
      && g[..|a|] == a && g[|a| + 1..o + 1] == d && g[o + 3..o + 6] == c && g[o + 6 + |e0|..] == t
      && Overwritten(b, b1, o + 6, e) && Closed(b1, b2, frameLen, |a|, o, o + 6 + |e0|, |e0| - |e|)
    ensures
      var o, g := |a| + |d|, b2[..frameLen - (|e0| - |e|)];
      && g[..|a|] == a && g[|a| + 1..o + 1] == d && g[o + 3..o + 6] == c && g[o + 6..o + 6 + |e|] == e
      && g[o + 6 + |e|..] == t
  {
    var o, g := |a| + |d|, b[..frameLen];
    assert forall i :: 0 <= i < |a| ==> a[i] == g[i];
    assert forall i :: 0 <= i < |d| ==> d[i] == g[|a| + 1 + i];
    assert forall i :: 0 <= i < 3 ==> c[i] == g[o + 3 + i];
    assert forall i :: 0 <= i < |t| ==> t[i] == g[o + 6 + |e0| + i];
  }

  /** Positions in a frame. */
  lemma PartsAt(p: Parts, es: seq<Item>, b: seq<byte>, frameLen: nat)
    requires PartsOk(p, es) && frameLen <= |b| && b[..frameLen] == Join(p)
    ensures
      var o := |p.head| + |p.mid|;
      && frameLen == o + 6 + |p.e| + |p.tail|
      && Holds(b, o + 6, es) && b[|p.head|] == p.m && Length16(b[o + 1], b[o + 2]) == p.lo
  {
    var g, o := b[..frameLen], |p.head| + |p.mid|;
    SevenSlices(p.head, p.m, p.mid, p.lo, 0, p.country, p.e, p.tail, g);
    HeldThere(b, frameLen, o + 6, p.e, es);
    assert b[o + 1] == g[o + 1] && b[o + 2] == g[o + 2] && b[|p.head|] == g[|p.head|];
  }

  lemma HeldThere(b: seq<byte>, frameLen: nat, at: nat, e: seq<byte>, es: seq<Item>)
    requires AllFit(es) && e == Bytes(es) && at + |e| <= frameLen <= |b| && b[..frameLen][at..at + |e|] == e
    ensures Holds(b, at, es)
  {
    SubSlice(b, frameLen, at, at + |e|);
  }

  lemma SplicedParts(p: Parts, es: seq<Item>, e: seq<byte>, b: seq<byte>, b1: seq<byte>, b2: seq<byte>, frameLen: nat)
    requires PartsOk(p, es) && |e| <= |p.e| && frameLen <= |b| && b[..frameLen] == Join(p)
    requires
      var o := |p.head| + |p.mid|;
      Overwritten(b, b1, o + 6, e) && Closed(b1, b2, frameLen, |p.head|, o, o + 3 + p.lo as int, |p.e| - |e|)
    ensures |p.e| - |e| <= frameLen && b2[..frameLen - (|p.e| - |e|)] == Join(Shrunk(p, e))
    ensures b2[frameLen..] == b[frameLen..]
  {
    Spliced(p.head, p.m, p.mid, p.lo, p.country, p.e, e, p.tail, b, b1, b2, frameLen);
  }

  /** What becomes of a frame with these parts: it stays if nothing is chosen, else it is joined
      with the entries chosen, and shorter by `diff`. */
  ghost predicate NarrowedTo(t: Target, p: Parts, es: seq<Item>, frameLen: nat, b: seq<byte>, b2: seq<byte>,
                             diff: nat)
  {
    && AllFit(Chosen(t, es)) && |Bytes(Chosen(t, es))| <= |p.e| <= p.lo && frameLen <= |b2| == |b|
    && if Chosen(t, es) == [] then diff == 0 && b2 == b
       else
         && diff == |p.e| - |Bytes(Chosen(t, es))| <= frameLen
         && b2[..frameLen - diff] == Join(Shrunk(p, Bytes(Chosen(t, es)))) && b2[frameLen..] == b[frameLen..]
  }

  lemma NarrowedNot(t: Target, p: Parts, es: seq<Item>, frameLen: nat, b: seq<byte>, b1: seq<byte>)
    requires PartsOk(p, es) && frameLen <= |b| && AllFit(Chosen(t, es)) && |Bytes(Chosen(t, es))| == 0
    requires Overwritten(b, b1, |p.head| + |p.mid| + 6, Bytes(Chosen(t, es)))
    ensures NarrowedTo(t, p, es, frameLen, b, b1, 0)
  {
    assert b1 == b;
  }

  /** The entries chosen are in place; `n` is their length. */
  ghost predicate InPlace(t: Target, p: Parts, es: seq<Item>, frameLen: nat, b: seq<byte>, b1: seq<byte>, n: nat) {
    && PartsOk(p, es) && frameLen <= |b| && b[..frameLen] == Join(p)
    && AllFit(Chosen(t, es)) && n == |Bytes(Chosen(t, es))| && 0 < n <= |p.e|
    && Overwritten(b, b1, |p.head| + |p.mid| + 6, Bytes(Chosen(t, es)))
  }

  lemma NarrowedIs(t: Target, p: Parts, es: seq<Item>, frameLen: nat, b: seq<byte>, b1: seq<byte>, b2: seq<byte>,
                   n: nat, m: nat, o: nat, len: nat, diff: nat)
    requires InPlace(t, p, es, frameLen, b, b1, n)
    requires m == |p.head| && o == |p.head| + |p.mid| && len == p.lo && diff == len - (n + 3)
    requires Closed(b1, b2, frameLen, m, o, o + 3 + len, diff)
    ensures NarrowedTo(t, p, es, frameLen, b, b2, diff)
  {
    SplicedParts(p, es, Bytes(Chosen(t, es)), b, b1, b2, frameLen);
  }

  lemma StillLong(t: Target, p: Parts, es: seq<Item>, frameLen: nat, b: seq<byte>, b1: seq<byte>, n: nat)
    requires InPlace(t, p, es, frameLen, b, b1, n)
    ensures
      var o := |p.head| + |p.mid|;
      && o + 3 + p.lo as int <= frameLen <= |b1| && |p.head| < o && n + 3 <= p.lo
      && Length16(b1[o + 1], b1[o + 2]) == p.lo
  {
    PartsAt(p, es, b, frameLen);
  }

  /** The rewriting of a frame once its list is found. */
  method Narrow(buf: array<byte>, frameLen: nat, m: nat, o: nat, len: nat, t: Target, ghost p: Parts,
                ghost es: seq<Item>)
    returns (diff: nat)
    requires PartsOk(p, es) && frameLen <= buf.Length && buf[..frameLen] == Join(p)
    requires m == |p.head| && o == |p.head| + |p.mid| && len == p.lo
    modifies buf
    ensures NarrowedTo(t, p, es, frameLen, old(buf[..]), buf[..], diff)
  {
    ghost var b := buf[..];
    PartsAt(p, es, b, frameLen);
    var n := RewriteChanList(buf, o, t, es);
    if n == 0 {
      NarrowedNot(t, p, es, frameLen, b, buf[..]);
      return 0;
    }
    diff := Shorten(buf, b, frameLen, m, o, len, n, t, p, es);
  }

  method Shorten(buf: array<byte>, ghost b: seq<byte>, frameLen: nat, m: nat, o: nat, len: nat, n: nat,
                 t: Target, ghost p: Parts, ghost es: seq<Item>) returns (diff: nat)
    requires InPlace(t, p, es, frameLen, b, buf[..], n)
    requires m == |p.head| && o == |p.head| + |p.mid| && len == p.lo
    modifies buf
    ensures NarrowedTo(t, p, es, frameLen, b, buf[..], diff)
  {
    ghost var b1 := buf[..];
    StillLong(t, p, es, frameLen, b, b1, n);
    diff := Close(buf, frameLen, m, o, len, n);
    NarrowedIs(t, p, es, frameLen, b, b1, buf[..], n, m, o, len, diff);
  }
}
