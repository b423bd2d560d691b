/** The configuration file: the chip identifier and the two MAC addresses are printed as tags
    when the file is created, and read back from it later. */
module CfgFile {
  import opened Octets
  import opened Bits
  import opened Collections
  import opened CfgText

  const LBUF_MAXLEN := 64
  const FBUF_MAXLEN := 64 * 16
  const CHIP_ID := "CHIP_ID"
  const VIF0_MACADDR := "VIF0_MACADDR"
  const VIF1_MACADDR := "VIF1_MACADDR"
  const CHIPID_LEN := 12
  const MAC_LEN := 17

  /** Two 32-bit words of chip identifier, of the high one 16 bits count, and two addresses. */
  datatype Cfg = Cfg(chipL: nat, chipH: nat, vif0: seq<byte>, vif1: seq<byte>)

  predicate CfgOk(c: Cfg) {
    c.chipL < 0x1_0000_0000 && c.chipH < 0x1_0000_0000 && |c.vif0| == 6 && |c.vif1| == 6
  }

  // ---------------------------------------------------------------- printing

  function ChipText(c: Cfg): string {
    Hex(c.chipH % 0x1_0000, 4) + Hex(c.chipL, 8)
  }

  /** Octets with colons between them. */
  function MacText(m: seq<byte>): (s: string)
    requires |m| >= 1
    ensures |s| == 3 * |m| - 1
  {
    if |m| == 1 then Hex(m[0], 2) else Hex(m[0], 2) + ":" + MacText(m[1..])
  }

  /** Whether a tag is written: it fits in a line and, with the `junk` octets that the buffer
      of the file is taken to hold, in the file. */
  predicate Writes(t: Tag, junk: nat) {
    |t.name| + |t.value| <= LBUF_MAXLEN && junk + |Line(t)| <= FBUF_MAXLEN
  }

  /** How many octets of a line with its end mark go past the buffer for it. */
  function PastLine(t: Tag): nat {
    if |t.name| + |t.value| <= LBUF_MAXLEN < |Line(t)| + 1 then |Line(t)| + 1 - LBUF_MAXLEN else 0
  }

  /** Only names and values of 62 to 64 characters together get there; the three tags do not. */
  lemma PastLineExactly(t: Tag, c: Cfg)
    requires CfgOk(c)
    ensures PastLine(t) > 0 <==> 62 <= |t.name| + |t.value| <= 64
    ensures PastLine(ChipTag(c)) == PastLine(Vif0Tag(c)) == PastLine(Vif1Tag(c)) == 0
  {
  }

  function Written(t: Tag, junk: nat): seq<Tag> {
    if Writes(t, junk) then [t] else []
  }

  function ChipTag(c: Cfg): Tag { Tag(CHIP_ID, ChipText(c)) }

  function Vif0Tag(c: Cfg): Tag
    requires CfgOk(c)
  {
    Tag(VIF0_MACADDR, MacText(c.vif0))
  }

  function Vif1Tag(c: Cfg): Tag
    requires CfgOk(c)
  {
    Tag(VIF1_MACADDR, MacText(c.vif1))
  }

  /** The tags of a new file. */
  function Stored(c: Cfg, j0: nat, j1: nat, j2: nat): seq<Tag>
    requires CfgOk(c)
  {
    Written(ChipTag(c), j0) + Written(Vif0Tag(c), j1) + Written(Vif1Tag(c), j2)
  }

  /** A new file, when all of it is written. */
  lemma FileText(c: Cfg)
    requires CfgOk(c)
    ensures Text(Stored(c, 0, 0, 0)) ==
      "CHIP_ID=" + (Hex(c.chipH % 0x1_0000, 4) + Hex(c.chipL, 8)) + "\n" +
      ("VIF0_MACADDR=" + Colons(c.vif0) + "\n" + ("VIF1_MACADDR=" + Colons(c.vif1) + "\n"))
  {
    var t0, t1, t2 := ChipTag(c), Vif0Tag(c), Vif1Tag(c);
    assert Stored(c, 0, 0, 0) == [t0, t1, t2];
    TextOfThree(t0, t1, t2);
    SixOctets(c.vif0);
    SixOctets(c.vif1);
  }

  function Colons(m: seq<byte>): string
    requires |m| == 6
  {
    Hex(m[0], 2) + ":" + (Hex(m[1], 2) + ":" + (Hex(m[2], 2) + ":" +
    (Hex(m[3], 2) + ":" + (Hex(m[4], 2) + ":" + Hex(m[5], 2)))))
  }

  lemma SixOctets(m: seq<byte>)
    requires |m| == 6
    ensures MacText(m) == Colons(m)
  {
    assert m[1..][1..] == m[2..] && m[2..][1..] == m[3..] && m[3..][1..] == m[4..] && m[4..][1..] == m[5..];
    assert MacText(m[5..]) == Hex(m[5], 2);
    assert MacText(m[4..]) == Hex(m[4], 2) + ":" + MacText(m[5..]);
    assert MacText(m[3..]) == Hex(m[3], 2) + ":" + MacText(m[4..]);
    assert MacText(m[2..]) == Hex(m[2], 2) + ":" + MacText(m[3..]);
  }

  lemma TextOfThree(t0: Tag, t1: Tag, t2: Tag)
    ensures Text([t0, t1, t2]) == Line(t0) + (Line(t1) + Line(t2))
  {
    assert [t0, t1, t2][1..] == [t1, t2] && [t1, t2][1..] == [t2] && [t2][1..] == [];
    assert Text([]) == "";
    assert Text([t2]) == Line(t2);
  }

  // ---------------------------------------------------------------- reading

  predicate IsSpace(c: char) {
    c == ' ' || c == '\t' || c == '\n' || c == '\U{b}' || c == '\U{c}' || c == '\r'
  }

  function SkipSpaces(s: string): (r: string)
    ensures |r| <= |s|
  {
    if s != "" && IsSpace(s[0]) then SkipSpaces(s[1..]) else s
  }

  /** How many characters the number at the start of `s` takes. */
  function NumberLen(s: string): (n: nat)
    ensures n <= |s|
  {
    if |s| >= 2 && s[0] == '0' && (s[1] == 'x' || s[1] == 'X') then 2 + Run(s[2..]) else Run(s)
  }

  /** What sscanf with six "%hhx" and colons between them makes of the octets from `i` on. */
  function ScanMac(s: string, i: nat, mac: seq<byte>): (r: seq<byte>)
    requires i < |mac|
    ensures |r| == |mac|
    decreases |mac| - i
  {
    var t := SkipSpaces(s);
    if t == "" || !IsHex(t[0]) then mac
    else
      var mac' := mac[i := Strtoul(t) % 0x100];
      var rest := t[NumberLen(t)..];
      if i + 1 < |mac| && rest != "" && rest[0] == ':' then ScanMac(rest[1..], i + 1, mac') else mac'
  }

  /** The text up to the first character 0. */
  function CStr(s: string): string {
    if s == "" || s[0] == '\0' then "" else [s[0]] + CStr(s[1..])
  }

  /** The high word is read from four characters copied to a buffer that has no end mark:
      `stack` is what follows it in memory. */
  function ChipHigh(s: string, stack: string): nat
    requires |s| >= 4
  {
    Strtoul(s[..4] + stack) % 0x1_0000_0000
  }

  /** The configuration read from a text; what has no tag stays as it was. */
  function Parsed(old_: Cfg, text: string, stack: string): Cfg
    requires CfgOk(old_)
  {
    var chip := FindFrom(text, 0, CHIP_ID + "=", CHIPID_LEN);
    var mac0 := FindFrom(text, 0, VIF0_MACADDR + "=", MAC_LEN);
    var mac1 := FindFrom(text, 0, VIF1_MACADDR + "=", MAC_LEN);
    Cfg(if chip.Some? then Strtoul(text[chip.value + 4..]) % 0x1_0000_0000 else old_.chipL,
        if chip.Some? then ChipHigh(text[chip.value..], stack) else old_.chipH,
        if mac0.Some? then ScanMac(text[mac0.value..], 0, old_.vif0) else old_.vif0,
        if mac1.Some? then ScanMac(text[mac1.value..], 0, old_.vif1) else old_.vif1)
  }

  // ---------------------------------------------------------------- round trips

  lemma Pow16Values()
    ensures Pow16(2) == 0x100 && Pow16(4) == 0x1_0000 && Pow16(8) == 0x1_0000_0000
  {
    assert Pow16(4) == 0x1_0000;
    assert Pow16(6) == 0x100_0000;
  }

  lemma OctetBack(v: byte, rest: string)
    requires rest != "" ==> !IsHex(rest[0])
    ensures Strtoul(Hex(v, 2) + rest) == v && NumberLen(Hex(v, 2) + rest) == 2
    ensures SkipSpaces(Hex(v, 2) + rest) == Hex(v, 2) + rest
  {
    Pow16Values();
    var s := Hex(v, 2) + rest;
    HexRoundTrip(v, 2, rest);
    RunIs(Hex(v, 2), rest);
    assert s[0] == Hex(v, 2)[0] && s[1] == Hex(v, 2)[1];
  }

  /** A number with a colon after it, one octet. */
  lemma ScanStep(s: string, i: nat, mac: seq<byte>)
    requires s != "" && IsHex(s[0]) && i + 1 < |mac| && NumberLen(s) < |s| && s[NumberLen(s)] == ':'
    ensures ScanMac(s, i, mac) == ScanMac(s[NumberLen(s)..][1..], i + 1, mac[i := Strtoul(s) % 0x100])
  {
    assert SkipSpaces(s) == s;
    assert s[NumberLen(s)..][0] == ':';
  }

  lemma ColonAfter(h: string, tail: string)
    requires |h| == 2
    ensures
      var s := h + (":" + tail);
      |s| > 2 && s[0] == h[0] && s[2] == ':' && s[2..][1..] == tail
  {
  }

  lemma OctetColon(v: byte, tail: string, s: string)
    requires s == Hex(v, 2) + (":" + tail)
    ensures |s| > 2 && IsHex(s[0]) && NumberLen(s) == 2 && s[2] == ':' && s[2..][1..] == tail && Strtoul(s) == v
  {
    OctetBack(v, ":" + tail);
    ColonAfter(Hex(v, 2), tail);
  }

  lemma ScanOne(v: byte, tail: string, i: nat, mac: seq<byte>, s: string)
    requires i + 1 < |mac| && s == Hex(v, 2) + (":" + tail)
    ensures ScanMac(s, i, mac) == ScanMac(tail, i + 1, mac[i := v])
  {
    OctetColon(v, tail, s);
    ScanStep(s, i, mac);
  }

  lemma ScanLast(v: byte, rest: string, i: nat, mac: seq<byte>)
    requires i + 1 == |mac| && (rest != "" ==> !IsHex(rest[0]))
    ensures ScanMac(Hex(v, 2) + rest, i, mac) == mac[i := v]
  {
    OctetBack(v, rest);
    assert (Hex(v, 2) + rest)[0] == Hex(v, 2)[0];
  }

  lemma MacTextFirst(m: seq<byte>, rest: string)
    requires |m| > 1
    ensures MacText(m) + rest == Hex(m[0], 2) + (":" + (MacText(m[1..]) + rest))
  {
    var h, t := Hex(m[0], 2), MacText(m[1..]);
    Regroup(h, ":", t);
    Regroup(h, ":" + t, rest);
    Regroup(":", t, rest);
  }

  lemma SetFirst(mac: seq<byte>, i: nat, m: seq<byte>)
    requires i < |mac| && |m| == |mac| - i
    ensures |m| == 1 ==> mac[i := m[0]] == mac[..i] + m
    ensures mac[i := m[0]][..i + 1] + m[1..] == mac[..i] + m
  {
  }

  /** An address printed is read back. */
  lemma {:induction false} ScanBack(m: seq<byte>, i: nat, mac: seq<byte>, rest: string)
    requires i < |mac| && |m| == |mac| - i && (rest != "" ==> !IsHex(rest[0]))
    ensures ScanMac(MacText(m) + rest, i, mac) == mac[..i] + m
    decreases |m|
  {
    SetFirst(mac, i, m);
    if |m| == 1 {
      ScanLast(m[0], rest, i, mac);
    } else {
      MacTextFirst(m, rest);
      ScanOne(m[0], MacText(m[1..]) + rest, i, mac, MacText(m) + rest);
      ScanBack(m[1..], i + 1, mac[i := m[0]], rest);
    }
  }

  lemma {:induction false} LoweredSpaces(s: string)
    ensures SkipSpaces(Lowered(s)) == Lowered(SkipSpaces(s))
  {
    if s != "" && IsSpace(s[0]) {
      LoweredSpaces(s[1..]);
      LoweredSlice(s, 1, |s|);
    }
  }

  lemma LoweredNumber(s: string)
    ensures NumberLen(Lowered(s)) == NumberLen(s) && Strtoul(Lowered(s)) == Strtoul(s)
  {
    LoweredStrtoul(s);
    LoweredRun(s);
    if |s| >= 2 {
      LoweredSlice(s, 2, |s|);
      LoweredRun(s[2..]);
    }
  }

  /** An address is read alike in either case. */
  lemma {:induction false} LoweredMac(s: string, i: nat, mac: seq<byte>)
    requires i < |mac|
    ensures ScanMac(Lowered(s), i, mac) == ScanMac(s, i, mac)
    decreases |mac| - i
  {
    LoweredSpaces(s);
    var t := SkipSpaces(s);
    if t != "" && IsHex(t[0]) {
      LoweredNumber(t);
      var rest := t[NumberLen(t)..];
      LoweredSlice(t, NumberLen(t), |t|);
      if i + 1 < |mac| && rest != "" && rest[0] == ':' {
        LoweredSlice(rest, 1, |rest|);
        LoweredMac(rest[1..], i + 1, mac[i := Strtoul(t) % 0x100]);
      }
    }
  }

  /** So an address edited to capital letters is the one printed. */
  lemma EditedBack(m: seq<byte>, mac: seq<byte>, s: string, rest: string)
    requires |m| == |mac| > 0 && Lowered(s) == MacText(m) && (rest != "" ==> !IsHex(rest[0]))
    ensures ScanMac(s + rest, 0, mac) == m
  {
    LoweredMac(s + rest, 0, mac);
    LoweredTwo(s, rest);
    ScanBack(m, 0, mac, Lowered(rest));
    NothingBefore(mac, m);
  }

  lemma LoweredTwo(s: string, rest: string)
    ensures Lowered(s + rest) == Lowered(s) + Lowered(rest)
    ensures rest != "" ==> Lowered(rest) != "" && Lowered(rest)[0] == LowChar(rest[0])
  {
  }

  lemma NothingBefore(mac: seq<byte>, m: seq<byte>)
    ensures mac[..0] + m == m
  {
  }

  lemma ChipSlices(c: Cfg, rest: string)
    requires CfgOk(c)
    ensures
      var s := ChipText(c) + rest;
      && |s| >= 12 && s[..4] == Hex(c.chipH % 0x1_0000, 4) && s[4..] == Hex(c.chipL, 8) + rest
  {
  }

  lemma ChipLowBack(c: Cfg, rest: string)
    requires CfgOk(c) && (rest != "" ==> !IsHex(rest[0]))
    ensures
      var s := ChipText(c) + rest;
      |s| >= 12 && Strtoul(s[4..]) % 0x1_0000_0000 == c.chipL
  {
    Pow16Values();
    ChipSlices(c, rest);
    HexRoundTrip(c.chipL, 8, rest);
  }

  /** The chip identifier printed is read back, its high word if no digit follows the buffer. */
  lemma ChipBack(c: Cfg, rest: string, stack: string)
    requires CfgOk(c) && (rest != "" ==> !IsHex(rest[0]))
    ensures
      var s := ChipText(c) + rest;
      && |s| >= 12 && Strtoul(s[4..]) % 0x1_0000_0000 == c.chipL
      && ((stack != "" ==> !IsHex(stack[0])) ==> ChipHigh(s, stack) == c.chipH % 0x1_0000)
  {
    ChipLowBack(c, rest);
    ChipSlices(c, rest);
    if stack != "" ==> !IsHex(stack[0]) {
      HighBack(ChipText(c) + rest, c.chipH % 0x1_0000, stack);
    }
  }

  lemma HighBack(s: string, h: nat, stack: string)
    requires |s| >= 4 && h < 0x1_0000 && s[..4] == Hex(h, 4) && (stack != "" ==> !IsHex(stack[0]))
    ensures ChipHigh(s, stack) == h
  {
    Pow16Values();
    HexRoundTrip(h, 4, stack);
  }

  /** The number `h` with digits after it. */
  function Lengthened(h: nat, digits: string): nat
    requires AllHex(digits)
  {
    h * Pow16(|digits|) + Value(digits)
  }

  /** Digits after the buffer are read as part of the number. */
  lemma ChipHighIs(s: string, h: nat, digits: string, stack: string)
    requires |s| >= 4 && h < 0x1_0000 && s[..4] == Hex(h, 4)
    requires AllHex(digits) && (stack != "" ==> !IsHex(stack[0]))
    ensures ChipHigh(s, digits + stack) == Lengthened(h, digits) % 0x1_0000_0000
  {
    Pow16Values();
    HexValue(h, 4);
    ReadsOn(Hex(h, 4), digits, stack);
  }

  /** The high word is right if and only if the digits add nothing to it in 32 bits. */
  lemma ChipHighExactly(s: string, h: nat, digits: string, stack: string)
    requires |s| >= 4 && h < 0x1_0000 && s[..4] == Hex(h, 4)
    requires AllHex(digits) && (stack != "" ==> !IsHex(stack[0]))
    ensures ChipHigh(s, digits + stack) == h <==> Added(h, digits) % 0x1_0000_0000 == 0
  {
    ChipHighIs(s, h, digits, stack);
    LengthenedIs(h, digits);
    SameWord(h, Lengthened(h, digits), Added(h, digits));
  }

  /** What digits after it add to the number `h`. */
  function Added(h: nat, digits: string): nat
    requires AllHex(digits)
  {
    h * (Pow16(|digits|) - 1) + Value(digits)
  }

  lemma LengthenedIs(h: nat, digits: string)
    requires AllHex(digits)
    ensures Lengthened(h, digits) == h + Added(h, digits)
  {
  }

  lemma SameWord(h: nat, n: nat, k: nat)
    requires h < 0x1_0000 && n == h + k
    ensures n % 0x1_0000_0000 == h <==> k % 0x1_0000_0000 == 0
  {
  }

  /** With at most four digits that is the case if there are none, or all of it is 0; with more,
      other digits can do it. */
  lemma ChipHighShort(h: nat, digits: string)
    requires h < 0x1_0000 && AllHex(digits) && |digits| <= 4
    ensures Added(h, digits) % 0x1_0000_0000 == 0 <==> digits == "" || (h == 0 && Value(digits) == 0)
  {
    ValueAppend("", digits);
    Stretched(h, |digits|, Value(digits));
    LengthenedIs(h, digits);
  }

  lemma ReadsOn(t: string, digits: string, stack: string)
    requires AllHex(t) && |t| >= 2 && AllHex(digits) && (stack != "" ==> !IsHex(stack[0]))
    ensures Strtoul(t + (digits + stack)) == Value(t) * Pow16(|digits|) + Value(digits)
  {
    Regroup(t, digits, stack);
    ValueAppend(t, digits);
    RunIs(t + digits, stack);
    NumberIs(t + digits, stack);
  }

  lemma NumberIs(u: string, stack: string)
    requires AllHex(u) && |u| >= 2 && Run(u + stack) == |u|
    ensures Strtoul(u + stack) == Value(u)
  {
    assert (u + stack)[1] == u[1] && IsHex(u[1]);
    NoPrefix(u + stack);
    assert (u + stack)[..|u|] == u;
  }

  lemma Stretched(h: nat, k: nat, v: nat)
    requires h < 0x1_0000 && k <= 4 && v < Pow16(k)
    ensures h * Pow16(k) + v < 0x1_0000_0000
    ensures h * Pow16(k) + v == h <==> k == 0 || (h == 0 && v == 0)
  {
    Pow16Values();
    assert Pow16(1) == 16 && Pow16(3) == 0x1000;
    assert k in {0, 1, 2, 3, 4};
  }

  // ---------------------------------------------------------------- the file as a whole

  predicate NoZero(s: string) { forall i :: 0 <= i < |s| ==> s[i] != '\0' }

  lemma {:induction false} CStrAll(s: string)
    requires NoZero(s)
    ensures CStr(s) == s
  {
    if s != "" {
      assert forall i :: 0 <= i < |s[1..]| ==> s[1..][i] == s[i + 1];
      CStrAll(s[1..]);
    }
  }

  predicate Plain(c: char) { IsHex(c) || c == ':' }

  lemma {:induction false} MacPlain(m: seq<byte>)
    requires |m| >= 1
    ensures forall i :: 0 <= i < |MacText(m)| ==> Plain(MacText(m)[i])
  {
    if |m| > 1 {
      MacPlain(m[1..]);
    }
  }

  /** A tag of the file. */
  ghost predicate Neat(t: Tag) {
    TagOk(t) && NoZero(t.name) && NoZero(t.value) && |Line(t)| <= 40
  }

  lemma PlainNeat(t: Tag)
    requires t.name == CHIP_ID || t.name == VIF0_MACADDR || t.name == VIF1_MACADDR
    requires |t.value| <= MAC_LEN && forall i :: 0 <= i < |t.value| ==> Plain(t.value[i])
    ensures Neat(t)
  {
    assert |t.name| <= 12;
  }

  lemma StoredNeat(c: Cfg, j0: nat, j1: nat, j2: nat)
    requires CfgOk(c)
    ensures forall t :: t in Stored(c, j0, j1, j2) ==> Neat(t)
  {
    MacPlain(c.vif0);
    MacPlain(c.vif1);
    PlainNeat(ChipTag(c));
    PlainNeat(Vif0Tag(c));
    PlainNeat(Vif1Tag(c));
  }

  lemma {:induction false} TextSmall(tags: seq<Tag>)
    requires forall t :: t in tags ==> Neat(t)
    ensures NoZero(Text(tags)) && |Text(tags)| <= 40 * |tags|
  {
    if tags != [] {
      TextSmall(tags[1..]);
      var l := Line(tags[0]);
      assert Neat(tags[0]);
      assert NoZero(l);
      assert Text(tags) == l + Text(tags[1..]);
    }
  }

  lemma NamesDiffer()
    ensures CHIP_ID != VIF0_MACADDR && CHIP_ID != VIF1_MACADDR && VIF0_MACADDR != VIF1_MACADDR
  {
    assert CHIP_ID[0] == 'C' && VIF0_MACADDR[0] == 'V' && VIF1_MACADDR[0] == 'V';
    assert VIF0_MACADDR[3] == '0' && VIF1_MACADDR[3] == '1';
  }

  /** A tag is in the file exactly if it was written. */
  lemma StoredLookup(c: Cfg, j0: nat, j1: nat, j2: nat)
    requires CfgOk(c)
    ensures
      var tags := Stored(c, j0, j1, j2);
      && Lookup(tags, CHIP_ID, CHIPID_LEN) == (if Writes(ChipTag(c), j0) then Some(ChipText(c)) else None)
      && Lookup(tags, VIF0_MACADDR, MAC_LEN) == (if Writes(Vif0Tag(c), j1) then Some(MacText(c.vif0)) else None)
      && Lookup(tags, VIF1_MACADDR, MAC_LEN) == (if Writes(Vif1Tag(c), j2) then Some(MacText(c.vif1)) else None)
  {
    NamesDiffer();
    var a, b, d := Written(ChipTag(c), j0), Written(Vif0Tag(c), j1), Written(Vif1Tag(c), j2);
    LookupAppend(a, b + d, CHIP_ID, CHIPID_LEN);
    LookupAppend(b, d, CHIP_ID, CHIPID_LEN);
    LookupAppend(a, b + d, VIF0_MACADDR, MAC_LEN);
    LookupAppend(b, d, VIF0_MACADDR, MAC_LEN);
    LookupAppend(a, b + d, VIF1_MACADDR, MAC_LEN);
    LookupAppend(b, d, VIF1_MACADDR, MAC_LEN);
    assert a + b + d == a + (b + d);
    OneTag(a, b, d);
  }

  lemma OneTag(a: seq<Tag>, b: seq<Tag>, d: seq<Tag>)
    ensures |a| == 1 ==> a[1..] == []
    ensures |b| == 1 ==> b[1..] == []
    ensures |d| == 1 ==> d[1..] == []
  {
  }

  lemma {:induction false} LookupAppend(a: seq<Tag>, b: seq<Tag>, name: string, len: nat)
    ensures Lookup(a + b, name, len) ==
            if Lookup(a, name, len).Some? then Lookup(a, name, len) else Lookup(b, name, len)
  {
    if a == [] {
      assert a + b == b;
    } else {
      assert (a + b)[1..] == a[1..] + b;
      LookupAppend(a[1..], b, name, len);
    }
  }

  /** A value found is what the text goes on with. */
  lemma GoesOnWith(data: string, q: nat, value: string) returns (rest: string)
    requires HasValue(data, q, value)
    ensures data[q..] == value + rest && rest != "" && rest[0] == '\n'
  {
    rest := data[q + |value|..];
  }

  lemma NamesPlain()
    ensures forall i :: 0 <= i < |CHIP_ID| ==> CHIP_ID[i] != '='
    ensures forall i :: 0 <= i < |VIF0_MACADDR| ==> VIF0_MACADDR[i] != '='
    ensures forall i :: 0 <= i < |VIF1_MACADDR| ==> VIF1_MACADDR[i] != '='
  {
  }

  /** What is read from a file of tags. */
  lemma ReadsTags(old_: Cfg, c: Cfg, tags: seq<Tag>, stack: string)
    requires CfgOk(old_) && CfgOk(c) && forall t :: t in tags ==> Neat(t)
    requires Lookup(tags, CHIP_ID, CHIPID_LEN) in {None, Some(ChipText(c))}
    requires Lookup(tags, VIF0_MACADDR, MAC_LEN) in {None, Some(MacText(c.vif0))}
    requires Lookup(tags, VIF1_MACADDR, MAC_LEN) in {None, Some(MacText(c.vif1))}
    ensures
      var r := Parsed(old_, Text(tags), stack);
      && r.vif0 == (if Lookup(tags, VIF0_MACADDR, MAC_LEN).Some? then c.vif0 else old_.vif0)
      && r.vif1 == (if Lookup(tags, VIF1_MACADDR, MAC_LEN).Some? then c.vif1 else old_.vif1)
      && (if Lookup(tags, CHIP_ID, CHIPID_LEN).None? then r.chipL == old_.chipL && r.chipH == old_.chipH
          else r.chipL == c.chipL && ((stack != "" ==> !IsHex(stack[0])) ==> r.chipH == c.chipH % 0x1_0000))
  {
    TagChip(c, tags, stack);
    TagMac(tags, VIF0_MACADDR, c.vif0, old_.vif0);
    TagMac(tags, VIF1_MACADDR, c.vif1, old_.vif1);
  }

  lemma TagChip(c: Cfg, tags: seq<Tag>, stack: string)
    requires CfgOk(c) && forall t :: t in tags ==> Neat(t)
    requires Lookup(tags, CHIP_ID, CHIPID_LEN) in {None, Some(ChipText(c))}
    ensures
      var text, r := Text(tags), FindFrom(Text(tags), 0, CHIP_ID + "=", CHIPID_LEN);
      (r.Some? <==> Lookup(tags, CHIP_ID, CHIPID_LEN).Some?) && ChipRead(c, text, r, stack)
  {
    NamesPlain();
    FindsTag(tags, CHIP_ID, CHIPID_LEN);
    var text, v := Text(tags), ChipText(c);
    ReadsChip(c, text, FindFrom(text, 0, CHIP_ID + "=", CHIPID_LEN), v, stack);
  }

  /** At position `r`, if there is one, the chip identifier is read. */
  ghost predicate ChipRead(c: Cfg, text: string, r: Option<nat>, stack: string) {
    r.Some? ==>
      && r.value + 12 <= |text| && Strtoul(text[r.value + 4..]) % 0x1_0000_0000 == c.chipL
      && ((stack != "" ==> !IsHex(stack[0])) ==> ChipHigh(text[r.value..], stack) == c.chipH % 0x1_0000)
  }

  lemma TagMac(tags: seq<Tag>, name: string, m: seq<byte>, mac: seq<byte>)
    requires |m| == |mac| == 6 && name in {VIF0_MACADDR, VIF1_MACADDR} && forall t :: t in tags ==> Neat(t)
    requires Lookup(tags, name, MAC_LEN) in {None, Some(MacText(m))}
    ensures
      var text, r := Text(tags), FindFrom(Text(tags), 0, name + "=", MAC_LEN);
      && (r.Some? <==> Lookup(tags, name, MAC_LEN).Some?)
      && (r.Some? ==> ScanMac(text[r.value..], 0, mac) == m)
  {
    NamesPlain();
    FindsTag(tags, name, MAC_LEN);
    ReadsMac(m, mac, Text(tags), FindFrom(Text(tags), 0, name + "=", MAC_LEN));
  }

  lemma ReadsChip(c: Cfg, text: string, r: Option<nat>, v: string, stack: string)
    requires CfgOk(c) && v == ChipText(c) && (r.Some? ==> HasValue(text, r.value, v))
    ensures ChipRead(c, text, r, stack)
  {
    if r.Some? {
      var rest := GoesOnWith(text, r.value, v);
      ChipBack(c, rest, stack);
      assert text[r.value + 4..] == text[r.value..][4..];
    }
  }

  lemma ReadsMac(m: seq<byte>, mac: seq<byte>, text: string, r: Option<nat>)
    requires |m| == |mac| == 6 && (r.Some? ==> HasValue(text, r.value, MacText(m)))
    ensures r.Some? ==> ScanMac(text[r.value..], 0, mac) == m
  {
    if r.Some? {
      var rest := GoesOnWith(text, r.value, MacText(m));
      ScanBack(m, 0, mac, rest);
    }
  }

  /** Creating the file and reading it gives back the addresses and the 48 bits of the chip
      identifier of every tag that was written, if no digit follows the buffer of the high
      word; what was not written stays as it was. */
  lemma ReadsBack(old_: Cfg, c: Cfg, j0: nat, j1: nat, j2: nat, stack: string)
    requires CfgOk(old_) && CfgOk(c)
    ensures
      var text := Text(Stored(c, j0, j1, j2));
      var r := Parsed(old_, text, stack);
      && |text| < FBUF_MAXLEN && CStr(text) == text
      && r.vif0 == (if Writes(Vif0Tag(c), j1) then c.vif0 else old_.vif0)
      && r.vif1 == (if Writes(Vif1Tag(c), j2) then c.vif1 else old_.vif1)
      && (if !Writes(ChipTag(c), j0) then r.chipL == old_.chipL && r.chipH == old_.chipH
          else r.chipL == c.chipL && ((stack != "" ==> !IsHex(stack[0])) ==> r.chipH == c.chipH % 0x1_0000))
  {
    var tags := Stored(c, j0, j1, j2);
    StoredNeat(c, j0, j1, j2);
    StoredLookup(c, j0, j1, j2);
    TextSmall(tags);
    CStrAll(Text(tags));
    ReadsTags(old_, c, tags, stack);
  }

  /** A tag is written exactly if the buffer is taken to hold few enough octets. */
  lemma WritesExactly(c: Cfg, junk: nat)
    requires CfgOk(c)
    ensures Writes(ChipTag(c), junk) <==> junk <= 1003
    ensures Writes(Vif0Tag(c), junk) <==> junk <= 993
    ensures Writes(Vif1Tag(c), junk) <==> junk <= 993
  {
  }

  // ---------------------------------------------------------------- the words of an address

  /** Four numbers in a word, and two; what exceeds 32 bits is cut off. */
  function Four(a: nat, b: nat, c: nat, d: nat): nat {
    Word(a * 0x100_0000, b * 0x1_0000, c * 0x100, d)
  }

  function Word(p: nat, q: nat, r: nat, s: nat): nat {
    Or(Or(Or(p, q), r), s) % 0x1_0000_0000
  }

  function Two(a: nat, b: nat): nat {
    HalfWord(a * 0x100, b)
  }

  function HalfWord(p: nat, q: nat): nat {
    Or(p, q) % 0x1_0000_0000
  }

  /** The two words that aml_get_mac_addr_from_conftxt makes of the value of a tag, low one
      first. */
  function WordsOf(s: string): (nat, nat)
    requires |s| >= MAC_LEN
  {
    (Four(Strtoul(s[6..]), Strtoul(s[9..]), Strtoul(s[12..]), Strtoul(s[15..])), Two(Strtoul(s), Strtoul(s[3..])))
  }

  /** The octets of the words, as the driver splits them. */
  function Split(l: nat, h: nat): (m: seq<byte>)
    ensures |m| == 6
  {
    [h / 0x100 % 0x100, h % 0x100, l / 0x100_0000 % 0x100, l / 0x1_0000 % 0x100, l / 0x100 % 0x100, l % 0x100]
  }

  /** Reading words of the chip, the driver takes a word of 0 to mean that there is no address. */
  function FromEfuse(l: nat, h: nat): Option<seq<byte>> {
    if l == 0 || h == 0 then None else Some(Split(l, h))
  }

  lemma Pow2Values()
    ensures Pow2(8) == 0x100 && Pow2(16) == 0x1_0000 && Pow2(24) == 0x100_0000
  {
    assert Pow2(8) == 0x100;
    assert Pow2(16) == 0x1_0000;
  }

  /** Shifted by `k` bits, a number does not overlap one of `k` bits. */
  lemma OrShifted(a: nat, p: nat, k: nat, b: nat, high: nat, sum: nat)
    requires p == Pow2(k) && b < p && high == a * p && sum == high + b
    ensures Or(high, b) == sum
  {
    OrApart(a, b, k);
  }

  lemma Or24(a: nat, b: nat, high: nat, sum: nat)
    requires b < 0x100_0000 && high == a * 0x100_0000 && sum == high + b
    ensures Or(high, b) == sum
  {
    Pow2Values();
    OrShifted(a, 0x100_0000, 24, b, high, sum);
  }

  lemma Or16(a: nat, b: nat, high: nat, sum: nat)
    requires b < 0x1_0000 && high == a * 0x1_0000 && sum == high + b
    ensures Or(high, b) == sum
  {
    Pow2Values();
    OrShifted(a, 0x1_0000, 16, b, high, sum);
  }

  lemma Or8(a: nat, b: nat, high: nat, sum: nat)
    requires b < 0x100 && high == a * 0x100 && sum == high + b
    ensures Or(high, b) == sum
  {
    Pow2Values();
    OrShifted(a, 0x100, 8, b, high, sum);
  }

  lemma TwoAdds(a: nat, b: nat)
    requires a < 0x100 && b < 0x100
    ensures Two(a, b) == a * 0x100 + b
  {
    Or8(a, b, a * 0x100, a * 0x100 + b);
    HalfWordIs(a * 0x100, b, a * 0x100 + b);
  }

  lemma HalfWordIs(p: nat, q: nat, sum: nat)
    requires Or(p, q) == sum && sum < 0x1_0000_0000
    ensures HalfWord(p, q) == sum
  {
  }

  lemma WordIs(p: nat, q: nat, r: nat, s: nat, u: nat, w: nat, sum: nat)
    requires Or(p, q) == u && Or(u, r) == w && Or(w, s) == sum && sum < 0x1_0000_0000
    ensures Word(p, q, r, s) == sum
  {
  }

  lemma FourAdds(a: nat, b: nat, c: nat, d: nat)
    requires a < 0x100 && b < 0x100 && c < 0x100 && d < 0x100
    ensures Four(a, b, c, d) == ((a * 0x100 + b) * 0x100 + c) * 0x100 + d
  {
    Sums(a, b, c, d);
    var x, y := a * 0x100 + b, (a * 0x100 + b) * 0x100 + c;
    Or24(a, b * 0x1_0000, a * 0x100_0000, x * 0x1_0000);
    Or16(x, c * 0x100, x * 0x1_0000, y * 0x100);
    Or8(y, d, y * 0x100, y * 0x100 + d);
    WordIs(a * 0x100_0000, b * 0x1_0000, c * 0x100, d, x * 0x1_0000, y * 0x100, y * 0x100 + d);
  }

  lemma Sums(a: nat, b: nat, c: nat, d: nat)
    requires a < 0x100 && b < 0x100 && c < 0x100 && d < 0x100
    ensures a * 0x100_0000 + b * 0x1_0000 == (a * 0x100 + b) * 0x1_0000
    ensures (a * 0x100 + b) * 0x1_0000 + c * 0x100 == ((a * 0x100 + b) * 0x100 + c) * 0x100
    ensures
      var l := ((a * 0x100 + b) * 0x100 + c) * 0x100 + d;
      l % 0x1_0000_0000 == l
  {
  }

  lemma {:induction false} MacFrom(m: seq<byte>, k: nat, rest: string)
    requires k < |m|
    ensures 3 * k <= |MacText(m)| && (MacText(m) + rest)[3 * k..] == MacText(m[k..]) + rest
  {
    if k > 0 {
      MacTextFirst(m, rest);
      MacFrom(m[1..], k - 1, rest);
      assert m[1..][k - 1..] == m[k..];
      var s, t := MacText(m) + rest, MacText(m[1..]) + rest;
      assert s[3..] == t;
      assert s[3 * k..] == s[3..][3 * (k - 1)..];
    }
  }

  lemma OctetAt(m: seq<byte>, k: nat, rest: string)
    requires k < |m| && (rest != "" ==> !IsHex(rest[0]))
    ensures 3 * k <= |MacText(m)| && Strtoul((MacText(m) + rest)[3 * k..]) == m[k]
  {
    MacFrom(m, k, rest);
    if k == |m| - 1 {
      OctetBack(m[k], rest);
    } else {
      MacTextFirst(m[k..], rest);
      OctetBack(m[k], ":" + (MacText(m[k..][1..]) + rest));
    }
  }

  /** The words made of a printed address. */
  lemma WordsBack(m: seq<byte>, rest: string)
    requires |m| == 6 && (rest != "" ==> !IsHex(rest[0]))
    ensures WordsOf(MacText(m) + rest) == (Four(m[2], m[3], m[4], m[5]), Two(m[0], m[1]))
  {
    OctetAt(m, 0, rest);
    OctetAt(m, 1, rest);
    OctetAt(m, 2, rest);
    OctetAt(m, 3, rest);
    OctetAt(m, 4, rest);
    OctetAt(m, 5, rest);
    WordsAre(MacText(m) + rest, m[0], m[1], m[2], m[3], m[4], m[5]);
  }

  lemma WordsAre(s: string, a: nat, b: nat, c: nat, d: nat, e: nat, f: nat)
    requires |s| >= MAC_LEN && Strtoul(s[0..]) == a && Strtoul(s[3..]) == b && Strtoul(s[6..]) == c
    requires Strtoul(s[9..]) == d && Strtoul(s[12..]) == e && Strtoul(s[15..]) == f
    ensures WordsOf(s) == (Four(c, d, e, f), Two(a, b))
  {
    assert s[0..] == s;
  }

  /** Words made of a printed address split back to it; as words of the chip they do if and
      only if neither half of the address is all 0. */
  lemma SplitBack(m: seq<byte>, rest: string)
    requires |m| == 6 && (rest != "" ==> !IsHex(rest[0]))
    ensures
      var w := WordsOf(MacText(m) + rest);
      && Split(w.0, w.1) == m
      && (FromEfuse(w.0, w.1) == Some(m) <==> m[..2] != [0, 0] && m[2..] != [0, 0, 0, 0])
  {
    WordsBack(m, rest);
    FourAdds(m[2], m[3], m[4], m[5]);
    TwoAdds(m[0], m[1]);
    SplitMac(m, Four(m[2], m[3], m[4], m[5]), Two(m[0], m[1]));
  }

  lemma SplitMac(m: seq<byte>, l: nat, h: nat)
    requires |m| == 6 && h == m[0] as int * 0x100 + m[1] as int
    requires l == ((m[2] as int * 0x100 + m[3] as int) * 0x100 + m[4] as int) * 0x100 + m[5] as int
    ensures Split(l, h) == m
    ensures l == 0 <==> m[2..] == [0, 0, 0, 0]
    ensures h == 0 <==> m[..2] == [0, 0]
  {
    SplitHigh(m[0], m[1]);
    SplitLow(m[2], m[3], m[4], m[5]);
    assert m == [m[0], m[1], m[2], m[3], m[4], m[5]];
    assert m[..2] == [m[0], m[1]] && m[2..] == [m[2], m[3], m[4], m[5]];
  }

  lemma SplitHigh(a: byte, b: byte)
    ensures
      var h := a as int * 0x100 + b as int;
      h / 0x100 % 0x100 == a && h % 0x100 == b
  {
  }

  lemma LastOctet(x: nat, y: byte)
    ensures (x * 0x100 + y as int) / 0x100 == x && (x * 0x100 + y as int) % 0x100 == y
  {
  }

  lemma SplitLow(a: byte, b: byte, c: byte, d: byte)
    ensures
      var l := ((a as int * 0x100 + b as int) * 0x100 + c as int) * 0x100 + d as int;
      l / 0x100_0000 % 0x100 == a && l / 0x1_0000 % 0x100 == b && l / 0x100 % 0x100 == c && l % 0x100 == d
  {
    var x := a as int * 0x100 + b as int;
    var y := x * 0x100 + c as int;
    var l := y * 0x100 + d as int;
    LastOctet(a, b);
    LastOctet(x, c);
    LastOctet(y, d);
    assert l / 0x1_0000 == x;
    assert l / 0x100_0000 == a;
  }

  /** The words made of the VIF0 tag of a file that was written split back to the address, and
      as words of the chip they do if and only if neither half of it is all 0; without the tag
      there are none. */
  lemma WordsOfFile(c: Cfg, j0: nat, j1: nat, j2: nat)
    requires CfgOk(c)
    ensures
      var text := Text(Stored(c, j0, j1, j2));
      var at := FindFrom(CStr(text), 0, VIF0_MACADDR + "=", MAC_LEN);
      if !Writes(Vif0Tag(c), j1) then at == None
      else
        && at.Some? && at.value + MAC_LEN <= |CStr(text)|
        && var w := WordsOf(CStr(text)[at.value..]);
           && Split(w.0, w.1) == c.vif0
           && (FromEfuse(w.0, w.1) == Some(c.vif0) <==> c.vif0[..2] != [0, 0] && c.vif0[2..] != [0, 0, 0, 0])
  {
    var tags := Stored(c, j0, j1, j2);
    StoredNeat(c, j0, j1, j2);
    StoredLookup(c, j0, j1, j2);
    TextSmall(tags);
    CStrAll(Text(tags));
    NamesPlain();
    FindsTag(tags, VIF0_MACADDR, MAC_LEN);
    if Writes(Vif0Tag(c), j1) {
      var at := FindFrom(Text(tags), 0, VIF0_MACADDR + "=", MAC_LEN).value;
      var rest := GoesOnWith(Text(tags), at, MacText(c.vif0));
      SplitBack(c.vif0, rest);
    }
  }

  // ---------------------------------------------------------------- the file in place

  class ConfFile {
    var data: string
    var pos: nat

    ghost predicate Valid()
      reads this
    {
      pos <= |data|
    }

    constructor ()
      ensures Valid() && data == "" && pos == 0
    {
      data, pos := "", 0;
    }

    /** aml_cfg_read */
    method Read(len: nat) returns (s: string)
      requires Valid()
      modifies this`pos
      ensures Valid() && pos == old(pos) + |s| && s == data[old(pos)..pos]
      ensures |s| == if |data| - old(pos) < len then |data| - old(pos) else len
    {
      var n := if |data| - pos < len then |data| - pos else len;
      s := data[pos..pos + n];
      pos := pos + n;
    }

    /** aml_cfg_write */
    method Write(s: string)
      requires Valid()
      modifies this
      ensures Valid() && pos == old(pos) + |s|
      ensures data == old(data[..pos]) + s + if old(pos) + |s| <= old(|data|) then old(data)[old(pos) + |s|..] else ""
    {
      data := data[..pos] + s + if pos + |s| <= |data| then data[pos + |s|..] else "";
      pos := pos + |s|;
    }

    /** aml_cfg_store_tag: what is left of the file is read, up to the size of a buffer, and the
        line written after it; `junk` is the length that the buffer, which is not set before,
        is taken to have.  Of the line `past` octets are written past the buffer for it, and
        what comes of that is left open. */
    method StoreTag(name: string, value: string, junk: nat) returns (past: nat)
      requires Valid()
      modifies this
      ensures Valid() && past == PastLine(Tag(name, value))
      ensures
        var t := Tag(name, value);
        var left := old(|data| - pos);
        var q := old(pos) + if left < FBUF_MAXLEN then left else FBUF_MAXLEN;
        if |name| + |value| > LBUF_MAXLEN || past > 0 then data == old(data) && pos == old(pos)
        else if !Writes(t, junk) then data == old(data) && pos == q
        else
          && pos == q + |Line(t)|
          && data == old(data)[..q] + Line(t) + if pos <= old(|data|) then old(data)[pos..] else ""
    {
      past := 0;
      if |name| + |value| > LBUF_MAXLEN {
        return;
      }
      var lbuf := name + "=" + value + "\n";
      if |lbuf| + 1 > LBUF_MAXLEN {
        return |lbuf| + 1 - LBUF_MAXLEN;
      }
      var fbuf := Read(FBUF_MAXLEN);
      if junk + |lbuf| > FBUF_MAXLEN {
        return;
      }
      Write(lbuf);
    }

    /** At the end of the file a line is appended, if it has room in the buffer for it. */
    method Append(name: string, value: string, junk: nat) returns (past: nat)
      requires Valid() && pos == |data|
      modifies this
      ensures Valid() && pos == |data| && past == PastLine(Tag(name, value))
      ensures data == old(data) + if past > 0 then "" else Text(Written(Tag(name, value), junk))
    {
      OneLine(Tag(name, value));
      past := StoreTag(name, value, junk);
    }

    /** aml_cfg_store_chipid and aml_cfg_store_macaddr, as aml_cfg_to_file calls them for a new
        file. */
    method ToFile(c: Cfg, j0: nat, j1: nat, j2: nat)
      requires CfgOk(c) && data == "" && pos == 0
      modifies this
      ensures Valid() && data == Text(Stored(c, j0, j1, j2))
    {
      var past := Append(CHIP_ID, Hex(c.chipH % 0x1_0000, 4) + Hex(c.chipL, 8), j0);
      past := Append(VIF0_MACADDR, MacText(c.vif0), j1);
      past := Append(VIF1_MACADDR, MacText(c.vif1), j2);
      StoredText(Written(ChipTag(c), j0), Written(Vif0Tag(c), j1), Written(Vif1Tag(c), j2));
    }

    /** The chip identifier of aml_cfg_from_file. */
    method ReadChip(text: string, c: Cfg, stack: string) returns (c': Cfg)
      ensures
        var chip := FindFrom(text, 0, CHIP_ID + "=", CHIPID_LEN);
        c' == if chip.None? then c
              else c.(chipL := Strtoul(text[chip.value + 4..]) % 0x1_0000_0000,
                      chipH := ChipHigh(text[chip.value..], stack))
    {
      c' := c;
      var at := FindTag(text, CHIP_ID + "=", CHIPID_LEN);
      if at.Some? {
        c' := c'.(chipL := Strtoul(text[at.value + 4..]) % 0x1_0000_0000);
        c' := c'.(chipH := ChipHigh(text[at.value..], stack));
      }
    }

    /** One address of aml_cfg_from_file. */
    method ReadMac(text: string, tag: string, mac: seq<byte>) returns (mac': seq<byte>)
      requires |mac| == 6
      ensures
        var at := FindFrom(text, 0, tag, MAC_LEN);
        mac' == if at.None? then mac else ScanMac(text[at.value..], 0, mac)
    {
      mac' := mac;
      var at := FindTag(text, tag, MAC_LEN);
      if at.Some? {
        mac' := ScanMac(text[at.value..], 0, mac);
      }
    }

    /** aml_cfg_from_file: what has a tag is read, unless the file is too long. */
    method FromFile(old_: Cfg, stack: string) returns (rc: int, c: Cfg)
      requires CfgOk(old_) && pos == 0
      modifies this`pos
      ensures if |data| >= FBUF_MAXLEN then rc == -1 && c == old_ else rc == 0 && c == Parsed(old_, CStr(data), stack)
    {
      var fbuf := Read(FBUF_MAXLEN);
      c := old_;
      if |fbuf| >= FBUF_MAXLEN {
        return -1, c;
      }
      assert fbuf == data;
      var text := CStr(fbuf);
      c := ReadChip(text, c, stack);
      var mac0 := ReadMac(text, VIF0_MACADDR + "=", c.vif0);
      var mac1 := ReadMac(text, VIF1_MACADDR + "=", c.vif1);
      c := c.(vif0 := mac0, vif1 := mac1);
      rc := 0;
    }

    /** aml_get_mac_addr_from_conftxt: the words stay as they were if there is no tag. */
    method MacWords(l0: nat, h0: nat) returns (rc: int, l: nat, h: nat)
      requires pos == 0
      modifies this`pos
      ensures rc == if |data| >= FBUF_MAXLEN then -1 else 0
      ensures
        var at := FindFrom(CStr(data), 0, VIF0_MACADDR + "=", MAC_LEN);
        if |data| < FBUF_MAXLEN && at.Some? then (l, h) == WordsOf(CStr(data)[at.value..]) else (l, h) == (l0, h0)
    {
      var fbuf := Read(FBUF_MAXLEN);
      l, h := l0, h0;
      if |fbuf| >= FBUF_MAXLEN {
        return -1, l, h;
      }
      assert fbuf == data;
      var text := CStr(fbuf);
      var at := FindTag(text, VIF0_MACADDR + "=", MAC_LEN);
      if at.Some? {
        var s := text[at.value..];
        l := Four(Strtoul(s[6..]), Strtoul(s[9..]), Strtoul(s[12..]), Strtoul(s[15..]));
        h := Two(Strtoul(s), Strtoul(s[3..]));
      }
      rc := 0;
    }
  }

  lemma StoredText(a: seq<Tag>, b: seq<Tag>, d: seq<Tag>)
    ensures Text(a + b + d) == "" + Text(a) + Text(b) + Text(d)
  {
    TextAppend(a, b);
    TextAppend(a + b, d);
  }

  lemma OneLine(t: Tag)
    ensures Text([t]) == Line(t) && Text([]) == ""
  {
    assert [t][1..] == [];
    assert Line(t) + "" == Line(t);
  }

  lemma {:induction false} TextAppend(a: seq<Tag>, b: seq<Tag>)
    ensures Text(a + b) == Text(a) + Text(b)
  {
    if a == [] {
      assert a + b == b;
    } else {
      assert (a + b)[1..] == a[1..] + b;
      TextAppend(a[1..], b);
      Regroup(Line(a[0]), Text(a[1..]), Text(b));
    }
  }
}
