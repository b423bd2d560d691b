/** Lines of the configuration file and the hexadecimal numbers in them. */
module CfgText {
  import opened Octets

  // ---------------------------------------------------------------- hexadecimal numbers

  function HexChar(d: nat): (c: char)
    requires d < 16
    ensures IsHex(c) && HexVal(c) == d
  {
    if d < 10 then '0' + d as char else 'a' + (d - 10) as char
  }

  predicate IsHex(c: char) {
    '0' <= c <= '9' || 'a' <= c <= 'f' || 'A' <= c <= 'F'
  }

  function HexVal(c: char): nat
    requires IsHex(c)
  {
    if c <= '9' then c as int - '0' as int
    else if c <= 'F' then c as int - 'A' as int + 10
    else c as int - 'a' as int + 10
  }

  function Pow16(k: nat): (p: nat)
    ensures p >= 1
  {
    if k == 0 then 1 else 16 * Pow16(k - 1)
  }

  /** The last `w` hexadecimal digits of `v`. */
  function Hex(v: nat, w: nat): (s: string)
    ensures |s| == w && forall i :: 0 <= i < |s| ==> IsHex(s[i])
  {
    if w == 0 then "" else Hex(v / 16, w - 1) + [HexChar(v % 16)]
  }

  predicate AllHex(s: string) { forall i :: 0 <= i < |s| ==> IsHex(s[i]) }

  function Value(s: string): nat
    requires AllHex(s)
  {
    if s == "" then 0 else Value(s[..|s| - 1]) * 16 + HexVal(s[|s| - 1])
  }

  /** How many hexadecimal digits `s` starts with. */
  function Run(s: string): (n: nat)
    ensures n <= |s| && AllHex(s[..n]) && (n < |s| ==> !IsHex(s[n]))
  {
    if s == "" || !IsHex(s[0]) then 0
    else
      var n := Run(s[1..]);
      assert s[..n + 1] == [s[0]] + s[1..][..n];
      n + 1
  }

  /** The number that `s` starts with, an optional prefix 0x left out; simple_strtoul of the
      kernel for base 16, whose overflow the callers cut off. */
  function Strtoul(s: string): nat {
    var t := if |s| >= 2 && s[0] == '0' && (s[1] == 'x' || s[1] == 'X') then s[2..] else s;
    Value(t[..Run(t)])
  }

  lemma ValueLast(t: string, c: char)
    requires AllHex(t) && IsHex(c)
    ensures AllHex(t + [c]) && Value(t + [c]) == Value(t) * 16 + HexVal(c)
  {
    assert (t + [c])[..|t|] == t;
  }

  lemma {:induction false} HexValue(v: nat, w: nat)
    requires v < Pow16(w)
    ensures Value(Hex(v, w)) == v
  {
    if w > 0 {
      HexValue(v / 16, w - 1);
      ValueLast(Hex(v / 16, w - 1), HexChar(v % 16));
    }
  }

  lemma {:induction false} RunIs(t: string, rest: string)
    requires AllHex(t) && (rest != "" ==> !IsHex(rest[0]))
    ensures Run(t + rest) == |t|
  {
    if t == "" {
      assert t + rest == rest;
    } else {
      assert (t + rest)[1..] == t[1..] + rest;
      RunIs(t[1..], rest);
    }
  }

  lemma NoPrefix(s: string)
    requires |s| >= 2 ==> s[1] != 'x' && s[1] != 'X'
    ensures Strtoul(s) == Value(s[..Run(s)])
  {
  }

  /** A printed number is read back, whatever follows that is not a digit. */
  lemma HexRoundTrip(v: nat, w: nat, rest: string)
    requires v < Pow16(w) && w >= 2 && (rest != "" ==> !IsHex(rest[0]))
    ensures Strtoul(Hex(v, w) + rest) == v
  {
    var t := Hex(v, w);
    var s := t + rest;
    HexValue(v, w);
    RunIs(t, rest);
    assert s[1] == t[1] && IsHex(t[1]);
    NoPrefix(s);
    assert s[..w] == t;
  }

  lemma {:induction false} ValueAppend(a: string, b: string)
    requires AllHex(a) && AllHex(b)
    ensures AllHex(a + b) && Value(a + b) == Value(a) * Pow16(|b|) + Value(b) && Value(b) < Pow16(|b|)
  {
    if b == "" {
      assert a + b == a;
    } else {
      var front, d := b[..|b| - 1], HexVal(b[|b| - 1]);
      ValueAppend(a, front);
      assert (a + b)[..|a + b| - 1] == a + front;
      Shift16(Value(a), Pow16(|front|), Value(front));
    }
  }

  lemma Shift16(x: nat, p: nat, y: nat)
    ensures (x * p + y) * 16 == x * (16 * p) + y * 16
  {
  }

  // ---------------------------------------------------------------- the digits, in either case

  /** The sixteen digits, as they are printed and as they may be edited. */
  lemma DigitValues(d: nat)
    requires d < 16
    ensures HexChar(d) == "0123456789abcdef"[d] && HexVal("0123456789abcdef"[d]) == d
    ensures IsHex("0123456789ABCDEF"[d]) && HexVal("0123456789ABCDEF"[d]) == d
  {
  }

  /** A digit of either case as it would be printed. */
  function LowChar(c: char): (r: char)
    ensures IsHex(c) <==> IsHex(r)
    ensures IsHex(c) ==> HexVal(r) == HexVal(c) && !('A' <= r <= 'F')
  {
    if 'A' <= c <= 'F' then 'a' + (c - 'A') else c
  }

  /** The text with all digits as they would be printed. */
  function Lowered(s: string): (r: string)
    ensures |r| == |s| && forall i :: 0 <= i < |s| ==> r[i] == LowChar(s[i])
  {
    seq(|s|, i requires 0 <= i < |s| => LowChar(s[i]))
  }

  lemma LoweredSlice(s: string, i: nat, j: nat)
    requires i <= j <= |s|
    ensures Lowered(s)[i..j] == Lowered(s[i..j]) && Lowered(s)[i..] == Lowered(s[i..])
  {
  }

  lemma {:induction false} LoweredValue(s: string)
    requires AllHex(s)
    ensures AllHex(Lowered(s)) && Value(Lowered(s)) == Value(s)
  {
    if s != "" {
      LoweredValue(s[..|s| - 1]);
      LoweredSlice(s, 0, |s| - 1);
    }
  }

  lemma {:induction false} LoweredRun(s: string)
    ensures Run(Lowered(s)) == Run(s)
  {
    if s != "" {
      LoweredRun(s[1..]);
      LoweredSlice(s, 1, |s|);
    }
  }

  /** Numbers are read alike in either case. */
  lemma LoweredStrtoul(s: string)
    ensures Strtoul(Lowered(s)) == Strtoul(s)
  {
    var t := if |s| >= 2 && s[0] == '0' && (s[1] == 'x' || s[1] == 'X') then s[2..] else s;
    if |s| >= 2 { LoweredSlice(s, 2, |s|); }
    LoweredRun(t);
    LoweredSlice(t, 0, Run(t));
    LoweredValue(t[..Run(t)]);
  }

  // ---------------------------------------------------------------- lines

  /** The end of the line that position `p` is in. */
  function LineEnd(data: string, p: nat): (e: nat)
    requires p <= |data|
    ensures p <= e <= |data| && (e < |data| ==> data[e] == '\n')
    ensures forall i :: p <= i < e ==> data[i] != '\n'
    decreases |data| - p
  {
    if p == |data| || data[p] == '\n' then p else LineEnd(data, p + 1)
  }

  predicate LineStart(data: string, p: nat) {
    p < |data| && (p == 0 || data[p - 1] == '\n')
  }

  /** The line from `p` on is `name` and `len` characters more. */
  predicate Matches(data: string, p: nat, name: string, len: nat)
    requires p <= |data|
  {
    LineEnd(data, p) - p == |name| + len && data[p..p + |name|] == name
  }

  /** Where the value of the first line that matches starts, from the line at `p` on. */
  function FindFrom(data: string, p: nat, name: string, len: nat): (r: Option<nat>)
    requires p <= |data| + 1
    ensures r.Some? ==> r.value + len <= |data|
    decreases |data| + 1 - p
  {
    if p >= |data| then None
    else if Matches(data, p, name, len) then Some(p + |name|)
    else FindFrom(data, LineEnd(data, p) + 1, name, len)
  }

  lemma {:induction false} NextStart(data: string, p: nat, q: nat)
    requires LineStart(data, p) && LineStart(data, q) && p < q
    ensures LineEnd(data, p) + 1 <= q
  {
    assert data[q - 1] == '\n' && p <= q - 1;
  }

  /** It is the first line of the file that matches, and none if no line does. */
  lemma {:induction false} FindsFirst(data: string, p: nat, name: string, len: nat)
    requires p <= |data| + 1 && (p < |data| ==> LineStart(data, p))
    ensures First(data, p, name, len, FindFrom(data, p, name, len))
    decreases |data| + 1 - p
  {
    if p < |data| && !Matches(data, p, name, len) {
      FindsFirst(data, LineEnd(data, p) + 1, name, len);
      FirstLater(data, p, name, len, FindFrom(data, LineEnd(data, p) + 1, name, len));
    }
  }

  /** `r` is where the value of the first line from `p` on that matches starts. */
  ghost predicate First(data: string, p: nat, name: string, len: nat, r: Option<nat>) {
    match r
    case None => NoneBefore(data, p, |data|, name, len)
    case Some(v) =>
      && p + |name| <= v && LineStart(data, v - |name|) && Matches(data, v - |name|, name, len)
      && NoneBefore(data, p, v - |name|, name, len)
  }

  /** No line that starts from `p` to before `q` matches. */
  ghost predicate NoneBefore(data: string, p: nat, q: nat, name: string, len: nat) {
    forall k :: p <= k < q && LineStart(data, k) ==> !Matches(data, k, name, len)
  }

  lemma FirstLater(data: string, p: nat, name: string, len: nat, r: Option<nat>)
    requires LineStart(data, p) && !Matches(data, p, name, len) && First(data, LineEnd(data, p) + 1, name, len, r)
    ensures First(data, p, name, len, r)
  {
    forall k | p < k && LineStart(data, k)
      ensures LineEnd(data, p) + 1 <= k
    {
      NextStart(data, p, k);
    }
  }

  /** aml_cfg_find_tag: where the value of the first line of `tagLen` characters after the name
      starts. */
  method FindTag(data: string, name: string, tagLen: nat) returns (at: Option<nat>)
    ensures at == FindFrom(data, 0, name, tagLen)
  {
    var lineStart := 0;
    while lineStart < |data|
      invariant lineStart <= |data| + 1 && FindFrom(data, lineStart, name, tagLen) == FindFrom(data, 0, name, tagLen)
    {
      var curr := lineStart;
      while curr < |data| && data[curr] != '\n'
        invariant lineStart <= curr <= |data| && LineEnd(data, curr) == LineEnd(data, lineStart)
      {
        curr := curr + 1;
      }
      var lineSize := curr - lineStart;
      if lineSize == |name| + tagLen && data[lineStart..lineStart + |name|] == name {
        return Some(lineStart + |name|);
      }
      lineStart := curr + 1;
    }
    return None;
  }

  // ---------------------------------------------------------------- tags

  datatype Tag = Tag(name: string, value: string)

  /** Names have no equals sign, and neither they nor values have a line break. */
  ghost predicate TagOk(t: Tag) {
    && (forall i :: 0 <= i < |t.name| ==> t.name[i] != '=' && t.name[i] != '\n')
    && (forall i :: 0 <= i < |t.value| ==> t.value[i] != '\n')
  }

  function Line(t: Tag): string {
    t.name + "=" + t.value + "\n"
  }

  function Text(tags: seq<Tag>): string {
    if tags == [] then "" else Line(tags[0]) + Text(tags[1..])
  }

  lemma {:induction false} LineEndShift(a: string, b: string, p: nat)
    requires p <= |b|
    ensures LineEnd(a + b, |a| + p) == |a| + LineEnd(b, p)
    decreases |b| - p
  {
    if p < |b| {
      assert (a + b)[|a| + p] == b[p];
      if b[p] != '\n' {
        LineEndShift(a, b, p + 1);
      }
    }
  }

  lemma {:induction false} FindShift(a: string, b: string, p: nat, name: string, len: nat)
    requires p <= |b| + 1
    ensures
      var r := FindFrom(b, p, name, len);
      FindFrom(a + b, |a| + p, name, len) == if r.Some? then Some(|a| + r.value) else None
    decreases |b| + 1 - p
  {
    if p < |b| {
      LineEndShift(a, b, p);
      if LineEnd(b, p) - p == |name| + len {
        assert (a + b)[|a| + p..|a| + p + |name|] == b[p..p + |name|];
      }
      FindShift(a, b, LineEnd(b, p) + 1, name, len);
    }
  }

  /** The first line of a text. */
  lemma FirstLine(t: Tag, rest: string)
    requires TagOk(t)
    ensures LineEnd(Line(t) + rest, 0) == |Line(t)| - 1
  {
    var s := Line(t) + rest;
    var e, n := LineEnd(s, 0), |Line(t)| - 1;
    assert s[n] == '\n';
    assert forall i :: 0 <= i < n ==> s[i] != '\n' by {
      forall i | 0 <= i < n
        ensures s[i] != '\n'
      {
        if i > |t.name| { assert s[i] == t.value[i - |t.name| - 1]; }
      }
    }
  }

  /** A line starts with a name and an equals sign exactly if that is its name. */
  lemma NameIs(t: Tag, rest: string, name: string)
    requires TagOk(t) && (forall i :: 0 <= i < |name| ==> name[i] != '=') && |name| + 1 <= |Line(t) + rest|
    ensures (Line(t) + rest)[..|name| + 1] == name + "=" <==> t.name == name
  {
    var s := Line(t) + rest;
    assert s[|t.name|] == '=' && forall i :: 0 <= i < |t.name| ==> s[i] == t.name[i];
    if s[..|name| + 1] == name + "=" {
      assert s[|name|] == s[..|name| + 1][|name|] == '=';
      assert forall i :: 0 <= i < |name| ==> s[i] == s[..|name| + 1][i] == name[i];
      assert |name| == |t.name|;
    }
    if t.name == name {
      assert s[..|name| + 1] == name + "=";
    }
  }

  /** The value of the first tag with this name and length. */
  function Lookup(tags: seq<Tag>, name: string, len: nat): Option<string> {
    if tags == [] then None
    else if tags[0].name == name && |tags[0].value| == len then Some(tags[0].value)
    else Lookup(tags[1..], name, len)
  }

  /** The first line of a file of tags is the one looked for, or the search goes on after it. */
  lemma FindsHere(t: Tag, rest: string, name: string, len: nat)
    requires TagOk(t) && forall i :: 0 <= i < |name| ==> name[i] != '='
    ensures
      var s := Line(t) + rest;
      FindFrom(s, 0, name + "=", len) ==
        if t.name == name && |t.value| == len then Some(|name| + 1)
        else FindFrom(s, |Line(t)|, name + "=", len)
  {
    var s := Line(t) + rest;
    FirstLine(t, rest);
    if |Line(t)| - 1 == |name| + 1 + len {
      NameIs(t, rest, name);
    }
    assert Matches(s, 0, name + "=", len) <==> t.name == name && |t.value| == len;
  }

  /** At position `q` there is a value with a line break after it. */
  ghost predicate HasValue(data: string, q: nat, value: string) {
    q + |value| < |data| && data[q..q + |value|] == value && data[q + |value|] == '\n'
  }

  lemma ValueHere(t: Tag, rest: string)
    ensures HasValue(Line(t) + rest, |t.name| + 1, t.value)
  {
  }

  lemma ValueLater(a: string, b: string, q: nat, value: string)
    requires HasValue(b, q, value)
    ensures HasValue(a + b, |a| + q, value)
  {
    assert (a + b)[|a| + q..|a| + q + |value|] == b[q..q + |value|];
  }

  /** The search finds value `v`, or nothing. */
  ghost predicate Finds(data: string, name: string, len: nat, v: Option<string>) {
    var r := FindFrom(data, 0, name + "=", len);
    if v.None? then r == None else r.Some? && HasValue(data, r.value, v.value)
  }

  lemma FindsLater(t: Tag, rest: string, name: string, len: nat, v: Option<string>)
    requires TagOk(t) && (forall i :: 0 <= i < |name| ==> name[i] != '=')
    requires !(t.name == name && |t.value| == len) && Finds(rest, name, len, v)
    ensures Finds(Line(t) + rest, name, len, v)
  {
    FindsHere(t, rest, name, len);
    FindShift(Line(t), rest, 0, name + "=", len);
    if v.Some? {
      ValueLater(Line(t), rest, FindFrom(rest, 0, name + "=", len).value, v.value);
    }
  }

  /** Finding a tag in a file of tags. */
  lemma {:induction false} FindsTag(tags: seq<Tag>, name: string, len: nat)
    requires (forall t :: t in tags ==> TagOk(t)) && (forall i :: 0 <= i < |name| ==> name[i] != '=')
    ensures Finds(Text(tags), name, len, Lookup(tags, name, len))
  {
    if tags != [] {
      var t, rest := tags[0], Text(tags[1..]);
      if t.name == name && |t.value| == len {
        FindsHere(t, rest, name, len);
        ValueHere(t, rest);
      } else {
        FindsTag(tags[1..], name, len);
        FindsLater(t, rest, name, len, Lookup(tags[1..], name, len));
      }
    }
  }
}
