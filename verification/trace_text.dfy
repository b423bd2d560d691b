/** Trace records and the text that a reader gets for them. */
module TraceText {

  /** A 16-bit word. */
  type Word = w: int | 0 <= w < 0x1_0000

  const HEADER_LEN := 4
  const LAST_ENTRY: Word := 0xffff
  const MAX_RECORD := 259
  const MAX_TEXT := 1824

  /** Bits 8 to 15 of the first word, which are its upper ones. */
  function NbParam(w: Word): (n: nat)
    ensures n <= 255
  {
    w / 256
  }

  function EntrySize(w: Word): nat {
    NbParam(w) + HEADER_LEN
  }

  /** The length of a record is in its first word, which is not the end marker. */
  predicate IsRecord(r: seq<Word>) {
    |r| > 0 && r[0] != LAST_ENTRY && |r| == EntrySize(r[0])
  }

  type Record = seq<Word>

  predicate Records(rs: seq<Record>) {
    forall i :: 0 <= i < |rs| ==> IsRecord(rs[i])
  }

  // ---------------------------------------------------------------- decimal text

  predicate IsDigit(c: char) { '0' <= c <= '9' }

  function Digit(d: nat): (c: char)
    requires d < 10
    ensures IsDigit(c)
  {
    '0' + (d as char)
  }

  function Pow10(k: nat): (p: nat)
    ensures p > 0
  {
    if k == 0 then 1 else 10 * Pow10(k - 1)
  }

  /** Decimal digits of n, the way %u and %d write them. */
  function Dec(n: nat): (s: string) {
    if n < 10 then [Digit(n)] else Dec(n / 10) + [Digit(n % 10)]
  }

  /** The number written in `s`; blanks in front count for nothing. */
  function Value(s: string): nat {
    if s == [] then 0
    else
      var c := s[|s| - 1];
      10 * Value(s[..|s| - 1]) + if IsDigit(c) then (c - '0') as nat else 0
  }

  function Blanks(n: nat): (s: string)
    ensures |s| == n && forall i :: 0 <= i < n ==> s[i] == ' '
  {
    seq(n, i => ' ')
  }

  /** A minimum field width: blanks in front, nothing cut. */
  function Pad(s: string, width: nat): (r: string)
    ensures |s| <= width ==> |r| == width
  {
    if |s| < width then Blanks(width - |s|) + s else s
  }

  lemma {:induction false} DecLength(n: nat, k: nat)
    requires k > 0 && n < Pow10(k)
    ensures 0 < |Dec(n)| <= k
  {
    if n >= 10 {
      assert k > 1 by { assert Pow10(1) == 10 * Pow10(0); }
      DecLength(n / 10, k - 1);
    }
  }

  lemma {:induction false} DecValue(n: nat)
    ensures Value(Dec(n)) == n
  {
    if n >= 10 {
      DecValue(n / 10);
      assert Dec(n)[..|Dec(n)| - 1] == Dec(n / 10);
    } else {
      assert Value(Dec(n)[..0]) == 0;
    }
  }

  lemma {:induction false} BlanksValue(n: nat, s: string)
    ensures Value(Blanks(n) + s) == Value(s)
  {
    var t := Blanks(n) + s;
    if s != [] {
      assert t[..|t| - 1] == Blanks(n) + s[..|s| - 1];
      BlanksValue(n, s[..|s| - 1]);
    } else if n > 0 {
      assert t[..|t| - 1] == Blanks(n - 1) + s;
      BlanksValue(n - 1, s);
    }
  }

  /** A number below 10^width fills its field exactly, and can be read off it. */
  lemma Field(n: nat, width: nat)
    requires width > 0 && n < Pow10(width)
    ensures |Pad(Dec(n), width)| == width && Value(Pad(Dec(n), width)) == n
  {
    DecLength(n, width);
    DecValue(n);
    BlanksValue(width - |Dec(n)|, Dec(n));
  }

  // ---------------------------------------------------------------- a record as text

  function Stamp(r: Record): nat
    requires IsRecord(r)
  {
    (r[2] as int) * 0x1_0000 + r[3]
  }

  function Id(r: Record): nat
    requires IsRecord(r)
  {
    ((r[0] as int) % 256) * 0x1_0000 + r[1]
  }

  function Header(r: Record): string
    requires IsRecord(r)
  {
    "ts=" + Pad(Dec(Stamp(r)), 12) + " ID=" + Pad(Dec(Id(r)), 8)
  }

  function Param(w: Word): string {
    ", " + Pad(Dec(w), 5)
  }

  function Params(ws: seq<Word>): string {
    if ws == [] then "" else Params(ws[..|ws| - 1]) + Param(ws[|ws| - 1])
  }

  function Text(r: Record): string
    requires IsRecord(r)
  {
    Header(r) + Params(r[HEADER_LEN..]) + "\n"
  }

  /** The length that the reader reckons with before it converts a record. */
  function StrLen(w: Word): nat {
    3 + 12 + 4 + 8 + NbParam(w) * 7 + 1
  }

  lemma Powers()
    ensures Pow10(5) == 100000 && Pow10(8) == 100000000 && Pow10(12) == 1000000000000
  {
    assert Pow10(4) == 10000;
    assert Pow10(8) == 10000 * Pow10(4);
    assert Pow10(12) == 10000 * Pow10(8);
  }

  /** The columns of a header with the fields `a` and `b`. */
  lemma HeaderParts(a: string, b: string)
    requires |a| == 12 && |b| == 8
    ensures
      var h := "ts=" + a + " ID=" + b;
      |h| == 27 && h[0..3] == "ts=" && h[3..15] == a && h[15..19] == " ID=" && h[19..27] == b
  {
  }

  lemma HeaderLength(r: Record)
    requires IsRecord(r)
    ensures |Header(r)| == 27
  {
    Powers();
    Field(Stamp(r), 12);
    Field(Id(r), 8);
  }

  /** The number written in a column, and how. */
  ghost predicate Number(s: string, n: nat) {
    Value(s) == n && exists k :: Padded(s, k)
  }

  /** `k` blanks, then digits, the first one not zero unless it is the only one. */
  ghost predicate Padded(s: string, k: nat) {
    && k < |s| && (forall i :: 0 <= i < k ==> s[i] == ' ') && (forall i :: k <= i < |s| ==> '0' <= s[i] <= '9')
    && (s[k] == '0' ==> k == |s| - 1)
  }

  lemma {:induction false} DecDigits(n: nat)
    ensures |Dec(n)| > 0 && (forall i :: 0 <= i < |Dec(n)| ==> '0' <= Dec(n)[i] <= '9')
    ensures Dec(n)[0] == '0' ==> n == 0 && |Dec(n)| == 1
  {
    if n >= 10 { DecDigits(n / 10); }
  }

  lemma PaddedIs(k: nat, ds: string)
    requires |ds| > 0 && (forall i :: 0 <= i < |ds| ==> '0' <= ds[i] <= '9') && (ds[0] == '0' ==> |ds| == 1)
    ensures Padded(Blanks(k) + ds, k)
  {
  }

  lemma FieldNumber(n: nat, width: nat)
    requires width > 0 && n < Pow10(width)
    ensures |Pad(Dec(n), width)| == width && Number(Pad(Dec(n), width), n)
  {
    Field(n, width);
    DecLength(n, width);
    DecDigits(n);
    var k: nat := width - |Dec(n)|;
    PaddedIs(k, Dec(n));
    if k == 0 { assert Blanks(0) + Dec(n) == Dec(n); }
    assert Pad(Dec(n), width) == Blanks(k) + Dec(n);
  }

  lemma HeaderColumns(r: Record)
    requires IsRecord(r)
    ensures
      var h := Header(r);
      && |h| == 27 && h[0..3] == "ts=" && h[15..19] == " ID="
      && Number(h[3..15], Stamp(r)) && Number(h[19..27], Id(r))
  {
    Powers();
    FieldNumber(Stamp(r), 12);
    FieldNumber(Id(r), 8);
    HeaderParts(Pad(Dec(Stamp(r)), 12), Pad(Dec(Id(r)), 8));
  }

  lemma {:induction false} ParamsLength(ws: seq<Word>)
    ensures |Params(ws)| == 7 * |ws|
  {
    if ws != [] {
      ParamsLength(ws[..|ws| - 1]);
      Powers();
      Field(ws[|ws| - 1], 5);
    }
  }

  lemma SliceLeft(a: string, b: string, i: nat, j: nat)
    requires i <= j <= |a|
    ensures (a + b)[i..j] == a[i..j]
  {
  }

  lemma SliceRight(a: string, b: string, i: nat, j: nat)
    requires i <= j <= |b|
    ensures (a + b)[|a| + i..|a| + j] == b[i..j]
  {
  }

  /** Fields of seven characters, one more of them. */
  lemma FieldStep(front: string, last: string, n: nat, i: nat, f: string)
    requires |front| == 7 * n && |last| == 7
    requires if i < n then front[7 * i..7 * i + 7] == f else i == n && last == f
    ensures |front + last| == 7 * n + 7 && (front + last)[7 * i..7 * i + 7] == f
  {
    if i < n {
      SliceLeft(front, last, 7 * i, 7 * i + 7);
    } else {
      SliceRight(front, last, 0, 7);
      assert last[0..7] == last;
    }
  }

  lemma {:induction false} ParamsField(ws: seq<Word>, i: nat)
    requires i < |ws|
    ensures |Params(ws)| == 7 * |ws| && Params(ws)[7 * i..7 * i + 7] == Param(ws[i])
  {
    var n, f := |ws| - 1, Param(ws[i]);
    ParamsLength(ws);
    ParamsLength(ws[..n]);
    if i < n { ParamsField(ws[..n], i); }
    var front, last := Params(ws[..n]), Param(ws[n]);
    FieldStep(front, last, n, i, f);
  }

  /** A parameter with value `w` is printed at `at`. */
  ghost predicate ParamAt(t: string, at: nat, w: Word) {
    at + 7 <= |t| && t[at..at + 2] == ", " && Number(t[at + 2..at + 7], w)
  }

  lemma ParamIs(t: string, at: nat, w: Word)
    requires at + 7 <= |t| && t[at..at + 7] == Param(w)
    ensures ParamAt(t, at, w)
  {
    Powers();
    FieldNumber(w, 5);
    var f := Pad(Dec(w), 5);
    assert (", " + f)[0..2] == ", " && (", " + f)[2..7] == f;
    assert t[at..at + 7][0..2] == t[at..at + 2] && t[at..at + 7][2..7] == t[at + 2..at + 7];
  }

  /** A record is written in exactly the predicted number of characters, which fit the
      conversion buffer together with the terminating zero. */
  lemma TextLength(r: Record)
    requires IsRecord(r)
    ensures |Text(r)| == StrLen(r[0]) && |Text(r)| + 1 <= MAX_TEXT
  {
    HeaderLength(r);
    ParamsLength(r[HEADER_LEN..]);
  }

  /** The text of a record, column by column: the time stamp, whose upper half is the third
      word and whose lower half the fourth; the identifier, with the lower bits of the first
      word above the second; and each parameter after a comma, up to the line feed. */
  lemma TextFaithful(r: Record) returns (ts: nat, id: nat)
    requires IsRecord(r)
    ensures ts / 0x1_0000 == r[2] && ts % 0x1_0000 == r[3]
    ensures id / 0x1_0000 == r[0] % 0x100 && id % 0x1_0000 == r[1]
    ensures
      var t := Text(r);
      && |t| == 28 + 7 * (|r| - 4) && |r| - 4 == r[0] / 0x100
      && t[0..3] == "ts=" && Number(t[3..15], ts) && t[15..19] == " ID=" && Number(t[19..27], id)
      && (forall i :: 0 <= i < |r| - 4 ==> ParamAt(t, 27 + 7 * i, r[4 + i]))
      && t[|t| - 1] == '\n'
  {
    ts, id := Stamp(r), Id(r);
    var t := Text(r);
    TextLength(r);
    HeaderColumns(r);
    HeaderInText(Header(r), Params(r[HEADER_LEN..]) + "\n");
    assert t == Header(r) + (Params(r[HEADER_LEN..]) + "\n");
    forall i | 0 <= i < |r| - 4
      ensures ParamAt(t, 27 + 7 * i, r[4 + i])
    {
      ParamColumn(r, i);
    }
  }

  lemma HeaderInText(h: string, rest: string)
    requires |h| == 27
    ensures
      var t := h + rest;
      t[0..3] == h[0..3] && t[3..15] == h[3..15] && t[15..19] == h[15..19] && t[19..27] == h[19..27]
  {
  }

  /** A record as it is printed. */
  lemma Printed()
    ensures IsRecord([7, 1, 0, 5])
    ensures Text([7, 1, 0, 5]) == "ts=" + (Blanks(11) + "5") + " ID=" + (Blanks(2) + "458753") + "\n"
  {
    var r: Record := [7, 1, 0, 5];
    DecExamples();
    assert r[HEADER_LEN..] == [];
    assert Params([]) == "";
  }

  lemma DecExamples()
    ensures Dec(5) == "5" && Dec(458753) == "458753"
  {
    assert Dec(4) == "4" && Dec(45) == "45";
    assert Dec(458) == "458" && Dec(4587) == "4587" && Dec(45875) == "45875";
  }

  lemma ParamColumn(r: Record, i: nat)
    requires IsRecord(r) && i < |r| - HEADER_LEN
    ensures ParamAt(Text(r), 27 + 7 * i, r[HEADER_LEN + i])
  {
    HeaderLength(r);
    ParamsField(r[HEADER_LEN..], i);
    var h, ps, w := Header(r), Params(r[HEADER_LEN..]), r[HEADER_LEN + i];
    ParamSlice(h, ps, 7 * i);
    var t := h + ps + "\n";
    ParamIs(t, 27 + 7 * i, w);
  }

  lemma ParamSlice(h: string, ps: string, at: nat)
    requires |h| == 27 && at + 7 <= |ps|
    ensures (h + ps + "\n")[27 + at..34 + at] == ps[at..at + 7]
  {
    SliceRight(h, ps, at, at + 7);
    SliceLeft(h + ps, "\n", 27 + at, 34 + at);
  }

  // ---------------------------------------------------------------- several records

  function Concat<T>(ss: seq<seq<T>>): seq<T> {
    if ss == [] then [] else ss[0] + Concat(ss[1..])
  }

  lemma {:induction false} ConcatSplit<T>(a: seq<seq<T>>, b: seq<seq<T>>)
    ensures Concat(a + b) == Concat(a) + Concat(b)
  {
    if a == [] {
      assert a + b == b;
    } else {
      ConcatSplit(a[1..], b);
      assert (a + b)[1..] == a[1..] + b;
    }
  }

  function Texts(rs: seq<Record>): (ss: seq<string>)
    requires Records(rs)
    ensures |ss| == |rs| && forall i :: 0 <= i < |rs| ==> ss[i] == Text(rs[i])
  {
    seq(|rs|, i requires 0 <= i < |rs| => Text(rs[i]))
  }

  /** The texts of several records, one after the other. */
  function TextAll(rs: seq<Record>): string
    requires Records(rs)
  {
    Concat(Texts(rs))
  }

  lemma TextAllSplit(a: seq<Record>, b: seq<Record>)
    requires Records(a) && Records(b)
    ensures TextAll(a + b) == TextAll(a) + TextAll(b)
  {
    ConcatSplit(Texts(a), Texts(b));
    TextsSplit(a, b);
  }

  lemma TextsSplit(a: seq<Record>, b: seq<Record>)
    requires Records(a) && Records(b)
    ensures Texts(a + b) == Texts(a) + Texts(b)
  {
    var x, y := Texts(a + b), Texts(a) + Texts(b);
    assert |x| == |y|;
    forall i | 0 <= i < |x|
      ensures x[i] == y[i]
    {
      assert (a + b)[i] == if i < |a| then a[i] else b[i - |a|];
    }
  }

  lemma TextAllOne(r: Record)
    requires IsRecord(r)
    ensures TextAll([r]) == Text(r)
  {
    assert Texts([r])[1..] == [];
    assert Concat(Texts([r])) == Texts([r])[0] + Concat(Texts([r])[1..]);
  }

  lemma TextAllNext(rs: seq<Record>, k: nat)
    requires Records(rs) && k < |rs|
    ensures TextAll(rs[..k + 1]) == TextAll(rs[..k]) + Text(rs[k])
  {
    assert rs[..k + 1] == rs[..k] + [rs[k]];
    TextAllSplit(rs[..k], [rs[k]]);
    TextAllOne(rs[k]);
  }

  // ---------------------------------------------------------------- aml_fw_trace_to_str

  /** The loop over the parameters, `n` words from `at` on. */
  method ParamsToStr(data: array<Word>, at: nat, n: nat) returns (text: string, next: nat)
    requires at + n <= data.Length
    ensures next == at + n && text == Params(data[at..next])
  {
    text, next := "", at;
    var nbParam := n;
    while nbParam > 0
      invariant nbParam >= 0 && next + nbParam == at + n
      invariant text == Params(data[at..next])
    {
      ghost var ws := data[at..next + 1];
      assert ws[..|ws| - 1] == data[at..next];
      text := text + Param(data[next]);
      next := next + 1;
      nbParam := nbParam - 1;
    }
  }

  /** The header of the record at `at`: the words are read in the order in which they lie. */
  method HeaderToStr(data: array<Word>, at: nat, ghost r: Record) returns (text: string, next: nat)
    requires IsRecord(r) && at + |r| <= data.Length && data[at..at + |r|] == r
    ensures text == Header(r) && next == at + HEADER_LEN
  {
    assert data[at] == r[0] && data[at + 1] == r[1] && data[at + 2] == r[2] && data[at + 3] == r[3];
    var id := ((data[at] as int) % 256) * 0x1_0000 + data[at + 1];
    next := at + 2;
    var ts: int := data[next];
    next := next + 1;
    ts := ts * 0x1_0000 + data[next];
    next := next + 1;
    text := "ts=" + Pad(Dec(ts), 12) + " ID=" + Pad(Dec(id), 8);
  }

  /** The record at `at` as text, and where the next one starts. */
  method ToStr(data: array<Word>, at: nat) returns (text: string, next: nat)
    requires at < data.Length && data[at] != LAST_ENTRY && at + EntrySize(data[at]) <= data.Length
    ensures next == at + EntrySize(data[at])
    ensures text == Text(data[at..next])
  {
    ghost var r: Record := data[at..at + EntrySize(data[at])];
    var nbParam := NbParam(data[at]);
    var header, params;
    header, next := HeaderToStr(data, at, r);
    params, next := ParamsToStr(data, next, nbParam);
    text := header + params + "\n";
    assert data[at..next] == r;
    TextIs(r, data[at + HEADER_LEN..next], header, params, text);
  }

  lemma TextIs(r: Record, ws: seq<Word>, header: string, params: string, text: string)
    requires IsRecord(r) && ws == r[HEADER_LEN..] && header == Header(r) && params == Params(ws)
    requires text == header + params + "\n"
    ensures text == Text(r)
  {
  }
}
