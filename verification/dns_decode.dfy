/** The decoder of names, which writes into a buffer of 256 octets. */
module DnsDecode {
  import opened Collections
  import opened Octets
  import opened DnsNames

  const ROOM := 256

  /** What a number of rounds of the decoder's loop comes to: the name; a name that fills the
      buffer and so has no mark at its end; an error; a write past the buffer; or none of these
      yet. */
  datatype Outcome = Name(text: seq<byte>) | Unended(text: seq<byte>) | Failed | Overrun | Running

  /** The end of a name, with room for `room` more octets. */
  function End(room: nat): Outcome {
    if room == 0 then Unended([]) else Name([])
  }

  /** How many printable octets `t` starts with. */
  function Prefix(t: seq<byte>): (n: nat)
    ensures n <= |t| && (n < |t| ==> !Printable(t[n])) && (n == |t| <==> AllPrintable(t))
    ensures forall i :: 0 <= i < n ==> Printable(t[i])
  {
    if t == [] || !Printable(t[0]) then 0
    else
      assert t == [t[0]] + t[1..];
      1 + Prefix(t[1..])
  }

  /** The octets that are written for a label before an unprintable one is met. */
  function WrittenBad(b: seq<byte>, p: nat): nat
    requires p < |b|
  {
    if b[p] / 0x40 == 3 || p + 1 + b[p] as int > |b| - 1 then 0 else Prefix(b[p + 1..p + 1 + b[p] as int])
  }

  function DotAt(b: seq<byte>, p: nat): seq<byte>
    requires p < |b|
  {
    if b[p] != 0 then [DOT] else []
  }

  /** `n` rounds from position `p` on, with room for `room` more octets. */
  function Decode(b: seq<byte>, beyond: byte, p: nat, n: nat, room: nat): Outcome
    requires p < |b|
    decreases n
  {
    if b[p] == 0 then End(room)
    else if n == 0 then Running
    else
      match Look(b, beyond, p)
      case Root => End(room)
      case Bad => if WrittenBad(b, p) > room then Overrun else Failed
      case Jump(next) => Decode(b, beyond, next, n - 1, room)
      case Label(t, next) =>
        var w := t + DotAt(b, next);
        if |w| > room then Overrun else Then(w, Decode(b, beyond, next, n - 1, room - |w|))
  }

  /** What was written, followed by what comes of the rest. */
  function Then(done: seq<byte>, rest: Outcome): Outcome {
    match rest
    case Name(text) => Name(done + text)
    case Unended(text) => Unended(done + text)
    case _ => rest
  }

  // ---------------------------------------------------------------- how much is written

  /** How many octets `n` rounds write. */
  function Written(b: seq<byte>, beyond: byte, p: nat, n: nat): nat
    requires p < |b|
    decreases n
  {
    if b[p] == 0 || n == 0 then 0
    else
      match Look(b, beyond, p)
      case Root => 0
      case Bad => WrittenBad(b, p)
      case Jump(next) => Written(b, beyond, next, n - 1)
      case Label(t, next) => |t| + |DotAt(b, next)| + Written(b, beyond, next, n - 1)
  }

  /** A write passes the buffer if and only if more octets are written than it has. */
  lemma {:induction false} OverrunExactly(b: seq<byte>, beyond: byte, p: nat, n: nat, room: nat)
    requires p < |b|
    ensures Decode(b, beyond, p, n, room).Overrun? <==> Written(b, beyond, p, n) > room
    decreases n
  {
    var s := Look(b, beyond, p);
    if b[p] != 0 && n > 0 {
      if s.Jump? {
        OverrunExactly(b, beyond, s.next, n - 1, room);
      } else if s.Label? {
        var w := s.text + DotAt(b, s.next);
        if |w| <= room {
          OverrunExactly(b, beyond, s.next, n - 1, room - |w|);
        }
        OverrunLabel(b, beyond, p, n, room, s.next, w);
      }
    }
  }

  lemma OverrunLabel(b: seq<byte>, beyond: byte, p: nat, n: nat, room: nat, next: nat, w: seq<byte>)
    requires p < |b| && b[p] != 0 && n > 0 && Look(b, beyond, p).Label? && next == Look(b, beyond, p).next
    requires w == Look(b, beyond, p).text + DotAt(b, next)
    requires |w| <= room ==>
      (Decode(b, beyond, next, n - 1, room - |w|).Overrun? <==> Written(b, beyond, next, n - 1) > room - |w|)
    ensures Decode(b, beyond, p, n, room).Overrun? <==> Written(b, beyond, p, n) > room
  {
    WrittenLabel(b, beyond, p, n, w);
    if |w| <= room {
      DecodeStep(b, beyond, p, n, room, w);
    }
  }

  lemma WrittenLabel(b: seq<byte>, beyond: byte, p: nat, n: nat, w: seq<byte>)
    requires p < |b| && b[p] != 0 && n > 0 && Look(b, beyond, p).Label?
    requires w == Look(b, beyond, p).text + DotAt(b, Look(b, beyond, p).next)
    ensures Written(b, beyond, p, n) == |w| + Written(b, beyond, Look(b, beyond, p).next, n - 1)
  {
  }

  lemma DecodeStep(b: seq<byte>, beyond: byte, p: nat, n: nat, room: nat, w: seq<byte>)
    requires p < |b| && b[p] != 0 && n > 0 && Look(b, beyond, p).Label? && |w| <= room
    requires w == Look(b, beyond, p).text + DotAt(b, Look(b, beyond, p).next)
    ensures Decode(b, beyond, p, n, room) == Then(w, Decode(b, beyond, Look(b, beyond, p).next, n - 1, room - |w|))
  {
  }

  /** Otherwise a name that ends gives the text specified for it, or an error. */
  lemma {:induction false} DecodesName(b: seq<byte>, beyond: byte, p: nat, n: nat, room: nat)
    requires p < |b| && Ends(b, beyond, p, n) && Written(b, beyond, p, n + 1) <= room
    ensures Decode(b, beyond, p, n + 1, room) == Result(Decoded(b, beyond, p, n), room)
    decreases n
  {
    var s := Look(b, beyond, p);
    if s.Jump? {
      DecodesName(b, beyond, s.next, n - 1, room);
    } else if !s.Label? {
      DecodesEnd(b, beyond, p, n, room);
    } else {
      var w := s.text + DotAt(b, s.next);
      WrittenLabel(b, beyond, p, n + 1, w);
      DecodesName(b, beyond, s.next, n - 1, room - |w|);
      DecodesLabel(b, beyond, p, n, room, s.next, w);
    }
  }

  lemma DecodesEnd(b: seq<byte>, beyond: byte, p: nat, n: nat, room: nat)
    requires p < |b| && Ends(b, beyond, p, n) && !Moves(Look(b, beyond, p)) && Written(b, beyond, p, n + 1) <= room
    ensures Decode(b, beyond, p, n + 1, room) == Result(Decoded(b, beyond, p, n), room)
  {
  }

  lemma DecodesLabel(b: seq<byte>, beyond: byte, p: nat, n: nat, room: nat, next: nat, w: seq<byte>)
    requires p < |b| && Ends(b, beyond, p, n) && Look(b, beyond, p).Label? && next == Look(b, beyond, p).next
    requires w == Look(b, beyond, p).text + DotAt(b, next) && |w| <= room
    requires Decode(b, beyond, next, n, room - |w|) == Result(Decoded(b, beyond, next, n - 1), room - |w|)
    ensures Decode(b, beyond, p, n + 1, room) == Result(Decoded(b, beyond, p, n), room)
  {
    DecodeStep(b, beyond, p, n + 1, room, w);
    ResultThen(b, beyond, next, n - 1, w, room);
  }

  /** A text, or an error, with room for `room` octets. */
  function Result(d: Option<seq<byte>>, room: nat): Outcome {
    if d.None? then Failed else if |d.value| == room then Unended(d.value) else Name(d.value)
  }

  lemma ResultThen(b: seq<byte>, beyond: byte, p: nat, n: nat, w: seq<byte>, room: nat)
    requires p < |b| && Ends(b, beyond, p, n) && |w| <= room
    ensures
      var d := Decoded(b, beyond, p, n);
      Then(w, Result(d, room - |w|)) == Result(if d.None? then None else Some(w + d.value), room)
  {
  }

  /** A name without errors: its text is too long for the buffer, fills it, or is followed by
      the mark at its end, by the number of octets of its labels with dots between them and
      the one more after a label that a pointer to the end follows. */
  lemma NameExactly(b: seq<byte>, beyond: byte, p: nat, n: nat)
    requires p < |b| && Ends(b, beyond, p, n) && Labels(b, beyond, p, n).Some?
    ensures
      var text := Dotted(Labels(b, beyond, p, n).value) + if EndsByPointer(b, beyond, p, n) then [DOT] else [];
      Decode(b, beyond, p, n + 1, ROOM) == if |text| > ROOM then Overrun else Result(Some(text), ROOM)
  {
    DecodedIs(b, beyond, p, n);
    WrittenIs(b, beyond, p, n);
    OverrunExactly(b, beyond, p, n + 1, ROOM);
    if Written(b, beyond, p, n + 1) <= ROOM {
      DecodesName(b, beyond, p, n, ROOM);
    }
  }

  /** The labels met from `p`; the last one, if there is an error, is what is printable at the
      start of the label that has it. */
  function Texts(b: seq<byte>, beyond: byte, p: nat, n: nat): seq<seq<byte>>
    requires p < |b| && Ends(b, beyond, p, n)
    decreases n
  {
    match Look(b, beyond, p)
    case Root => []
    case Bad => [if WrittenBad(b, p) == 0 then [] else b[p + 1..p + 1 + WrittenBad(b, p)]]
    case Jump(next) => Texts(b, beyond, next, n - 1)
    case Label(t, next) => [t] + Texts(b, beyond, next, n - 1)
  }

  /** A name with an error: the buffer is overrun before it if and only if what comes before it
      is too long. */
  lemma ErrorExactly(b: seq<byte>, beyond: byte, p: nat, n: nat)
    requires p < |b| && Ends(b, beyond, p, n) && Labels(b, beyond, p, n).None?
    ensures Decode(b, beyond, p, n + 1, ROOM) == if |Dotted(Texts(b, beyond, p, n))| > ROOM then Overrun else Failed
  {
    DecodedIs(b, beyond, p, n);
    ErrorWrites(b, beyond, p, n);
    OverrunExactly(b, beyond, p, n + 1, ROOM);
    if Written(b, beyond, p, n + 1) <= ROOM {
      DecodesName(b, beyond, p, n, ROOM);
    }
  }

  lemma {:induction false} ErrorWrites(b: seq<byte>, beyond: byte, p: nat, n: nat)
    requires p < |b| && Ends(b, beyond, p, n) && Labels(b, beyond, p, n).None?
    ensures b[p] != 0 && Texts(b, beyond, p, n) != []
    ensures Written(b, beyond, p, n + 1) == |Dotted(Texts(b, beyond, p, n))|
    decreases n
  {
    var s := Look(b, beyond, p);
    if Moves(s) {
      ErrorWrites(b, beyond, s.next, n - 1);
      if s.Label? {
        var rest := Texts(b, beyond, s.next, n - 1);
        assert ([s.text] + rest)[1..] == rest;
      }
    }
  }

  // ---------------------------------------------------------------- names without end

  /** One whose walk comes back to a position keeps the decoder running or overruns the buffer. */
  lemma {:induction false} RunsOn(b: seq<byte>, beyond: byte, p: nat, n: nat, room: nat)
    requires p < |b| && !Ends(b, beyond, p, n)
    ensures Decode(b, beyond, p, n, room).Running? || Decode(b, beyond, p, n, room).Overrun?
    decreases n
  {
    var s := Look(b, beyond, p);
    if n > 0 {
      if s.Jump? {
        RunsOn(b, beyond, s.next, n - 1, room);
      } else if |s.text + DotAt(b, s.next)| <= room {
        RunsOn(b, beyond, s.next, n - 1, room - |s.text + DotAt(b, s.next)|);
      }
    }
  }

  /** Between the `i`th and the `j`th position of the walk there is a label. */
  ghost predicate LabelBetween(b: seq<byte>, beyond: byte, p: nat, i: nat, j: nat)
    requires p < |b|
  {
    exists m :: i <= m < j && LabelAfter(b, beyond, p, m)
  }

  predicate LabelAfter(b: seq<byte>, beyond: byte, p: nat, m: nat)
    requires p < |b|
  {
    After(b, beyond, p, m).Some? && Look(b, beyond, After(b, beyond, p, m).value).Label?
  }

  /** The labels met in the first `i` moves. */
  function Met(b: seq<byte>, beyond: byte, p: nat, i: nat): seq<seq<byte>>
    requires p < |b| && After(b, beyond, p, i).Some?
    decreases i
  {
    if i == 0 then []
    else
      var s := Look(b, beyond, p);
      (if s.Label? then [s.text] else []) + Met(b, beyond, s.next, i - 1)
  }

  /** The octets of labels with a dot after each. */
  function WithDots(s: seq<seq<byte>>): nat {
    if s == [] then 0 else |s[0]| + 1 + WithDots(s[1..])
  }

  lemma {:induction false} MetWrites(b: seq<byte>, beyond: byte, p: nat, i: nat)
    requires p < |b| && After(b, beyond, p, i).Some? && b[After(b, beyond, p, i).value] != 0
    ensures b[p] != 0 && Written(b, beyond, p, i) == WithDots(Met(b, beyond, p, i))
    decreases i
  {
    if i > 0 {
      var s := Look(b, beyond, p);
      MetWrites(b, beyond, s.next, i - 1);
      var rest := Met(b, beyond, s.next, i - 1);
      if s.Label? {
        assert ([s.text] + rest)[1..] == rest;
      } else {
        assert [] + rest == rest;
      }
    }
  }

  /** The walk comes back after `j` moves to where it was after `i`: the buffer is overrun, sooner
      or later, if and only if there is a label on the way round, or those before are too
      long. */
  lemma LoopExactly(b: seq<byte>, beyond: byte, p: nat, i: nat, j: nat, room: nat)
    requires p < |b| && i < j && After(b, beyond, p, i).Some? && After(b, beyond, p, i) == After(b, beyond, p, j)
    ensures (exists n: nat :: Decode(b, beyond, p, n, room).Overrun?) <==>
            LabelBetween(b, beyond, p, i, j) || WithDots(Met(b, beyond, p, i)) > room
  {
    var q, d := After(b, beyond, p, i).value, j - i;
    AfterTwice(b, beyond, p, i, d);
    MetWrites(b, beyond, p, i);
    RoundWrites(b, beyond, p, i, d, q);
    if LabelBetween(b, beyond, p, i, j) || Written(b, beyond, p, i) > room {
      var n := LoopOverruns(b, beyond, p, i, q, d, room);
    } else {
      forall n: nat
        ensures !Decode(b, beyond, p, n, room).Overrun?
      {
        LoopStays(b, beyond, p, i, q, d, room, n);
      }
    }
  }

  lemma LoopOverruns(b: seq<byte>, beyond: byte, p: nat, i: nat, q: nat, d: nat, room: nat) returns (n: nat)
    requires p < |b| && After(b, beyond, p, i) == Some(q) && q < |b| && After(b, beyond, q, d) == Some(q)
    requires Written(b, beyond, q, d) > 0 || Written(b, beyond, p, i) > room
    ensures Decode(b, beyond, p, n, room).Overrun?
  {
    var more := 0;
    if Written(b, beyond, q, d) > 0 {
      more := Grows(b, beyond, q, d, room + 1);
    }
    n := i + more;
    WrittenSplit(b, beyond, p, i, more);
    OverrunExactly(b, beyond, p, n, room);
  }

  lemma LoopStays(b: seq<byte>, beyond: byte, p: nat, i: nat, q: nat, d: nat, room: nat, n: nat)
    requires p < |b| && After(b, beyond, p, i) == Some(q) && d > 0 && q < |b| && After(b, beyond, q, d) == Some(q)
    requires Written(b, beyond, q, d) == 0 && Written(b, beyond, p, i) <= room
    ensures !Decode(b, beyond, p, n, room).Overrun?
  {
    OverrunExactly(b, beyond, p, n, room);
    NoMore(b, beyond, p, i, q, d, n);
  }

  /** What is written in `n` rounds more than `i` is written from where those lead. */
  lemma {:induction false} WrittenSplit(b: seq<byte>, beyond: byte, p: nat, i: nat, n: nat)
    requires p < |b| && After(b, beyond, p, i).Some?
    ensures Written(b, beyond, p, i + n) ==
            Written(b, beyond, p, i) + Written(b, beyond, After(b, beyond, p, i).value, n)
    decreases i
  {
    if i > 0 {
      WrittenSplit(b, beyond, Look(b, beyond, p).next, i - 1, n);
    }
  }

  lemma {:induction false} WrittenMore(b: seq<byte>, beyond: byte, p: nat, n: nat, m: nat)
    requires p < |b| && n <= m
    ensures Written(b, beyond, p, n) <= Written(b, beyond, p, m)
    decreases n
  {
    var s := Look(b, beyond, p);
    if n > 0 && Moves(s) {
      WrittenMore(b, beyond, s.next, n - 1, m - 1);
    }
  }

  /** Each round round a loop on which something is written writes more. */
  lemma {:induction false} Grows(b: seq<byte>, beyond: byte, q: nat, d: nat, t: nat) returns (n: nat)
    requires q < |b| && After(b, beyond, q, d) == Some(q) && Written(b, beyond, q, d) > 0
    ensures Written(b, beyond, q, n) >= t
    decreases t
  {
    if t == 0 {
      n := 0;
    } else {
      var more := Grows(b, beyond, q, d, t - 1);
      n := d + more;
      WrittenSplit(b, beyond, q, d, more);
    }
  }

  /** If nothing is, what was written before is all. */
  lemma NoMore(b: seq<byte>, beyond: byte, p: nat, i: nat, q: nat, d: nat, n: nat)
    requires p < |b| && After(b, beyond, p, i) == Some(q) && d > 0 && q < |b| && After(b, beyond, q, d) == Some(q)
    requires Written(b, beyond, q, d) == 0
    ensures Written(b, beyond, p, n) <= Written(b, beyond, p, i)
  {
    if n <= i {
      WrittenMore(b, beyond, p, n, i);
    } else {
      WrittenSplit(b, beyond, p, i, n - i);
      Nothing(b, beyond, q, d, n - i);
    }
  }

  lemma {:induction false} Nothing(b: seq<byte>, beyond: byte, q: nat, d: nat, n: nat)
    requires q < |b| && d > 0 && After(b, beyond, q, d) == Some(q) && Written(b, beyond, q, d) == 0
    ensures Written(b, beyond, q, n) == 0
    decreases n
  {
    if n <= d {
      WrittenMore(b, beyond, q, n, d);
    } else {
      WrittenSplit(b, beyond, q, d, n - d);
      Nothing(b, beyond, q, d, n - d);
    }
  }

  /** Something is written on the way round if and only if there is a label. */
  lemma RoundWrites(b: seq<byte>, beyond: byte, p: nat, i: nat, d: nat, q: nat)
    requires p < |b| && After(b, beyond, p, i) == Some(q) && q < |b| && After(b, beyond, q, d).Some?
    ensures Written(b, beyond, q, d) > 0 <==> LabelBetween(b, beyond, p, i, i + d)
  {
    forall m: nat | m < d
      ensures LabelAfter(b, beyond, q, m) <==> LabelAfter(b, beyond, p, i + m)
    {
      AfterTwice(b, beyond, p, i, m);
    }
    LabelsWrite(b, beyond, q, d);
    if LabelBetween(b, beyond, p, i, i + d) {
      var m :| i <= m < i + d && LabelAfter(b, beyond, p, m);
      assert LabelAfter(b, beyond, q, m - i);
    }
    if LabelBetween(b, beyond, q, 0, d) {
      var m :| 0 <= m < d && LabelAfter(b, beyond, q, m);
      assert LabelAfter(b, beyond, p, i + m);
    }
  }

  lemma {:induction false} LabelsWrite(b: seq<byte>, beyond: byte, q: nat, d: nat)
    requires q < |b| && After(b, beyond, q, d).Some?
    ensures Written(b, beyond, q, d) > 0 <==> LabelBetween(b, beyond, q, 0, d)
    decreases d
  {
    if d > 0 {
      var s := Look(b, beyond, q);
      LabelsWrite(b, beyond, s.next, d - 1);
      if s.Label? {
        assert LabelAfter(b, beyond, q, 0);
      } else {
        OneOn(b, beyond, q, d);
      }
    }
  }

  lemma OneOn(b: seq<byte>, beyond: byte, q: nat, d: nat)
    requires q < |b| && d > 0 && Look(b, beyond, q).Jump?
    ensures LabelBetween(b, beyond, q, 0, d) <==> LabelBetween(b, beyond, Look(b, beyond, q).next, 0, d - 1)
  {
    var next := Look(b, beyond, q).next;
    assert forall m: nat :: LabelAfter(b, beyond, q, m + 1) <==> LabelAfter(b, beyond, next, m);
    if LabelBetween(b, beyond, q, 0, d) {
      var m :| 0 <= m < d && LabelAfter(b, beyond, q, m);
      assert m > 0 && LabelAfter(b, beyond, next, m - 1);
    }
    if LabelBetween(b, beyond, next, 0, d - 1) {
      var m :| 0 <= m < d - 1 && LabelAfter(b, beyond, next, m);
      assert LabelAfter(b, beyond, q, m + 1);
    }
  }

  /** For a name without errors just its text is written. */
  lemma {:induction false} WrittenIs(b: seq<byte>, beyond: byte, p: nat, n: nat)
    requires p < |b| && Ends(b, beyond, p, n) && Decoded(b, beyond, p, n).Some?
    ensures Written(b, beyond, p, n + 1) == |Decoded(b, beyond, p, n).value|
    decreases n
  {
    var s := Look(b, beyond, p);
    if Moves(s) {
      WrittenIs(b, beyond, s.next, n - 1);
    }
  }

  // ---------------------------------------------------------------- packets

  /** Two labels, the first of 191 octets. */
  lemma TwoLabels(b: seq<byte>, t: seq<byte>, u: seq<byte>, beyond: byte)
    requires |t| == 191 && 0 < |u| < 192 && AllPrintable(t) && AllPrintable(u)
    requires b == [191] + t + [|u|] + u + [0]
    ensures Ends(b, beyond, 0, 2) && Labels(b, beyond, 0, 2) == Some([t, u]) && !EndsByPointer(b, beyond, 0, 2)
  {
    var end := 193 + |u|;
    assert b[1..192] == t && b[192] == |u| && b[193..end] == u && b[end] == 0;
    assert Look(b, beyond, 0) == Label(t, 192) && Look(b, beyond, 192) == Label(u, end) && Look(b, beyond, end) == Root;
    assert Ends(b, beyond, end, 0) && Ends(b, beyond, 192, 1);
    assert Labels(b, beyond, end, 0) == Some([]) && [u] + [] == [u];
    assert Labels(b, beyond, 192, 1) == Some([u]) && [t] + [u] == [t, u];
    assert !EndsByPointer(b, beyond, 192, 1);
  }

  lemma TwoDotted(t: seq<byte>, u: seq<byte>)
    ensures Dotted([t, u]) == t + [DOT] + u
  {
    assert [t, u][1..] == [u];
  }

  /** With a second label of 64 octets the name fills the buffer, without a mark at its end; with
      one more octet in it, that is written past the buffer. */
  lemma BufferFilled(b: seq<byte>, t: seq<byte>, u: seq<byte>, beyond: byte)
    requires |t| == 191 && |u| in {64, 65} && AllPrintable(t) && AllPrintable(u)
    requires b == [191] + t + [|u|] + u + [0]
    ensures Decode(b, beyond, 0, 3, ROOM) == if |u| == 64 then Unended(t + [DOT] + u) else Overrun
  {
    TwoLabels(b, t, u, beyond);
    TwoDotted(t, u);
    assert t + [DOT] + u + [] == t + [DOT] + u;
    NameExactly(b, beyond, 0, 2);
  }

  /** A label followed by a pointer to it: the buffer is overrun. */
  lemma LabelRound(b: seq<byte>, beyond: byte) returns (n: nat)
    requires b == [1, 97, 0xc0, 1]
    ensures Loops(b, beyond, 0) && Decode(b, beyond, 0, n, ROOM).Overrun?
  {
    assert b[1..2] == [97];
    assert Look(b, beyond, 0) == Label([97], 2) && Look(b, beyond, 2) == Jump(0);
    assert After(b, beyond, 0, 0) == Some(0) && After(b, beyond, 2, 1) == After(b, beyond, 0, 0);
    assert After(b, beyond, 0, 2) == After(b, beyond, 2, 1);
    assert LabelAfter(b, beyond, 0, 0);
    LoopExactly(b, beyond, 0, 0, 2, ROOM);
    n :| Decode(b, beyond, 0, n, ROOM).Overrun?;
  }

  /** Two pointers to each other: nothing is ever written. */
  lemma PointersWriteNothing(b: seq<byte>, beyond: byte, n: nat)
    requires b == [0xc0, 3, 0xc0, 1]
    ensures Decode(b, beyond, 0, n, ROOM) == Running
  {
    PointersMeet(b, beyond, n);
    assert Look(b, beyond, 0) == Jump(2) && Look(b, beyond, 2) == Jump(0);
    assert After(b, beyond, 0, 1) == After(b, beyond, 2, 0) && After(b, beyond, 2, 1) == After(b, beyond, 0, 0);
    assert After(b, beyond, 0, 0) == Some(0) && After(b, beyond, 0, 2) == After(b, beyond, 2, 1);
    assert !LabelAfter(b, beyond, 0, 0) && !LabelAfter(b, beyond, 0, 1);
    LoopExactly(b, beyond, 0, 0, 2, ROOM);
    RunsOn(b, beyond, 0, n, ROOM);
  }

  // ---------------------------------------------------------------- standard names

  /** The octets of a name as section 3.1 of RFC 1035 counts them, which are at most 255. */
  function WireLength(s: seq<seq<byte>>): nat {
    if s == [] then 1 else 1 + |s[0]| + WireLength(s[1..])
  }

  lemma {:induction false} DottedLength(s: seq<seq<byte>>)
    ensures |Dotted(s)| == if s == [] then 0 else WireLength(s) - 2
  {
    if |s| > 1 {
      DottedLength(s[1..]);
    } else if |s| == 1 {
      assert s[1..] == [];
    }
  }

  lemma {:induction false} SameFrom(b: seq<byte>, beyond: byte, p: nat, n: nat, k: nat)
    requires p < |b| && Ends(b, beyond, p, n) && Ends(b, beyond, p, k)
    ensures Labels(b, beyond, p, n) == Labels(b, beyond, p, k)
    decreases n
  {
    var s := Look(b, beyond, p);
    if Moves(s) {
      SameFrom(b, beyond, s.next, n - 1, k - 1);
    }
  }

  /** For a name that the standard expands to printable labels, of at most 255 octets, as many
      rounds as the packet has octets give the labels with dots between them, and one more
      dot if the last label is followed by a pointer; the buffer keeps room for the mark at
      the end, and the octet beyond the packet does not matter. */
  lemma StandardDecoded(b: seq<byte>, beyond: byte, p: nat, k: nat)
    requires p < |b| && Standard(b, p, k).Some? && Readable(Standard(b, p, k).value)
    requires WireLength(Standard(b, p, k).value) <= 255
    ensures Ends(b, beyond, p, |b| - 1)
    ensures
      var dot := if EndsByPointer(b, beyond, p, |b| - 1) then [DOT] else [];
      var text := Dotted(Standard(b, p, k).value) + dot;
      Decode(b, beyond, p, |b|, ROOM) == Name(text) && |text| < ROOM
  {
    FollowsStandard(b, beyond, p, k);
    SameAsStandard(b, beyond, p, k - 1, k);
    EndsInTime(b, beyond, p, k - 1);
    SameFrom(b, beyond, p, k - 1, |b| - 1);
    DecodedIs(b, beyond, p, |b| - 1);
    DottedLength(Standard(b, p, k).value);
    WrittenIs(b, beyond, p, |b| - 1);
    DecodesName(b, beyond, p, |b| - 1, ROOM);
  }

  // ---------------------------------------------------------------- the decoder

  datatype Copied = Whole | Unprintable | Full

  /** How copying `t` ends with room for `room` octets. */
  function CopiedIs(t: seq<byte>, room: nat): Copied {
    if Prefix(t) > room then Full else if Prefix(t) == |t| then Whole else Unprintable
  }

  /** The packet `b` is what the buffer begins with. */
  ghost predicate Holds(buf: array<byte>, b: seq<byte>)
    reads buf
  {
    |b| <= buf.Length && forall i :: 0 <= i < |b| ==> buf[i] == b[i]
  }

  /** A label is copied up to its first octet that is not printable; `Full` stands for a write
      past the buffer. */
  method CopyLabel(buf: array<byte>, ghost b: seq<byte>, p: nat, n: nat, qname: array<byte>, c: nat) returns (r: Copied)
    requires buf != qname && Holds(buf, b) && p + n <= |b| && c <= qname.Length
    modifies qname
    ensures r == CopiedIs(b[p..p + n], qname.Length - c)
    ensures r.Whole? ==> c + n <= qname.Length && qname[..c + n] == old(qname[..c]) + b[p..p + n]
  {
    ghost var t := b[p..p + n];
    var i := 0;
    while i < n
      invariant i <= n && c + i <= qname.Length && i <= Prefix(t)
      invariant qname[..c + i] == old(qname[..c]) + t[..i]
    {
      assert t[i] == buf[p + i];
      if buf[p + i] > 32 && buf[p + i] < 127 {
        if c + i == qname.Length {
          return Full;
        }
        qname[c + i] := buf[p + i];
      } else {
        return Unprintable;
      }
      i := i + 1;
    }
    assert t[..n] == t;
    return Whole;
  }

  /** After some rounds the decoder is at `p` and has written `done`; `out` is what all of them
      come to. */
  ghost predicate Decoding(b: seq<byte>, beyond: byte, out: Outcome, p: nat, n: nat, done: seq<byte>) {
    && p < |b| && |done| <= ROOM
    && Then(done, Decode(b, beyond, p, n, ROOM - |done|)) == out
  }

  lemma DecodingStarts(b: seq<byte>, beyond: byte, start: nat, rounds: nat)
    requires start < |b|
    ensures Decoding(b, beyond, Decode(b, beyond, start, rounds, ROOM), start, rounds, [])
  {
    var d := Decode(b, beyond, start, rounds, ROOM);
    assert d.Name? || d.Unended? ==> [] + d.text == d.text;
  }

  lemma DecodingEnds(b: seq<byte>, beyond: byte, out: Outcome, p: nat, n: nat, done: seq<byte>)
    requires Decoding(b, beyond, out, p, n, done) && b[p] == 0
    ensures out == Result(Some(done), ROOM)
  {
    assert done + [] == done;
  }

  lemma DecodingStops(b: seq<byte>, beyond: byte, out: Outcome, p: nat, n: nat, done: seq<byte>)
    requires Decoding(b, beyond, out, p, n, done)
    requires var d := Decode(b, beyond, p, n, ROOM - |done|); !d.Name? && !d.Unended?
    ensures out == Decode(b, beyond, p, n, ROOM - |done|)
  {
  }

  lemma DecodingLabel(b: seq<byte>, beyond: byte, out: Outcome, p: nat, n: nat, done: seq<byte>)
    requires Decoding(b, beyond, out, p, n, done) && n > 0 && Look(b, beyond, p).Label?
    requires |done| + |Look(b, beyond, p).text + DotAt(b, Look(b, beyond, p).next)| <= ROOM
    ensures
      var s := Look(b, beyond, p);
      Decoding(b, beyond, out, s.next, n - 1, done + (s.text + DotAt(b, s.next)))
  {
    var s := Look(b, beyond, p);
    var w := s.text + DotAt(b, s.next);
    var d := Decode(b, beyond, s.next, n - 1, ROOM - |done| - |w|);
    DecodeStep(b, beyond, p, n, ROOM - |done|, w);
    assert ROOM - |done + w| == ROOM - |done| - |w|;
    ThenThen(done, w, d);
  }

  lemma ThenThen(done: seq<byte>, w: seq<byte>, d: Outcome)
    ensures Then(done, Then(w, d)) == Then(done + w, d)
  {
    if d.Name? || d.Unended? {
      Regroup(done, w, d.text);
    }
  }

  /** __mdnsOffload_decode_qname: the name at position `offset`, counted from 1, after at most
      `rounds` rounds of the loop; `memory` tells whether the buffer for it can be allocated. */
  method DecodeQname(buf: array?<byte>, bufLen: nat, beyond: byte, offset: nat, memory: bool, rounds: nat)
    returns (r: Outcome)
    requires buf != null ==> bufLen <= buf.Length
    ensures r ==
      if buf == null || !(1 <= offset <= bufLen) || buf[offset - 1] == 0 || !memory then Failed
      else Decode(buf[..bufLen], beyond, offset - 1, rounds, ROOM)
  {
    if buf == null || bufLen < 1 || offset < 1 || offset > bufLen {
      return Failed;
    }
    var p := offset - 1;
    if buf[p] == 0 || !memory {
      return Failed;
    }
    r := DecodeAt(buf, bufLen, beyond, p, rounds);
  }

  method DecodeAt(buf: array<byte>, bufLen: nat, beyond: byte, start: nat, rounds: nat) returns (r: Outcome)
    requires start < bufLen <= buf.Length
    ensures r == Decode(buf[..bufLen], beyond, start, rounds, ROOM)
  {
    var qname := new byte[ROOM](i => 0);
    ghost var b := buf[..bufLen];
    ghost var out := Decode(b, beyond, start, rounds, ROOM);
    DecodingStarts(b, beyond, start, rounds);
    assert qname[..0] == [];
    r := DecodeLoop(buf, bufLen, b, beyond, out, start, rounds, qname);
  }

  method DecodeLoop(buf: array<byte>, bufLen: nat, ghost b: seq<byte>, beyond: byte, ghost out: Outcome,
                    start: nat, rounds: nat, qname: array<byte>) returns (r: Outcome)
    requires buf != qname && qname.Length == ROOM && start < bufLen == |b| && Holds(buf, b)
    requires Decoding(b, beyond, out, start, rounds, qname[..0])
    modifies qname
    ensures r == out
  {
    var n: nat := rounds;
    var p: nat := start;
    var c: nat := 0;
    while buf[p] != 0
      invariant Holds(buf, b) && p < bufLen && c <= ROOM
      invariant Decoding(b, beyond, out, p, n, qname[..c])
      decreases n
    {
      if n == 0 {
        DecodingStops(b, beyond, out, p, n, qname[..c]);
        return Running;
      }
      var stop;
      stop, p, c := DecodeNext(buf, bufLen, b, beyond, out, p, n, qname, c);
      if stop.Some? {
        return stop.value;
      }
      n := n - 1;
    }
    r := Finish(b, beyond, out, p, n, qname, c);
  }

  /** The name is complete.  Unless it fills the buffer the octet after it is 0. */
  method Finish(ghost b: seq<byte>, beyond: byte, ghost out: Outcome, ghost p: nat, ghost n: nat,
                qname: array<byte>, c: nat) returns (r: Outcome)
    requires qname.Length == ROOM && c <= ROOM && p < |b| && b[p] == 0
    requires Decoding(b, beyond, out, p, n, qname[..c])
    ensures r == out
  {
    var text := qname[..c];
    DecodingEnds(b, beyond, out, p, n, text);
    r := Result(Some(text), ROOM);
  }

  /** One round: a pointer is followed, a label copied. */
  method DecodeNext(buf: array<byte>, bufLen: nat, ghost b: seq<byte>, beyond: byte, ghost out: Outcome,
                    p: nat, ghost n: nat, qname: array<byte>, c: nat)
    returns (stop: Option<Outcome>, p': nat, c': nat)
    requires buf != qname && qname.Length == ROOM && p < bufLen == |b| && Holds(buf, b)
    requires c <= ROOM && buf[p] != 0 && n > 0 && Decoding(b, beyond, out, p, n, qname[..c])
    modifies qname
    ensures p' < bufLen && c' <= ROOM
    ensures if stop.Some? then stop.value == out else Decoding(b, beyond, out, p', n - 1, qname[..c'])
  {
    if buf[p] / 0x40 == 3 {
      c' := c;
      stop, p' := DecodePointer(buf, bufLen, b, beyond, out, p, n, qname[..c]);
    } else {
      var len := buf[p] as int;
      if p + 1 + len > bufLen - 1 {
        DecodingStops(b, beyond, out, p, n, qname[..c]);
        return Some(Failed), p, c;
      }
      stop, c' := DecodeLabel(buf, b, beyond, out, p, n, len, qname, c);
      p' := p + 1 + len;
    }
  }

  method DecodePointer(buf: array<byte>, bufLen: nat, ghost b: seq<byte>, beyond: byte, ghost out: Outcome,
                       p: nat, ghost n: nat, ghost done: seq<byte>)
    returns (stop: Option<Outcome>, p': nat)
    requires p < bufLen == |b| && Holds(buf, b) && n > 0 && buf[p] / 0x40 == 3
    requires Decoding(b, beyond, out, p, n, done)
    ensures p' < bufLen
    ensures if stop.Some? then stop.value == out else Decoding(b, beyond, out, p', n - 1, done)
  {
    DecodingPointer(b, beyond, out, p, n, done);
    var to := (buf[p] as int * 0x100 + (if p + 1 < bufLen then buf[p + 1] else beyond) as int) % 0x4000;
    assert to == PointerAt(b, beyond, p);
    if to == 0 || to - 1 > bufLen - 1 {
      return Some(Failed), p;
    }
    return None, to - 1;
  }

  lemma DecodingPointer(b: seq<byte>, beyond: byte, out: Outcome, p: nat, n: nat, done: seq<byte>)
    requires Decoding(b, beyond, out, p, n, done) && n > 0 && b[p] / 0x40 == 3
    ensures
      var to := PointerAt(b, beyond, p);
      if to == 0 || to > |b| then out == Failed
      else Decoding(b, beyond, out, to - 1, n - 1, done)
  {
  }

  /** A label that ends before the last octet of `b` is at position `p`. */
  ghost predicate AtLabel(b: seq<byte>, p: nat) {
    p < |b| && b[p] != 0 && b[p] / 0x40 != 3 && p + 1 + b[p] as int < |b|
  }

  ghost function LabelText(b: seq<byte>, p: nat): seq<byte>
    requires AtLabel(b, p)
  {
    b[p + 1..p + 1 + b[p] as int]
  }

  ghost function LabelEnd(b: seq<byte>, p: nat): nat
    requires AtLabel(b, p)
  {
    p + 1 + b[p] as int
  }

  method DecodeLabel(buf: array<byte>, ghost b: seq<byte>, beyond: byte, ghost out: Outcome,
                     p: nat, ghost n: nat, len: nat, qname: array<byte>, c: nat)
    returns (stop: Option<Outcome>, c': nat)
    requires buf != qname && qname.Length == ROOM && Holds(buf, b) && c <= ROOM && n > 0
    requires AtLabel(b, p) && len == b[p] as int && Decoding(b, beyond, out, p, n, qname[..c])
    modifies qname
    ensures c' <= ROOM
    ensures stop.Some? ==> stop.value == out
    ensures stop.None? ==> Decoding(b, beyond, out, p + 1 + len, n - 1, qname[..c'])
  {
    ghost var done := qname[..c];
    var r := CopyLabel(buf, b, p + 1, len, qname, c);
    if r.Whole? {
      var dot := buf[p + 1 + len] != 0;
      assert dot == (b[LabelEnd(b, p)] != 0);
      stop, c' := EndLabel(b, beyond, out, p, n, done, dot, qname, c + len);
    } else {
      LabelStops(b, beyond, out, p, n, done, r);
      stop, c' := Some(Stopped(r)), c;
    }
  }

  /** What a label not copied whole comes to. */
  function Stopped(r: Copied): Outcome {
    if r.Full? then Overrun else Failed
  }

  /** The label was copied; unless it is the last one, a dot follows. */
  method EndLabel(ghost b: seq<byte>, beyond: byte, ghost out: Outcome, ghost p: nat, ghost n: nat,
                  ghost done: seq<byte>, dot: bool, qname: array<byte>, c: nat)
    returns (stop: Option<Outcome>, c': nat)
    requires qname.Length == ROOM && c <= ROOM && n > 0 && AtLabel(b, p)
    requires Decoding(b, beyond, out, p, n, done)
    requires AllPrintable(LabelText(b, p)) && qname[..c] == done + LabelText(b, p) && dot == (b[LabelEnd(b, p)] != 0)
    modifies qname
    ensures c' <= ROOM
    ensures stop.Some? ==> stop.value == out
    ensures stop.None? ==> Decoding(b, beyond, out, LabelEnd(b, p), n - 1, qname[..c'])
  {
    ghost var t := qname[..c];
    var full;
    full, c' := PutDot(qname, c, dot);
    if full {
      LabelFull(b, beyond, out, p, n, done);
      stop := Some(Overrun);
    } else {
      LabelPut(b, beyond, out, p, n, done, t, qname[..c']);
      stop := None;
    }
  }

  /** The dot after a label, which may be a write past the buffer. */
  method PutDot(qname: array<byte>, c: nat, dot: bool) returns (full: bool, c': nat)
    requires c <= qname.Length
    modifies qname
    ensures full == (dot && c == qname.Length) && c' <= qname.Length
    ensures qname[..c'] == old(qname[..c]) + if dot && !full then [DOT] else []
  {
    full, c' := dot && c == qname.Length, c;
    if dot && !full {
      qname[c] := DOT;
      c' := c + 1;
    }
  }

  lemma LabelStops(b: seq<byte>, beyond: byte, out: Outcome, p: nat, n: nat, done: seq<byte>,
                   r: Copied)
    requires Decoding(b, beyond, out, p, n, done) && n > 0 && AtLabel(b, p)
    requires r == CopiedIs(LabelText(b, p), ROOM - |done|) && !r.Whole?
    ensures out == Stopped(r)
  {
    LabelOutcome(b, beyond, p, n, ROOM - |done|);
  }

  /** The label fills the buffer, and a dot is to follow. */
  lemma LabelFull(b: seq<byte>, beyond: byte, out: Outcome, p: nat, n: nat, done: seq<byte>)
    requires Decoding(b, beyond, out, p, n, done) && n > 0 && AtLabel(b, p) && AllPrintable(LabelText(b, p))
    requires b[LabelEnd(b, p)] != 0 && |done| + |LabelText(b, p)| == ROOM
    ensures out == Overrun
  {
    LabelIs(b, beyond, p);
    var w := LabelText(b, p) + DotAt(b, LabelEnd(b, p));
    assert |w| > ROOM - |done|;
  }

  lemma LabelPut(b: seq<byte>, beyond: byte, out: Outcome, p: nat, n: nat, done: seq<byte>,
                 t: seq<byte>, all: seq<byte>)
    requires Decoding(b, beyond, out, p, n, done) && n > 0 && AtLabel(b, p) && AllPrintable(LabelText(b, p))
    requires t == done + LabelText(b, p) && all == t + DotAt(b, LabelEnd(b, p)) && |all| <= ROOM
    ensures Decoding(b, beyond, out, LabelEnd(b, p), n - 1, all)
  {
    LabelIs(b, beyond, p);
    Regroup(done, LabelText(b, p), DotAt(b, LabelEnd(b, p)));
    DecodingLabel(b, beyond, out, p, n, done);
  }

  lemma LabelIs(b: seq<byte>, beyond: byte, p: nat)
    requires AtLabel(b, p) && AllPrintable(LabelText(b, p))
    ensures Look(b, beyond, p) == Label(LabelText(b, p), LabelEnd(b, p))
  {
  }

  /** What a label comes to that does not end well. */
  lemma LabelOutcome(b: seq<byte>, beyond: byte, p: nat, n: nat, room: nat)
    requires n > 0 && AtLabel(b, p)
    ensures
      var t := LabelText(b, p);
      && (Prefix(t) > room ==> Decode(b, beyond, p, n, room).Overrun?)
      && (Prefix(t) < |t| && Prefix(t) <= room ==> Decode(b, beyond, p, n, room).Failed?)
  {
    if AllPrintable(LabelText(b, p)) { LabelIs(b, beyond, p); }
  }
}
