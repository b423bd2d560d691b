/** Names in a packet: labels and compression pointers of section 4.1.4 of RFC 1035, and what
    the driver's decoder makes of them. */
module DnsNames {
  import opened Collections
  import opened Octets

  /** What stands at a position.  A pointer counts positions from 1. */
  datatype Step = Root | Bad | Label(text: seq<byte>, next: nat) | Jump(next: nat)

  predicate Printable(c: byte) { 32 < c < 127 }

  predicate AllPrintable(t: seq<byte>) { forall i :: 0 <= i < |t| ==> Printable(t[i]) }

  /** A pointer is two octets; `beyond` is the octet that follows the packet in memory, which
      is read for a pointer at the last position. */
  function PointerAt(b: seq<byte>, beyond: byte, p: nat): nat
    requires p < |b|
  {
    (b[p] as int * 0x100 + (if p + 1 < |b| then b[p + 1] else beyond) as int) % 0x4000
  }

  /** How the driver takes the octets at `p`: two high bits of the first one set mean a
      pointer, anything else the length of a label. */
  function Look(b: seq<byte>, beyond: byte, p: nat): (r: Step)
    requires p < |b|
    ensures (r.Label? || r.Jump?) ==> r.next < |b|
  {
    if b[p] == 0 then Root
    else if b[p] / 0x40 == 3 then
      var n := PointerAt(b, beyond, p);
      if n == 0 || n > |b| then Bad else Jump(n - 1)
    else
      var n := b[p] as int;
      if p + 1 + n > |b| - 1 then Bad
      else if AllPrintable(b[p + 1..p + 1 + n]) then Label(b[p + 1..p + 1 + n], p + 1 + n)
      else Bad
  }

  predicate Moves(s: Step) { s.Label? || s.Jump? }

  /** From position `p` the end of the name, or an error, is met in at most `n` moves. */
  predicate Ends(b: seq<byte>, beyond: byte, p: nat, n: nat)
    requires p < |b|
    decreases n
  {
    var s := Look(b, beyond, p);
    Moves(s) ==> n > 0 && Ends(b, beyond, s.next, n - 1)
  }

  lemma {:induction false} EndsMore(b: seq<byte>, beyond: byte, p: nat, n: nat, k: nat)
    requires p < |b| && n <= k && Ends(b, beyond, p, n)
    ensures Ends(b, beyond, p, k)
    decreases n
  {
    var s := Look(b, beyond, p);
    if Moves(s) {
      EndsMore(b, beyond, s.next, n - 1, k - 1);
    }
  }

  // ---------------------------------------------------------------- when decoding ends

  /** The positions met from `p`, which is `n` moves from the end and not fewer, are distinct. */
  lemma {:induction false} Trail(b: seq<byte>, beyond: byte, p: nat, n: nat) returns (seen: set<nat>)
    requires p < |b| && Ends(b, beyond, p, n) && (n > 0 ==> !Ends(b, beyond, p, n - 1))
    ensures |seen| == n + 1
    ensures forall q :: q in seen ==> q < |b| && Ends(b, beyond, q, n)
    decreases n
  {
    var s := Look(b, beyond, p);
    if n == 0 {
      seen := {p};
    } else {
      var rest := Trail(b, beyond, s.next, n - 1);
      assert p !in rest;
      forall q | q in rest
        ensures Ends(b, beyond, q, n)
      {
        EndsMore(b, beyond, q, n - 1, n);
      }
      seen := rest + {p};
    }
  }

  /** Decoding ends if and only if it does so before it has met more positions than the packet
      has. */
  lemma {:induction false} EndsInTime(b: seq<byte>, beyond: byte, p: nat, n: nat)
    requires p < |b| && Ends(b, beyond, p, n)
    ensures Ends(b, beyond, p, |b| - 1)
    decreases n
  {
    if n > 0 && Ends(b, beyond, p, n - 1) {
      EndsInTime(b, beyond, p, n - 1);
    } else {
      var seen := Trail(b, beyond, p, n);
      SubsetSize(seen, Below(|b|));
      EndsMore(b, beyond, p, n, |b| - 1);
    }
  }

  /** The position after `k` moves from `p`, if there are so many. */
  function After(b: seq<byte>, beyond: byte, p: nat, k: nat): (r: Option<nat>)
    requires p < |b|
    ensures r.Some? ==> r.value < |b|
    decreases k
  {
    var s := Look(b, beyond, p);
    if k == 0 then Some(p) else if Moves(s) then After(b, beyond, s.next, k - 1) else None
  }

  /** The walk from `p` comes back to a position. */
  ghost predicate Loops(b: seq<byte>, beyond: byte, p: nat)
    requires p < |b|
  {
    exists i, j :: 0 <= i < j && After(b, beyond, p, i).Some? && After(b, beyond, p, i) == After(b, beyond, p, j)
  }

  lemma {:induction false} AfterEnds(b: seq<byte>, beyond: byte, p: nat, k: nat, n: nat)
    requires p < |b| && After(b, beyond, p, k).Some?
    ensures Ends(b, beyond, p, n) ==> k <= n && Ends(b, beyond, After(b, beyond, p, k).value, n - k)
    decreases k
  {
    if k > 0 && Ends(b, beyond, p, n) {
      var next := Look(b, beyond, p).next;
      assert n > 0 && Ends(b, beyond, next, n - 1) && After(b, beyond, p, k) == After(b, beyond, next, k - 1);
      AfterEnds(b, beyond, next, k - 1, n - 1);
    }
  }

  /** From a position that the walk comes back to it never ends. */
  lemma {:induction false} RoundAndRound(b: seq<byte>, beyond: byte, q: nat, d: nat, n: nat)
    requires q < |b| && d > 0 && After(b, beyond, q, d) == Some(q)
    ensures !Ends(b, beyond, q, n)
    decreases n
  {
    AfterEnds(b, beyond, q, d, n);
    if n >= d {
      RoundAndRound(b, beyond, q, d, n - d);
    }
  }

  lemma {:induction false} AfterTwice(b: seq<byte>, beyond: byte, p: nat, i: nat, d: nat)
    requires p < |b| && After(b, beyond, p, i).Some?
    ensures After(b, beyond, p, i + d) == After(b, beyond, After(b, beyond, p, i).value, d)
    decreases i
  {
    if i > 0 {
      AfterTwice(b, beyond, Look(b, beyond, p).next, i - 1, d);
    }
  }

  lemma {:induction false} AfterMany(b: seq<byte>, beyond: byte, p: nat, k: nat)
    requires p < |b| && (k > 0 ==> !Ends(b, beyond, p, k - 1))
    ensures After(b, beyond, p, k).Some?
    decreases k
  {
    if k > 0 {
      AfterMany(b, beyond, Look(b, beyond, p).next, k - 1);
    }
  }

  lemma LoopsForEver(b: seq<byte>, beyond: byte, p: nat, n: nat)
    requires p < |b| && Loops(b, beyond, p)
    ensures !Ends(b, beyond, p, n)
  {
    var i, j :| 0 <= i < j && After(b, beyond, p, i).Some? && After(b, beyond, p, i) == After(b, beyond, p, j);
    AfterTwice(b, beyond, p, i, j - i);
    AfterEnds(b, beyond, p, i, n);
    if n >= i {
      RoundAndRound(b, beyond, After(b, beyond, p, i).value, j - i, n - i);
    }
  }

  lemma ComesBack(b: seq<byte>, beyond: byte, p: nat)
    requires p < |b| && !Ends(b, beyond, p, |b| - 1)
    ensures Loops(b, beyond, p)
  {
    forall k: nat | k <= |b|
      ensures After(b, beyond, p, k).Some?
    {
      if k > 0 && Ends(b, beyond, p, k - 1) {
        EndsMore(b, beyond, p, k - 1, |b| - 1);
      }
      AfterMany(b, beyond, p, k);
    }
    var s := seq(|b| + 1, k requires 0 <= k <= |b| => After(b, beyond, p, k).value);
    var i, j := Pigeonhole(s, |b|);
    assert s[i] == After(b, beyond, p, i).value && s[j] == After(b, beyond, p, j).value;
  }

  /** Decoding ends if and only if its walk does not come back to a position; if it does, it goes
      on for ever, whether the way back is by one pointer or several. */
  lemma EndsUnlessLoops(b: seq<byte>, beyond: byte, p: nat)
    requires p < |b|
    ensures Ends(b, beyond, p, |b| - 1) <==> !Loops(b, beyond, p)
    ensures Loops(b, beyond, p) ==> forall n: nat :: !Ends(b, beyond, p, n)
  {
    if Loops(b, beyond, p) {
      forall n: nat
        ensures !Ends(b, beyond, p, n)
      {
        LoopsForEver(b, beyond, p, n);
      }
    } else if !Ends(b, beyond, p, |b| - 1) {
      ComesBack(b, beyond, p);
    }
  }

  // ---------------------------------------------------------------- what is decoded

  /** The labels met from `p`; none if there is an error. */
  function Labels(b: seq<byte>, beyond: byte, p: nat, n: nat): Option<seq<seq<byte>>>
    requires p < |b| && Ends(b, beyond, p, n)
    decreases n
  {
    match Look(b, beyond, p)
    case Root => Some([])
    case Bad => None
    case Jump(next) => Labels(b, beyond, next, n - 1)
    case Label(t, next) =>
      var rest := Labels(b, beyond, next, n - 1);
      if rest.None? then None else Some([t] + rest.value)
  }

  /** What the decoder writes: after a label a dot, unless the next octet is the end. */
  function Decoded(b: seq<byte>, beyond: byte, p: nat, n: nat): Option<seq<byte>>
    requires p < |b| && Ends(b, beyond, p, n)
    decreases n
  {
    match Look(b, beyond, p)
    case Root => Some([])
    case Bad => None
    case Jump(next) => Decoded(b, beyond, next, n - 1)
    case Label(t, next) =>
      var rest := Decoded(b, beyond, next, n - 1);
      if rest.None? then None else Some(t + (if b[next] != 0 then [DOT] else []) + rest.value)
  }

  const DOT: byte := 46

  /** Labels with a dot between them. */
  function Dotted(s: seq<seq<byte>>): seq<byte> {
    if s == [] then [] else if |s| == 1 then s[0] else s[0] + [DOT] + Dotted(s[1..])
  }

  /** After the last label a pointer leads to the end of the name. */
  predicate EndsByPointer(b: seq<byte>, beyond: byte, p: nat, n: nat)
    requires p < |b| && Ends(b, beyond, p, n)
    decreases n
  {
    var s := Look(b, beyond, p);
    if s.Jump? then EndsByPointer(b, beyond, s.next, n - 1)
    else if s.Label? && Labels(b, beyond, s.next, n - 1) == Some([]) then b[s.next] != 0
    else if s.Label? then EndsByPointer(b, beyond, s.next, n - 1)
    else false
  }

  /** The decoder gives the dotted labels, with one dot more if the last label is followed by a
      pointer to the end of the name. */
  lemma {:induction false} DecodedIs(b: seq<byte>, beyond: byte, p: nat, n: nat)
    requires p < |b| && Ends(b, beyond, p, n)
    ensures
      var l := Labels(b, beyond, p, n);
      Decoded(b, beyond, p, n) ==
        if l.None? then None
        else Some(Dotted(l.value) + if EndsByPointer(b, beyond, p, n) then [DOT] else [])
    decreases n
  {
    var s := Look(b, beyond, p);
    assert Dotted([]) + [] == [];
    if Moves(s) {
      DecodedIs(b, beyond, s.next, n - 1);
      var l := Labels(b, beyond, s.next, n - 1);
      if s.Label? && l.Some? {
        var dot := if b[s.next] != 0 then [DOT] else [];
        if l.value == [] {
          NoLabels(b, beyond, s.next, n - 1);
          assert s.text + dot + [] == s.text + dot;
          assert Dotted([s.text]) == s.text;
          assert [s.text] + [] == [s.text];
        } else {
          NotRoot(b, beyond, s.next, n - 1);
          assert ([s.text] + l.value)[1..] == l.value;
          var more := if EndsByPointer(b, beyond, s.next, n - 1) then [DOT] else [];
          assert s.text + [DOT] + (Dotted(l.value) + more) == s.text + [DOT] + Dotted(l.value) + more;
        }
      }
    }
  }

  lemma {:induction false} NoLabels(b: seq<byte>, beyond: byte, p: nat, n: nat)
    requires p < |b| && Ends(b, beyond, p, n) && Labels(b, beyond, p, n) == Some([])
    ensures !EndsByPointer(b, beyond, p, n) && Decoded(b, beyond, p, n) == Some([])
    decreases n
  {
    var s := Look(b, beyond, p);
    if s.Jump? {
      NoLabels(b, beyond, s.next, n - 1);
    }
  }

  lemma NotRoot(b: seq<byte>, beyond: byte, p: nat, n: nat)
    requires p < |b| && Ends(b, beyond, p, n)
    requires Labels(b, beyond, p, n).Some? && Labels(b, beyond, p, n).value != []
    ensures b[p] != 0
  {
  }

  /** So the name is right if and only if its last label is not followed by a pointer. */
  lemma DecodedExactly(b: seq<byte>, beyond: byte, p: nat, n: nat)
    requires p < |b| && Ends(b, beyond, p, n) && Labels(b, beyond, p, n).Some?
    ensures Decoded(b, beyond, p, n) == Some(Dotted(Labels(b, beyond, p, n).value)) <==> !EndsByPointer(b, beyond, p, n)
  {
    DecodedIs(b, beyond, p, n);
    var d := Dotted(Labels(b, beyond, p, n).value);
    assert |d + [DOT]| != |d| && d + [] == d;
  }

  /** The characters of names: a label of one octet is accepted, and is the name, exactly if
      that is one of the 94 characters of ASCII that print, the space left out. */
  lemma OneLetter(c: byte, beyond: byte)
    ensures Ends([1, c, 0], beyond, 0, 1)
    ensures Decoded([1, c, 0], beyond, 0, 1) == if '!' as int <= c <= '~' as int then Some([c]) else None
  {
    var b: seq<byte> := [1, c, 0];
    assert b[1..2] == [c];
    if Printable(c) {
      assert Look(b, beyond, 0) == Label([c], 2);
      assert [c] + [] + [] == [c];
    } else {
      assert !Printable(b[1..2][0]);
      assert Look(b, beyond, 0) == Bad;
    }
  }

  // ---------------------------------------------------------------- the standard

  /** The labels of a name by section 4.1.4 of RFC 1035, with the packet's positions counted
      from 1: labels have at most 63 octets, and other values of the two high bits are
      reserved. */
  function Standard(b: seq<byte>, p: nat, n: nat): Option<seq<seq<byte>>>
    decreases n
  {
    if p >= |b| || n == 0 then None
    else if b[p] == 0 then Some([])
    else if b[p] >= 0xc0 then
      if p + 1 >= |b| then None
      else
        var to := (b[p] as int - 0xc0) * 0x100 + b[p + 1] as int;
        if to == 0 then None else Standard(b, to - 1, n - 1)
    else if b[p] < 0x40 && p + 1 + b[p] as int <= |b| then
      var rest := Standard(b, p + 1 + b[p] as int, n - 1);
      if rest.None? then None else Some([b[p + 1..p + 1 + b[p] as int]] + rest.value)
    else None
  }

  ghost predicate Readable(s: seq<seq<byte>>) {
    forall i :: 0 <= i < |s| ==> AllPrintable(s[i])
  }

  /** Every octet that the decoder takes for the start of a label or pointer from `p` on is one by
      the standard: no label of 64 octets or more, and no pointer cut by the end of the packet. */
  predicate Conforms(b: seq<byte>, beyond: byte, p: nat, n: nat)
    requires p < |b| && Ends(b, beyond, p, n)
    decreases n
  {
    var s := Look(b, beyond, p);
    && !(0x40 <= b[p] < 0xc0) && !(b[p] >= 0xc0 && p + 1 == |b|)
    && (Moves(s) ==> Conforms(b, beyond, s.next, n - 1))
  }

  /** On packets that conform the decoder finds the labels of the standard if it has some and
      all of them are printable, and an error if not. */
  lemma {:induction false} SameAsStandard(b: seq<byte>, beyond: byte, p: nat, n: nat, k: nat)
    requires p < |b| && n < k && Ends(b, beyond, p, n) && Conforms(b, beyond, p, n)
    ensures
      var l, s := Labels(b, beyond, p, n), Standard(b, p, k);
      && (l.Some? <==> s.Some? && Readable(s.value))
      && (l.Some? ==> l == s)
    decreases n
  {
    var s := Look(b, beyond, p);
    if b[p] >= 0xc0 {
      PointerIs(b, beyond, p);
      if Moves(s) {
        SameAsStandard(b, beyond, s.next, n - 1, k - 1);
      }
    } else if b[p] != 0 {
      SameLabel(b, beyond, p, n, k);
    }
  }

  lemma {:induction false} SameLabel(b: seq<byte>, beyond: byte, p: nat, n: nat, k: nat)
    requires p < |b| && n < k && Ends(b, beyond, p, n) && Conforms(b, beyond, p, n) && 0 < b[p] < 0x40
    ensures
      var l, s := Labels(b, beyond, p, n), Standard(b, p, k);
      && (l.Some? <==> s.Some? && Readable(s.value))
      && (l.Some? ==> l == s)
    decreases n, 0
  {
    var s, next := Look(b, beyond, p), p + 1 + b[p] as int;
    if next < |b| {
      var t, rest := b[p + 1..next], Standard(b, next, k - 1);
      if s.Label? {
        SameAsStandard(b, beyond, next, n - 1, k - 1);
      }
      if rest.Some? {
        ReadableFirst(t, rest.value);
      }
    }
  }

  /** A packet that does not conform has no expansion by the standard, however far it is
      followed; the decoder may accept it nevertheless. */
  lemma {:induction false} NotStandard(b: seq<byte>, beyond: byte, p: nat, n: nat, k: nat)
    requires p < |b| && Ends(b, beyond, p, n) && !Conforms(b, beyond, p, n)
    ensures Standard(b, p, k) == None
    decreases n
  {
    var s := Look(b, beyond, p);
    if k > 0 && Moves(s) && !(0x40 <= b[p] < 0xc0) && !(b[p] >= 0xc0 && p + 1 == |b|) {
      if b[p] >= 0xc0 {
        PointerIs(b, beyond, p);
      }
      NotStandard(b, beyond, s.next, n - 1, k - 1);
    }
  }

  /** For every name the standard expands, decoding ends. */
  lemma {:induction false} FollowsStandard(b: seq<byte>, beyond: byte, p: nat, k: nat)
    requires p < |b| && Standard(b, p, k).Some?
    ensures k > 0 && Ends(b, beyond, p, k - 1) && Conforms(b, beyond, p, k - 1)
    decreases k
  {
    if b[p] >= 0xc0 {
      PointerIs(b, beyond, p);
      FollowsStandard(b, beyond, Look(b, beyond, p).next, k - 1);
    } else if b[p] != 0 {
      FollowsStandard(b, beyond, p + 1 + b[p] as int, k - 1);
    }
  }

  lemma PointerIs(b: seq<byte>, beyond: byte, p: nat)
    requires p + 1 < |b| && b[p] >= 0xc0
    ensures PointerAt(b, beyond, p) == (b[p] as int - 0xc0) * 0x100 + b[p + 1] as int
  {
  }

  lemma ReadableFirst(t: seq<byte>, rest: seq<seq<byte>>)
    ensures Readable([t] + rest) <==> AllPrintable(t) && Readable(rest)
  {
    assert ([t] + rest)[0] == t;
    assert forall i :: 0 <= i < |rest| ==> ([t] + rest)[i + 1] == rest[i];
  }

  // ---------------------------------------------------------------- departures

  /** A dot too many: a label, then a pointer to the end of the name. */
  lemma DotTooMany(b: seq<byte>, beyond: byte)
    requires b == [1, 97, 0xc0, 5, 0]
    ensures Standard(b, 0, 3) == Some([[97]])
    ensures Ends(b, beyond, 0, 2) && Decoded(b, beyond, 0, 2) == Some([97, DOT])
  {
    assert b[1..2] == [97];
    assert Look(b, beyond, 4) == Root && Look(b, beyond, 2) == Jump(4) && Look(b, beyond, 0) == Label([97], 2);
    assert Ends(b, beyond, 4, 0) && Ends(b, beyond, 2, 1);
    assert Standard(b, 4, 1) == Some([]) && Standard(b, 2, 2) == Some([]);
    assert [[97]] + [] == [[97]];
    assert Decoded(b, beyond, 4, 0) == Some([]) && Decoded(b, beyond, 2, 1) == Some([]);
    assert [97] + [DOT] + [] == [97, DOT];
  }

  /** A label of 64 octets is accepted. */
  lemma LabelTooLong(b: seq<byte>, t: seq<byte>, beyond: byte, k: nat)
    requires |t| == 64 && AllPrintable(t) && b == [64] + t + [0]
    ensures Ends(b, beyond, 0, 1) && Labels(b, beyond, 0, 1) == Some([t]) && Standard(b, 0, k) == None
  {
    assert b[1..65] == t;
    assert Look(b, beyond, 65) == Root && Look(b, beyond, 0) == Label(t, 65);
    assert Ends(b, beyond, 65, 0) && Labels(b, beyond, 65, 0) == Some([]);
    assert [t] + [] == [t];
  }

  /** A pointer at the last octet is completed by the octet beyond the packet. */
  lemma PointerCut(b: seq<byte>, k: nat)
    requires b == [0, 0xc0]
    ensures Ends(b, 1, 1, 1) && Labels(b, 1, 1, 1) == Some([])
    ensures Ends(b, 9, 1, 0) && Labels(b, 9, 1, 0) == None
    ensures Standard(b, 1, k) == None
  {
    assert Look(b, 1, 0) == Root && Look(b, 1, 1) == Jump(0) && Look(b, 9, 1) == Bad;
    assert Ends(b, 1, 0, 0) && Labels(b, 1, 0, 0) == Some([]);
  }

  /** Two pointers to each other. */
  lemma PointersMeet(b: seq<byte>, beyond: byte, n: nat)
    requires b == [0xc0, 3, 0xc0, 1]
    ensures Loops(b, beyond, 0) && !Ends(b, beyond, 0, n)
  {
    assert Look(b, beyond, 0) == Jump(2) && Look(b, beyond, 2) == Jump(0);
    assert After(b, beyond, 0, 0) == Some(0);
    assert After(b, beyond, 2, 1) == After(b, beyond, 0, 0);
    assert After(b, beyond, 0, 2) == After(b, beyond, 2, 1);
    LoopsForEver(b, beyond, 0, n);
  }
}
