/** The trace ring that the firmware writes in shared memory, and the routine that copies
    new records from it into the local buffer. */
module TraceShared {
  import opened TraceText
  import opened TraceRing

  // ---------------------------------------------------------------- the shared ring

  /** A whole record starts at `p`. */
  ghost predicate RecordAt(d: seq<Word>, p: nat) {
    p < |d| && d[p] != LAST_ENTRY && p + EntrySize(d[p]) <= |d|
  }

  ghost function RecordOf(d: seq<Word>, p: nat): Record
    requires RecordAt(d, p)
  {
    d[p..p + EntrySize(d[p])]
  }

  /** Where the walk goes on from `p`: the end of the buffer and the end marker send it back
      to the start. */
  function Wrap(d: seq<Word>, p: nat): nat
    requires p <= |d|
  {
    if p == |d| || d[p] == LAST_ENTRY then 0 else p
  }

  /** Record `r` is at `p`. */
  ghost predicate Holds(d: seq<Word>, p: nat, r: Record) {
    RecordAt(d, p) && RecordOf(d, p) == r
  }

  /** Position `i` follows the one before. */
  ghost predicate Follows(d: seq<Word>, pos: seq<nat>, i: nat) {
    0 < i < |pos| && RecordAt(d, pos[i - 1]) && Wrap(d, pos[i - 1] + EntrySize(d[pos[i - 1]])) == pos[i]
  }

  /** The shared ring with, for specification, the log of all that the firmware ever traced,
      the number `first` of the oldest record still in the ring and the positions of the
      records from there on. */
  datatype Shared = Shared(d: seq<Word>, start: nat, end: nat, resetIdx: int,
                           log: seq<Record>, first: nat, pos: seq<nat>)
  {
    /** `pos` are the positions of the records from `start` to `end`, each following the
        one before, and the records there are the log from `first` on. */
    ghost predicate Good() {
      && first <= |log| && |pos| == |log| - first
      && (end >= |d| <==> pos == [])
      && (pos != [] ==> start <= |d| && Wrap(d, start) == pos[0] && pos[|pos| - 1] == end)
      && (forall i :: 0 <= i < |pos| ==> Holds(d, pos[i], log[first + i]))
      && (forall i :: 0 < i < |pos| ==> Follows(d, pos, i))
      && (forall i :: 0 <= i < |pos| - 1 ==> pos[i] != end)
    }

    /** Position of record number `k`. */
    ghost function Pos(k: nat): nat
      requires Good() && first <= k < |log|
    {
      pos[k - first]
    }

    /** Where the last record lies that the reader took, negative for none: a reset since makes
        it forget. */
    ghost function Last(l: LocalBuf): int
      reads l
    {
      if l.resetIdx == resetIdx then l.lastRead else -1
    }

    /** A reader that took the first `copied` records of the log, the last one at `last` with
        first word `value`, has missed none: the last one is still in place, or it took none
        and the oldest record comes next. */
    ghost predicate InStepAt(last: int, value: Word, copied: nat)
      requires Good()
    {
      if last >= 0 then first < copied <= |log| && last == Pos(copied - 1) && value == d[last] else copied == first
    }

    ghost predicate InStep(l: LocalBuf, copied: nat)
      requires Good()
      reads l
    {
      InStepAt(Last(l), l.lastReadValue, copied)
    }

    /** The walk is about to look at record number `k`, with its pointer at `ptr`. */
    ghost predicate Walking(k: nat, ptr: nat)
      requires Good()
    {
      first <= k < |log| && ptr <= |d| && Wrap(d, ptr) == Pos(k)
    }

    /** The reader, whatever it took, goes on at record number `k`; |log| stands for the end, if
        it takes itself for up to date. */
    ghost predicate GoesOn(last: int, value: Word, k: nat)
      requires Good()
    {
      && last < |d|
      && if end >= |d| || end == last then k == |log|
         else if last >= 0 && value == d[last] then
           last + EntrySize(value) <= |d| && Walking(k, last + EntrySize(value))
         else k == first
    }

    /** What lies at the position of record number `k`. */
    lemma Here(k: nat)
      requires Good() && first <= k < |log|
      ensures
        var p := Pos(k);
        RecordAt(d, p) && RecordOf(d, p) == log[k] && EntrySize(d[p]) == |log[k]| <= MAX_RECORD
    {
      assert Holds(d, pos[k - first], log[first + (k - first)]);
    }

    /** A reader that took record number `k` is in step. */
    lemma TookIt(k: nat, last: int, value: Word)
      requires Good() && first <= k < |log| && last == Pos(k) && last < |d| && value == d[last]
      ensures InStepAt(last, value, k + 1)
    {
    }

    lemma Newest(k: nat)
      requires Good() && first <= k < |log|
      ensures Pos(k) == end <==> k + 1 == |log|
    {
      assert k + 1 < |log| ==> pos[k - first] != end;
    }

    lemma Onward(k: nat)
      requires Good() && first <= k < |log| - 1
      ensures Pos(k) < |d| && Walking(k + 1, Pos(k) + EntrySize(d[Pos(k)]))
    {
      assert Follows(d, pos, k - first + 1) && pos[k - first + 1] == Pos(k + 1);
    }

    /** And what follows it. */
    lemma Next(k: nat)
      requires Good() && first <= k < |log|
      ensures
        var p := Pos(k);
        && p < |d| && (p == end <==> k + 1 == |log|)
        && (p != end ==> Walking(k + 1, p + EntrySize(d[p])))
    {
      Here(k);
      Newest(k);
      if k + 1 < |log| { Onward(k); }
    }

    /** A reader that has missed none goes on at the next record. */
    lemma NextInStep(last: int, value: Word, copied: nat)
      requires Good() && InStepAt(last, value, copied)
      ensures GoesOn(last, value, copied)
    {
      if last >= 0 { Next(copied - 1); }
    }

    /** No two records lie at the same place. */
    lemma {:induction false} Apart(i: nat, j: nat)
      requires Good() && i < j < |pos|
      ensures pos[i] != pos[j]
      decreases |pos| - j
    {
      if j + 1 == |pos| {
        assert pos[i] != end;
      } else {
        Apart(i + 1, j + 1);
        SameNext(i, j);
      }
    }

    lemma SameNext(i: nat, j: nat)
      requires Good() && i < j < |pos| - 1
      ensures pos[i] == pos[j] ==> pos[i + 1] == pos[j + 1]
    {
      assert Follows(d, pos, i + 1) && Follows(d, pos, j + 1);
    }

    lemma SameNumber(k: nat, k': nat)
      requires Good() && first <= k < |log| && first <= k' < |log| && Pos(k) == Pos(k')
      ensures k == k'
    {
      if k < k' { Apart(k - first, k' - first); } else if k' < k { Apart(k' - first, k - first); }
    }

    /** The last record that the reader took, of the `copied` it took, is in the ring no more. */
    ghost predicate Lost(last: int, value: Word, copied: nat) {
      0 <= last < |d| && last + EntrySize(value) <= |d| && copied <= first
    }

    /** Such a reader goes on at the oldest record if and only if the newest one does not lie
        where its last one lay, and the word there is another one or what would follow is the
        oldest record. */
    lemma LostBegins(last: int, value: Word, copied: nat, k: nat)
      requires Good() && pos != [] && Lost(last, value, copied) && GoesOn(last, value, k)
      ensures k == first <==> end != last && (value == d[last] ==> Wrap(d, last + EntrySize(value)) == Pos(first))
    {
      if value == d[last] && end != last && Wrap(d, last + EntrySize(value)) == Pos(first) {
        SameNumber(k, first);
      }
    }

    /** If a record of the ring, number `j`, lies where the last one lay, it goes on at the oldest
        one if and only if number `j` is not the newest and has another first word.  If not, it
        skips the records up to number `j`. */
    lemma LostAmong(last: int, value: Word, copied: nat, j: nat, k: nat)
      requires Good() && Lost(last, value, copied) && first <= j < |log| && Pos(j) == last
      ensures GoesOn(last, value, k) <==> k == if end == last || value == d[last] then j + 1 else first
    {
      Next(j);
      if GoesOn(last, value, k) && end != last && value == d[last] {
        SameNumber(k, j + 1);
      }
    }
  }

  // ---------------------------------------------------------------- aml_fw_trace_copy

  /** A ring that was reset since is read from its start. */
  method Rejoin(ghost s: Shared, l: LocalBuf, resetIdx: int)
    requires l.Valid() && resetIdx == s.resetIdx
    modifies l`resetIdx, l`lastRead
    ensures l.Valid() && l.resetIdx == s.resetIdx && l.lastRead == old(s.Last(l))
  {
    if l.resetIdx != resetIdx {
      l.resetIdx := resetIdx;
      l.lastRead := -1;
    }
  }

  /** Where the walk begins: after the record read last if its first word is still there, else
      at the oldest one. */
  method FirstPtr(ghost s: Shared, src: array<Word>, start: nat, l: LocalBuf, ghost k: nat) returns (ptr: nat)
    requires s.Good() && src[..] == s.d && start == s.start
    requires s.GoesOn(l.lastRead, l.lastReadValue, k) && s.end < |s.d| && s.end != l.lastRead
    ensures s.Walking(k, ptr)
  {
    if l.lastRead >= 0 && l.lastReadValue == src[l.lastRead] {
      ptr := l.lastRead + EntrySize(src[l.lastRead]);
    } else {
      ptr := start;
    }
  }

  /** One turn of the walk: the record that the pointer leads to is copied if it has room. */
  method CopyTurn(ghost s: Shared, src: array<Word>, end: nat, l: LocalBuf, ghost k: nat, at: nat)
    returns (ok: bool, going: bool, ptr: nat)
    requires s.Good() && src[..] == s.d && end == s.end && l.Valid() && l.data != src && s.Walking(k, at)
    modifies l, l.data
    ensures l.Valid() && l.resetIdx == old(l.resetIdx)
    ensures if ok then s.InStepAt(l.lastRead, l.lastReadValue, k + 1) && l.Contents() == old(l.Contents()) + [s.log[k]]
            else SameLast(l, old(l.lastRead), old(l.lastReadValue)) && l.Contents() == old(l.Contents())
                 && NoRoomFor(s, l, k)
    ensures going ==> ok && s.Walking(k + 1, ptr)
    ensures ok && !going ==> k + 1 == |s.log|
  {
    ptr := Find(s, src, l, k, at);
    ok := CopyFound(s, src, l, k, ptr);
    s.Next(k);
    going := ok && ptr != end;
    if going {
      ptr := ptr + EntrySize(src[ptr]);
    }
  }

  ghost predicate SameLast(l: LocalBuf, last: int, value: Word)
    reads l
  {
    l.lastRead == last && l.lastReadValue == value
  }

  /** The local buffer has no gap that takes record number `k`. */
  ghost predicate NoRoomFor(s: Shared, l: LocalBuf, k: nat)
    reads l
  {
    k < |s.log| && !Room(l.data.Length, l.read, l.write, l.nbEntries, |s.log[k]|)
  }

  /** Sends the pointer round if need be and looks at the size of the record there. */
  method Find(ghost s: Shared, src: array<Word>, l: LocalBuf, ghost k: nat, at: nat) returns (ptr: nat)
    requires s.Good() && src[..] == s.d && l.Valid() && s.Walking(k, at)
    ensures ptr == s.Pos(k)
  {
    s.Here(k);
    ptr := at;
    if ptr == src.Length || src[ptr] == LAST_ENTRY {
      ptr := 0;
    }
    var entrySize := EntrySize(src[ptr]);
    if ptr + entrySize > src.Length {
      assert false;
    } else if entrySize > l.data.Length {
      assert false;
    }
  }

  method CopyFound(ghost s: Shared, src: array<Word>, l: LocalBuf, ghost k: nat, ptr: nat) returns (ok: bool)
    requires s.Good() && src[..] == s.d && l.Valid() && l.data != src && s.first <= k < |s.log| && ptr == s.Pos(k)
    modifies l, l.data
    ensures l.Valid() && l.resetIdx == old(l.resetIdx)
    ensures if ok then s.InStepAt(l.lastRead, l.lastReadValue, k + 1) && l.Contents() == old(l.Contents()) + [s.log[k]]
            else SameLast(l, old(l.lastRead), old(l.lastReadValue)) && l.Contents() == old(l.Contents())
                 && NoRoomFor(s, l, k)
  {
    s.Here(k);
    var entrySize := EntrySize(src[ptr]);
    assert src[ptr] == s.d[ptr] && src[ptr..ptr + entrySize] == src[..][ptr..ptr + entrySize] == s.log[k];
    ok := l.CopyOne(src, ptr);
    if ok { s.TookIt(k, ptr, s.d[ptr]); }
  }

  /** Copied `n` records of the log from number `from` on; `last` and `value` are what the reader
      knew of its last record before. */
  ghost predicate Progress(s: Shared, l: LocalBuf, before: seq<Record>, from: nat, n: nat, last: int, value: Word)
    requires s.Good()
    reads l
  {
    && from + n <= |s.log| && l.Contents() == before + s.log[from..from + n]
    && if n == 0 then SameLast(l, last, value) else s.InStepAt(l.lastRead, l.lastReadValue, from + n)
  }

  /** For a reader that has missed none. */
  lemma ProgressTo(s: Shared, l: LocalBuf, before: seq<Record>, from: nat, n: nat, last: int, value: Word, to: nat)
    requires s.Good() && s.InStepAt(last, value, from) && l.resetIdx == s.resetIdx
    requires Progress(s, l, before, from, n, last, value) && to == from + n
    ensures to <= |s.log| && s.InStep(l, to) && l.Contents() == before + s.log[from..to]
  {
  }

  lemma TurnDone(s: Shared, l: LocalBuf, before: seq<Record>, from: nat, n: nat, last: int, value: Word,
                 had: seq<Record>, last1: int, value1: Word, k: nat, ok: bool, n': nat, going: bool, ptr: nat)
    requires s.Good() && k == from + n < |s.log| && had == before + s.log[from..k]
    requires n' == if ok then n + 1 else n
    requires if n == 0 then last1 == last && value1 == value else s.InStepAt(last1, value1, k)
    requires if ok then s.InStepAt(l.lastRead, l.lastReadValue, k + 1) && l.Contents() == had + [s.log[k]]
             else SameLast(l, last1, value1) && l.Contents() == had
    requires if going then ok && s.Walking(k + 1, ptr) else if ok then k + 1 == |s.log| else NoRoomFor(s, l, k)
    ensures Progress(s, l, before, from, n', last, value)
    ensures if going then n' == n + 1 && s.Walking(from + n', ptr)
            else n <= n' && (from + n' == |s.log| || NoRoomFor(s, l, from + n'))
  {
    if ok {
      assert s.log[from..k + 1] == s.log[from..k] + [s.log[k]];
    }
  }

  /** One turn of the walk, counting. */
  method WalkTurn(ghost s: Shared, src: array<Word>, end: nat, l: LocalBuf, ghost before: seq<Record>,
                  ghost from: nat, n: nat, ghost last: int, ghost value: Word, at: nat)
    returns (n': nat, going: bool, ptr: nat)
    requires s.Good() && src[..] == s.d && end == s.end && l.data != src && l.Valid()
    requires Progress(s, l, before, from, n, last, value) && s.Walking(from + n, at)
    modifies l, l.data
    ensures l.Valid() && l.resetIdx == old(l.resetIdx) && Progress(s, l, before, from, n', last, value)
    ensures if going then n' == n + 1 && s.Walking(from + n', ptr)
            else n <= n' && (from + n' == |s.log| || NoRoomFor(s, l, from + n'))
  {
    ghost var had, k, last1, value1 := l.Contents(), from + n, l.lastRead, l.lastReadValue;
    assert had == before + s.log[from..k];
    var ok;
    ok, going, ptr := CopyTurn(s, src, end, l, k, at);
    n' := if ok then n + 1 else n;
    TurnDone(s, l, before, from, n, last, value, had, last1, value1, k, ok, n', going, ptr);
  }

  /** The walk: copies records until the last one is copied or the next has no room.  The
      cases that a well-formed ring and a local buffer for the largest record rule out, a
      record past the end of the ring and one too large to copy, are the two false
      assertions of `Find`. */
  method Walk(ghost s: Shared, src: array<Word>, end: nat, l: LocalBuf, ghost from: nat, at: nat) returns (n: nat)
    requires s.Good() && src[..] == s.d && end == s.end && l.data != src && l.Valid() && s.Walking(from, at)
    modifies l, l.data
    ensures l.Valid() && l.resetIdx == old(l.resetIdx)
    ensures Progress(s, l, old(l.Contents()), from, n, old(l.lastRead), old(l.lastReadValue))
    ensures from + n == |s.log| || NoRoomFor(s, l, from + n)
  {
    n := 0;
    ghost var before, last, value := l.Contents(), l.lastRead, l.lastReadValue;
    var ptr, going := at, true;
    NothingYet(s, l, from);
    while going
      invariant l.Valid() && l.resetIdx == old(l.resetIdx) && src[..] == s.d
      invariant Progress(s, l, before, from, n, last, value)
      invariant if going then s.Walking(from + n, ptr) else from + n == |s.log| || NoRoomFor(s, l, from + n)
      decreases going, |s.log| - n
    {
      n, going, ptr := WalkTurn(s, src, end, l, before, from, n, last, value, ptr);
    }
  }

  lemma NothingYet(s: Shared, l: LocalBuf, from: nat)
    requires s.Good() && from <= |s.log|
    ensures Progress(s, l, l.Contents(), from, 0, l.lastRead, l.lastReadValue)
  {
    assert l.Contents() + s.log[from..from] == l.Contents();
  }

  /** Copies the records from the one at which the reader goes on, as far as there is room. */
  method Copy(ghost s: Shared, src: array<Word>, start: nat, end: nat, resetIdx: int, l: LocalBuf, ghost k: nat)
    returns (n: nat)
    requires s.Good() && src[..] == s.d && start == s.start && end == s.end && resetIdx == s.resetIdx
    requires l.Valid() && l.data != src && s.GoesOn(s.Last(l), l.lastReadValue, k)
    modifies l, l.data
    ensures l.Valid() && l.resetIdx == s.resetIdx
    ensures Progress(s, l, old(l.Contents()), k, n, old(s.Last(l)), old(l.lastReadValue))
    ensures k + n == |s.log| || NoRoomFor(s, l, k + n)
  {
    Rejoin(s, l, resetIdx);
    n := CopyFrom(s, src, start, end, l, k);
  }

  method CopyFrom(ghost s: Shared, src: array<Word>, start: nat, end: nat, l: LocalBuf, ghost k: nat) returns (n: nat)
    requires s.Good() && src[..] == s.d && start == s.start && end == s.end
    requires l.Valid() && l.data != src && s.GoesOn(l.lastRead, l.lastReadValue, k)
    modifies l, l.data
    ensures l.Valid() && l.resetIdx == old(l.resetIdx)
    ensures Progress(s, l, old(l.Contents()), k, n, old(l.lastRead), old(l.lastReadValue))
    ensures k + n == |s.log| || NoRoomFor(s, l, k + n)
  {
    if end >= src.Length || end == l.lastRead {
      NothingYet(s, l, k);
      return 0;
    }
    var ptr := FirstPtr(s, src, start, l, k);
    n := Walk(s, src, end, l, k, ptr);
  }

  // ---------------------------------------------------------------- readers that are lost

  /** A record without parameters: `id` is part of its first word. */
  function Plain(id: Word, n: Word): (r: Record)
    requires id < 0x100
    ensures IsRecord(r) && |r| == 4 && r[0] == id
  {
    [id, 0, 0, n]
  }

  /** A ring for two of these records. */
  function Ring0(): Shared {
    var r := Plain(7, 0);
    Shared(r + [0, 0, 0, 0], 0, 0, 0, [r], 0, [0])
  }

  /** Two more were traced: the newest lies where the oldest lay. */
  function SamePlace(): Shared {
    var r, x, y := Plain(7, 0), Plain(8, 1), Plain(9, 2);
    Shared(y + x, 4, 0, 0, [r, x, y], 1, [4, 0])
  }

  /** Three more were traced, with the same first word. */
  function SameWord(): Shared {
    var r, x, y, z := Plain(7, 0), Plain(7, 1), Plain(7, 2), Plain(7, 3);
    Shared(y + z, 0, 4, 0, [r, x, y, z], 2, [0, 4])
  }

  /** One more was traced, and the oldest dropped, but its words are there still. */
  function StillThere(): Shared {
    var r, x := Plain(7, 0), Plain(8, 1);
    Shared(r + x, 4, 4, 0, [r, x], 1, [4])
  }

  lemma RingsGood()
    ensures Ring0().Good() && SamePlace().Good() && SameWord().Good() && StillThere().Good()
  {
    Ring0Good();
    SamePlaceGood();
    assert SameWord().d[0..4] == Plain(7, 2) && SameWord().d[4..8] == Plain(7, 3);
    assert StillThere().d[4..8] == Plain(8, 1);
  }

  lemma Ring0Good()
    ensures Ring0().Good()
  {
    assert Ring0().d[0..4] == Plain(7, 0);
  }

  lemma SamePlaceGood()
    ensures SamePlace().Good()
  {
    assert SamePlace().d[0..4] == Plain(9, 2) && SamePlace().d[4..8] == Plain(8, 1);
  }

  /** A reader of that ring's only record is lost in each of the others.  In the first it copies
      neither of the two records, in the second only the newer one; in the third it goes on
      rightly, though the word is the same. */
  lemma LostReaders()
    ensures Ring0().Good() && SamePlace().Good() && SameWord().Good() && StillThere().Good()
    ensures SamePlace().Lost(0, 7, 1) && SamePlace().GoesOn(0, 7, 3)
    ensures SameWord().Lost(0, 7, 1) && SameWord().GoesOn(0, 7, 3)
    ensures StillThere().Lost(0, 7, 1) && StillThere().GoesOn(0, 7, 1)
    ensures StillThere().first == 1 && StillThere().d[0] == 7
  {
    RingsGood();
  }

  lemma EmptyRoom(l: LocalBuf, n: nat)
    requires l.Valid() && l.Contents() == [] && n <= MAX_RECORD
    ensures Room(l.data.Length, l.read, l.write, l.nbEntries, n)
  {
  }

  method Fill(src: array<Word>, d: seq<Word>)
    requires src.Length == |d|
    modifies src
    ensures src[..] == d
  {
    forall i | 0 <= i < |d| {
      src[i] := d[i];
    }
  }

  /** A reader takes the record of the ring and hands out its text. */
  method TakeFirst() returns (src: array<Word>, l: LocalBuf, out: string)
    ensures fresh(src) && fresh(l) && fresh(l.data) && l.data != src && src.Length == 8 && l.Valid()
    ensures l.Contents() == [] && l.lastRead == 0 && l.lastReadValue == 7 && l.resetIdx == 0
    ensures out == TextAll([Plain(7, 0)])
  {
    Ring0Good();
    ghost var s := Ring0();
    src := new Word[8];
    Fill(src, [7, 0, 0, 0, 0, 0, 0, 0]);
    l := new LocalBuf(MAX_RECORD);
    EmptyRoom(l, 4);
    var n := Copy(s, src, 0, 0, 0, l, 0);
    assert l.Contents() == [Plain(7, 0)];
    out := TakeAll(l, [Plain(7, 0)]);
  }

  method TakeAll(l: LocalBuf, ghost held: seq<Record>) returns (out: string)
    requires l.Valid() && l.Contents() == held && |held| == 1
    modifies l
    ensures l.Valid() && l.Contents() == [] && Records(held) && out == TextAll(held)
    ensures l.lastRead == old(l.lastRead) && l.lastReadValue == old(l.lastReadValue) && l.resetIdx == old(l.resetIdx)
  {
    ghost var taken;
    out, taken := l.ReadLocal(MAX_TEXT);
    AllTaken(held, taken, out, l.Contents());
  }

  /** A single record is not left unread. */
  lemma AllTaken(held: seq<Record>, taken: nat, out: string, rest: seq<Record>)
    requires |held| == 1 && Records(held) && taken <= 1 && rest == held[taken..] && out == TextAll(held[..taken])
    requires rest != [] ==> |Text(rest[0])| > MAX_TEXT - |out|
    ensures rest == [] && out == TextAll(held)
  {
    TextLength(held[0]);
    assert held[..0] == [] && held[..1] == held;
    assert Texts([]) == [];
  }

  /** The newest record lies where the last one lay: none is copied. */
  method StaysBehind() returns (l: LocalBuf, out: string, n: nat)
    ensures SamePlace().Good() && |SamePlace().log| == 3 && SamePlace().first == 1
    ensures out == TextAll([SamePlace().log[0]]) && n == 0 && l.Valid() && l.Contents() == []
  {
    LostReaders();
    var src;
    src, l, out := TakeFirst();
    Fill(src, [9, 0, 0, 2, 8, 0, 0, 1]);
    n := Copy(SamePlace(), src, 4, 0, 0, l, 3);
  }

  /** The one record left is copied to an empty buffer. */
  method CopyNewest(ghost s: Shared, src: array<Word>, start: nat, end: nat, l: LocalBuf, ghost k: nat) returns (n: nat)
    requires s.Good() && src[..] == s.d && start == s.start && end == s.end && l.resetIdx == s.resetIdx
    requires l.Valid() && l.data != src && s.GoesOn(l.lastRead, l.lastReadValue, k)
    requires l.Contents() == [] && s.first <= k && k + 1 == |s.log|
    modifies l, l.data
    ensures n == 1 && l.Valid() && l.Contents() == [s.log[k]]
  {
    s.Here(k);
    EmptyRoom(l, |s.log[k]|);
    n := Copy(s, src, start, end, l.resetIdx, l, k);
    assert [] + s.log[k..k + 1] == [s.log[k]];
  }

  /** Another record with the same first word lies there: it is skipped. */
  method SkipsOne() returns (l: LocalBuf, out: string, n: nat)
    ensures SameWord().Good() && |SameWord().log| == 4 && SameWord().first == 2
    ensures out == TextAll([SameWord().log[0]]) && n == 1 && l.Valid() && l.Contents() == [SameWord().log[3]]
  {
    LostReaders();
    var src;
    src, l, out := TakeFirst();
    Fill(src, [7, 0, 0, 2, 7, 0, 0, 3]);
    n := CopyNewest(SameWord(), src, 0, 4, l, 3);
  }
}
