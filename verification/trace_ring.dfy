/** The local trace buffer: a ring of variable-length records with an end marker, as a
    queue of records. */
module TraceRing {
  import opened TraceText

  // ---------------------------------------------------------------- layout

  /** The records `rs` lie one after the other from position `p`. */
  ghost predicate At(d: seq<Word>, p: nat, rs: seq<Record>) {
    p + |Concat(rs)| <= |d| && d[p..p + |Concat(rs)|] == Concat(rs)
  }

  /** The unread records are `hi`, from the read position up, followed by `lo`, from the
      start of the buffer.  Once the writer has gone round, the words above `hi` are given
      up, with a marker as the first of them, and only the gap up to `read` is free. */
  ghost predicate Ring(d: seq<Word>, read: nat, write: nat, free: nat, hi: seq<Record>, lo: seq<Record>, round: bool) {
    && read < |d| && write < |d|
    && (hi == [] ==> read == 0 && !round)
    && Records(hi) && Records(lo) && At(d, read, hi) && At(d, 0, lo)
    && var top := read + |Concat(hi)|;
       if round then (top < |d| ==> d[top] == LAST_ENTRY) && write == |Concat(lo)| <= read && free == read - write
       else lo == [] && write == top && free == |d| - top + read
  }

  /** Whether a free gap of `n` words exists: between writer and reader once the writer has
      gone round, else above the writer or below the reader. */
  predicate Room(size: nat, read: nat, write: nat, nb: nat, n: nat) {
    if nb > 0 && write <= read then read - write >= n else size - write >= n || read >= n
  }

  /** `d` with the record `r` written at `p`. */
  ghost predicate Put(d: seq<Word>, p: nat, r: seq<Word>, d': seq<Word>) {
    && p + |r| <= |d| == |d'|
    && d'[p..p + |r|] == r
    && d'[..p] == d[..p] && d'[p + |r|..] == d[p + |r|..]
  }

  lemma ConcatAppend(rs: seq<Record>, r: Record)
    ensures Concat(rs + [r]) == Concat(rs) + r
  {
    ConcatSplit<Word>(rs, [r]);
    assert Concat<Word>([r][1..]) == [];
    assert Concat<Word>([r]) == r;
  }

  lemma AtAppend(d: seq<Word>, p: nat, rs: seq<Record>, r: Record, d': seq<Word>)
    requires At(d, p, rs) && Put(d, p + |Concat(rs)|, r, d')
    ensures At(d', p, rs + [r])
  {
    ConcatAppend(rs, r);
    var top := p + |Concat(rs)|;
    assert d'[p..top] == d'[..top][p..] == d[p..top];
    assert d'[p..top + |r|] == d'[p..top] + d'[top..top + |r|];
  }

  lemma AtKept(d: seq<Word>, p: nat, rs: seq<Record>, d': seq<Word>)
    requires At(d, p, rs) && |d'| == |d|
    requires forall i :: p <= i < p + |Concat(rs)| ==> d'[i] == d[i]
    ensures At(d', p, rs)
  {
  }

  lemma PutElsewhere(d: seq<Word>, p: nat, r: seq<Word>, d': seq<Word>)
    requires Put(d, p, r, d')
    ensures forall i :: 0 <= i < |d| && !(p <= i < p + |r|) ==> d'[i] == d[i]
  {
    forall i | 0 <= i < |d| && !(p <= i < p + |r|)
      ensures d'[i] == d[i]
    {
      if i < p {
        assert d'[..p][i] == d[..p][i];
      } else {
        assert d'[p + |r|..][i - p - |r|] == d[p + |r|..][i - p - |r|];
      }
    }
  }

  // ---------------------------------------------------------------- appending

  /** Above the last record, the writer not having gone round. */
  lemma AppendAbove(d: seq<Word>, read: nat, write: nat, free: nat, hi: seq<Record>, r: Record, d': seq<Word>)
    requires Ring(d, read, write, free, hi, [], false) && IsRecord(r) && Put(d, write, r, d')
    ensures free >= |r|
    ensures
      if write + |r| == |d| then Ring(d', read, 0, free - |r|, hi + [r], [], true)
      else Ring(d', read, write + |r|, free - |r|, hi + [r], [], false)
  {
    AtAppend(d, read, hi, r, d');
    ConcatAppend(hi, r);
  }

  /** Below the reader, the writer having gone round. */
  lemma AppendBelow(d: seq<Word>, read: nat, write: nat, free: nat, hi: seq<Record>, lo: seq<Record>, r: Record,
                    d': seq<Word>)
    requires Ring(d, read, write, free, hi, lo, true) && IsRecord(r) && Put(d, write, r, d') && free >= |r|
    ensures Ring(d', read, write + |r|, free - |r|, hi, lo + [r], true)
  {
    PutElsewhere(d, write, r, d');
    AtKept(d, read, hi, d');
    AtAppend(d, 0, lo, r, d');
    ConcatAppend(lo, r);
  }

  /** Wherever the writer is. */
  lemma AppendHere(d: seq<Word>, read: nat, write: nat, free: nat, hi: seq<Record>, lo: seq<Record>, round: bool,
                   r: Record, d': seq<Word>, write': nat)
    requires Ring(d, read, write, free, hi, lo, round) && IsRecord(r) && Put(d, write, r, d')
    requires (round ==> free >= |r|) && write' == if write + |r| >= |d| then 0 else write + |r|
    ensures free >= |r|
    ensures if round then Ring(d', read, write', free - |r|, hi, lo + [r], true)
            else Ring(d', read, write', free - |r|, hi + [r], lo, write + |r| == |d|)
  {
    if round {
      AppendBelow(d, read, write, free, hi, lo, r, d');
    } else {
      AppendAbove(d, read, write, free, hi, r, d');
    }
  }

  /** The writer goes round, leaving a marker. */
  lemma AppendRound(d: seq<Word>, read: nat, write: nat, free: nat, hi: seq<Record>, r: Record, d': seq<Word>)
    requires Ring(d, read, write, free, hi, [], false) && hi != [] && read >= |r|
    requires IsRecord(r) && Put(d[write := LAST_ENTRY], 0, r, d')
    ensures free >= |d| - write + |r|
    ensures Ring(d', read, |r|, free - (|d| - write) - |r|, hi, [r], true)
  {
    var d1 := d[write := LAST_ENTRY];
    PutElsewhere(d1, 0, r, d');
    AtKept(d, read, hi, d1);
    AtKept(d1, read, hi, d');
    AtAppend(d1, 0, [], r, d');
    ConcatAppend([], r);
    assert [] + [r] == [r];
  }

  /** Writing one more word. */
  lemma PutMore(d: seq<Word>, p: nat, r: seq<Word>, d': seq<Word>, w: Word)
    requires Put(d, p, r, d') && p + |r| < |d|
    ensures Put(d, p, r + [w], d'[p + |r| := w])
  {
    var e := d'[p + |r| := w];
    assert e[..p] == d'[..p];
    assert e[p..p + |r| + 1] == d'[p..p + |r|] + [w];
    assert e[p + |r| + 1..] == d'[p + |r|..][1..] && d[p + |r| + 1..] == d[p + |r|..][1..];
  }

  /** Free words above the writer are at most those counted free. */
  lemma Spare(d: seq<Word>, read: nat, write: nat, free: nat, hi: seq<Record>, lo: seq<Record>)
    requires Ring(d, read, write, free, hi, lo, false)
    ensures free >= |d| - write
  {
  }

  // ---------------------------------------------------------------- taking

  /** The first unread record is where the reader is. */
  lemma Front(d: seq<Word>, p: nat, hi: seq<Record>)
    requires Records(hi) && At(d, p, hi) && hi != []
    ensures
      var r := hi[0];
      && p + |r| <= |d| && d[p..p + |r|] == r && d[p] == r[0]
      && At(d, p + |r|, hi[1..]) && |Concat(hi)| == |r| + |Concat(hi[1..])|
  {
    var r := hi[0];
    assert Concat<Word>(hi) == r + Concat<Word>(hi[1..]);
    assert d[p..p + |r|] == d[p..p + |Concat(hi)|][..|r|];
    assert d[p + |r|..p + |Concat(hi)|] == d[p..p + |Concat(hi)|][|r|..];
    assert d[p] == d[p..p + |r|][0];
  }

  /** Where the reader goes from the end of a record. */
  function Skip(d: seq<Word>, p: nat): nat {
    if p >= |d| || d[p] == LAST_ENTRY then 0 else p
  }

  /** Words free once the reader went on from `p`: a marker there gives back what it took. */
  function Regained(d: seq<Word>, p: nat, free: nat): nat {
    if p < |d| && d[p] == LAST_ENTRY then free + (|d| - p) else free
  }

  /** Reading a record that another one follows directly. */
  lemma TakeOne(d: seq<Word>, read: nat, write: nat, free: nat, hi: seq<Record>, lo: seq<Record>, round: bool)
    requires Ring(d, read, write, free, hi, lo, round) && |hi| > 1
    ensures
      var p := read + |hi[0]|;
      && Skip(d, p) == p && Regained(d, p, free + |hi[0]|) == free + |hi[0]|
      && Ring(d, p, write, free + |hi[0]|, hi[1..], lo, round)
  {
    Front(d, read, hi);
    Front(d, read + |hi[0]|, hi[1..]);
  }

  /** Reading the last record above: the reader goes round too, past the marker if the
      record does not end the buffer, and what was given up is free again. */
  lemma TakeRound(d: seq<Word>, read: nat, write: nat, free: nat, hi: seq<Record>, lo: seq<Record>, round: bool)
    requires Ring(d, read, write, free, hi, lo, round) && |hi| == 1 && lo != []
    ensures
      var p := read + |hi[0]|;
      && Skip(d, p) == 0
      && Ring(d, 0, write, Regained(d, p, free + |hi[0]|), lo, [], false)
  {
    assert hi[1..] == [] && |Concat<Word>(hi)| == |hi[0]|;
    assert |Concat<Word>(lo)| > 0 by { Front(d, 0, lo); }
  }

  /** What is unread after one record was read, unless that was the last. */
  ghost function Upper(hi: seq<Record>, lo: seq<Record>): seq<Record>
    requires hi != []
  {
    if |hi| > 1 then hi[1..] else lo
  }

  ghost function Lower(hi: seq<Record>, lo: seq<Record>): seq<Record> {
    if |hi| > 1 then lo else []
  }

  lemma Taken(d: seq<Word>, read: nat, write: nat, free: nat, hi: seq<Record>, lo: seq<Record>, round: bool)
    requires Ring(d, read, write, free, hi, lo, round) && |hi| + |lo| > 1
    ensures hi != []
    ensures
      var p := read + |hi[0]|;
      Ring(d, Skip(d, p), write, Regained(d, p, free + |hi[0]|), Upper(hi, lo), Lower(hi, lo), |hi| > 1 && round)
  {
    if |hi| > 1 {
      TakeOne(d, read, write, free, hi, lo, round);
    } else {
      TakeRound(d, read, write, free, hi, lo, round);
    }
  }

  lemma TakenRest(hi: seq<Record>, lo: seq<Record>)
    requires hi != []
    ensures Upper(hi, lo) + Lower(hi, lo) == (hi + lo)[1..]
  {
    assert |hi| == 1 ==> lo + [] == (hi + lo)[1..];
  }

  /** Records are at least four words long, so few fit. */
  lemma {:induction false} FewRecords(rs: seq<Record>)
    requires Records(rs)
    ensures 4 * |rs| <= |Concat(rs)|
  {
    if rs != [] {
      FewRecords(rs[1..]);
      assert Concat<Word>(rs) == rs[0] + Concat<Word>(rs[1..]);
    }
  }

  lemma CountFits(d: seq<Word>, read: nat, write: nat, free: nat, hi: seq<Record>, lo: seq<Record>, round: bool)
    requires Ring(d, read, write, free, hi, lo, round)
    ensures 4 * (|hi| + |lo|) <= |d|
    ensures (hi != [] && write <= read) == round
    ensures hi == [] ==> lo == []
  {
    FewRecords(hi);
    FewRecords(lo);
  }

  // ---------------------------------------------------------------- decoding

  /** A reader that starts at `p` and goes by the code's own rules sees `rs`. */
  ghost predicate Decodes(d: seq<Word>, p: nat, rs: seq<Record>)
    decreases |rs|
  {
    rs != [] ==>
      && p < |d| && p + EntrySize(d[p]) <= |d| && d[p..p + EntrySize(d[p])] == rs[0]
      && Decodes(d, Skip(d, p + EntrySize(d[p])), rs[1..])
  }

  /** Records that lie one after the other are decoded one after the other. */
  lemma {:induction false} DecodeRun(d: seq<Word>, p: nat, hi: seq<Record>, lo: seq<Record>)
    requires Records(hi) && At(d, p, hi) && hi != [] && Decodes(d, Skip(d, p + |Concat(hi)|), lo)
    ensures Decodes(d, p, hi + lo)
    decreases |hi|
  {
    if |hi| > 1 {
      FrontNext(d, p, hi);
      DecodeRun(d, p + |hi[0]|, hi[1..], lo);
      DecodeStep(d, p, hi, lo, hi[1..] + lo);
    } else {
      FrontLast(d, p, hi);
      DecodeStep(d, p, hi, lo, lo);
    }
  }

  lemma FrontLast(d: seq<Word>, p: nat, hi: seq<Record>)
    requires |hi| == 1
    ensures |Concat<Word>(hi)| == |hi[0]|
  {
    assert Concat<Word>(hi[1..]) == [];
  }

  /** A record that another one follows directly: the reader goes straight on. */
  lemma FrontNext(d: seq<Word>, p: nat, hi: seq<Record>)
    requires Records(hi) && At(d, p, hi) && |hi| > 1
    ensures
      var q := p + |hi[0]|;
      && Records(hi[1..]) && At(d, q, hi[1..]) && Skip(d, q) == q
      && q + |Concat(hi[1..])| == p + |Concat(hi)|
  {
    Front(d, p, hi);
    Front(d, p + |hi[0]|, hi[1..]);
  }

  lemma DecodeStep(d: seq<Word>, p: nat, hi: seq<Record>, lo: seq<Record>, rest: seq<Record>)
    requires Records(hi) && At(d, p, hi) && hi != []
    requires rest == hi[1..] + lo && Decodes(d, Skip(d, p + |hi[0]|), rest)
    ensures Decodes(d, p, hi + lo)
  {
    Front(d, p, hi);
    var r := hi[0];
    assert IsRecord(r) && EntrySize(d[p]) == |r|;
    DecodesIs(d, p, hi + lo, rest);
  }

  lemma DecodesIs(d: seq<Word>, p: nat, rs: seq<Record>, rest: seq<Record>)
    requires rs != [] && rs[1..] == rest && p < |d| && p + EntrySize(d[p]) <= |d|
    requires d[p..p + EntrySize(d[p])] == rs[0] && Decodes(d, Skip(d, p + EntrySize(d[p])), rest)
    ensures Decodes(d, p, rs)
  {
  }

  /** The queue of unread records is what the words decode to from the read position. */
  lemma DecodeRing(d: seq<Word>, read: nat, write: nat, free: nat, hi: seq<Record>, lo: seq<Record>, round: bool)
    requires Ring(d, read, write, free, hi, lo, round)
    ensures Decodes(d, read, hi + lo)
  {
    if hi != [] {
      if lo != [] {
        DecodeRun(d, 0, lo, []);
        assert lo + [] == lo;
      }
      DecodeRun(d, read, hi, lo);
    }
  }

  // ---------------------------------------------------------------- the buffer

  const MAX_SIZE := 0x3_ffff

  class LocalBuf {
    const data: array<Word>
    var read: nat
    var write: nat
    var nbEntries: nat
    var freeSpace: nat
    var lastRead: int          // position in the shared buffer, negative for none
    var lastReadValue: Word
    var resetIdx: int
    ghost var hi: seq<Record>
    ghost var lo: seq<Record>
    ghost var round: bool

    ghost predicate Valid()
      reads this, data
    {
      && MAX_RECORD <= data.Length <= MAX_SIZE
      && nbEntries == |hi| + |lo|
      && Ring(data[..], read, write, freeSpace, hi, lo, round)
    }

    /** The records copied in and not read yet, oldest first. */
    ghost function Contents(): seq<Record>
      reads this
    {
      hi + lo
    }

    /** The entry counter has 16 bits; the buffer is too small for more entries. */
    lemma CounterFits()
      requires Valid()
      ensures nbEntries < 0x1_0000
    {
      CountFits(data[..], read, write, freeSpace, hi, lo, round);
    }

    /** The queue of unread records is what the buffer decodes to. */
    lemma DecodesToContents()
      requires Valid()
      ensures |Contents()| == nbEntries && Decodes(data[..], read, Contents())
    {
      DecodeRing(data[..], read, write, freeSpace, hi, lo, round);
    }

    /** aml_fw_trace_alloc_local */
    constructor (size: nat)
      requires MAX_RECORD <= size <= MAX_SIZE
      ensures Valid() && fresh(data) && data.Length == size && Contents() == []
      ensures lastRead < 0 && resetIdx == 0
    {
      data := new Word[size];
      read, write, nbEntries, freeSpace := 0, 0, 0, size;
      lastRead, lastReadValue, resetIdx := -1, 0, 0;
      hi, lo, round := [], [], false;
    }

    /** aml_fw_trace_reset_local */
    method ResetLocal()
      requires MAX_RECORD <= data.Length <= MAX_SIZE
      modifies this
      ensures Valid() && Contents() == [] && lastRead < 0 && resetIdx == 0
    {
      read, write, nbEntries, freeSpace := 0, 0, 0, data.Length;
      lastRead, resetIdx := -1, 0;
      hi, lo, round := [], [], false;
    }

    /** aml_fw_trace_copy_entry: copies words and moves the writer. */
    method CopyEntry(src: array<Word>, at: nat, size: nat)
      requires src != data && 0 < size && at + size <= src.Length && write + size <= data.Length && size <= freeSpace
      modifies this`write, this`freeSpace, this`lastRead, this`lastReadValue, this`nbEntries, data
      ensures Put(old(data[..]), old(write), src[at..at + size], data[..])
      ensures write == if old(write) + size >= data.Length then 0 else old(write) + size
      ensures freeSpace == old(freeSpace) - size && nbEntries == old(nbEntries) + 1
      ensures lastRead == at && lastReadValue == src[at]
    {
      ghost var before := data[..];
      var w := write;
      var r := at;
      for i := 0 to size
        invariant w == write + i && r == at + i
        invariant Put(before, write, src[at..r], data[..])
        modifies data
      {
        PutMore(before, write, src[at..r], data[..], src[r]);
        data[w] := src[r];
        w, r := w + 1, r + 1;
        assert src[at..r] == src[at..r - 1] + [src[r - 1]];
      }
      write := if w >= data.Length then 0 else w;
      freeSpace := freeSpace - size;
      lastRead := at;
      lastReadValue := src[at];
      nbEntries := nbEntries + 1;
    }

    /** Copies a record to the write position, where a gap takes it. */
    method CopyHere(src: array<Word>, at: nat, entrySize: nat)
      requires Valid() && src != data
      requires at < src.Length && src[at] != LAST_ENTRY && entrySize == EntrySize(src[at])
      requires at + entrySize <= src.Length
      requires if round then freeSpace >= entrySize else data.Length - write >= entrySize
      modifies this`write, this`freeSpace, this`lastRead, this`lastReadValue, this`nbEntries
      modifies this`hi, this`lo, this`round, data
      ensures Valid() && Contents() == old(Contents()) + [src[at..at + entrySize]]
      ensures lastRead == at && lastReadValue == src[at]
    {
      ghost var r: Record := src[at..at + entrySize];
      ghost var w := write;
      Place(src, at, entrySize);
      if round {
        lo := lo + [r];
      } else {
        hi, round := hi + [r], w + entrySize == data.Length;
      }
    }

    /** The words of a record are put at the write position. */
    method Place(src: array<Word>, at: nat, entrySize: nat)
      requires Valid() && src != data
      requires at < src.Length && src[at] != LAST_ENTRY && entrySize == EntrySize(src[at])
      requires at + entrySize <= src.Length
      requires if round then freeSpace >= entrySize else data.Length - write >= entrySize
      modifies this`write, this`freeSpace, this`lastRead, this`lastReadValue, this`nbEntries, data
      ensures
        var r := src[at..at + entrySize];
        if round then Ring(data[..], read, write, freeSpace, hi, lo + [r], true)
        else lo == [] && Ring(data[..], read, write, freeSpace, hi + [r], lo, old(write) + entrySize == data.Length)
      ensures nbEntries == old(nbEntries) + 1 && lastRead == at && lastReadValue == src[at]
    {
      ghost var r: Record := src[at..at + entrySize];
      ghost var d, w, f := data[..], write, freeSpace;
      if !round { Spare(d, read, w, f, hi, lo); }
      CopyEntry(src, at, entrySize);
      AppendHere(d, read, w, f, hi, lo, round, r, data[..], write);
    }

    /** Marks the end, goes round and copies a record to the start of the buffer. */
    method CopyRound(src: array<Word>, at: nat, entrySize: nat)
      requires Valid() && src != data && !round && hi != []
      requires at < src.Length && src[at] != LAST_ENTRY && entrySize == EntrySize(src[at])
      requires at + entrySize <= src.Length
      requires read >= entrySize
      modifies this`write, this`freeSpace, this`lastRead, this`lastReadValue, this`nbEntries, this`lo, this`round, data
      ensures Valid() && Contents() == old(Contents()) + [src[at..at + entrySize]]
      ensures lastRead == at && lastReadValue == src[at]
    {
      ghost var r: Record := src[at..at + entrySize];
      ghost var d, w, f := data[..], write, freeSpace;
      GoRound();
      CopyEntry(src, at, entrySize);
      ghost var d' := data[..];
      AppendRound(d, read, w, f, hi, r, d');
      lo, round := [r], true;
    }

    /** Leaves the end marker and sends the writer to the start of the buffer. */
    method GoRound()
      requires write < data.Length && freeSpace >= data.Length - write
      modifies this`write, this`freeSpace, data
      ensures data[..] == old(data[..])[old(write) := LAST_ENTRY]
      ensures write == 0 && freeSpace == old(freeSpace) - (data.Length - old(write))
    {
      var contiguous := data.Length - write;
      data[write] := LAST_ENTRY;
      write := 0;
      freeSpace := freeSpace - contiguous;
    }

    /** The `n` words from `p` on hold no unread record and are not given up. */
    ghost predicate Gap(p: nat, n: nat)
      reads this, data
    {
      && p + n <= data.Length && |Concat(lo)| <= p
      && (p + n <= read || (!round && read + |Concat(hi)| <= p))
    }

    /** There is room for a record exactly if there is a gap for it. */
    lemma RoomExactly(n: nat)
      requires Valid() && n > 0
      ensures Room(data.Length, read, write, nbEntries, n) <==> exists p :: Gap(p, n)
    {
      CountFits(data[..], read, write, freeSpace, hi, lo, round);
      if Room(data.Length, read, write, nbEntries, n) {
        assert Gap(if round || write + n <= data.Length then write else 0, n);
      }
    }

    /** Where there is room, by the counters that the code compares. */
    lemma WhereRoom(n: nat)
      requires Valid() && n > 0
      ensures
        var contiguous := data.Length - write;
        if freeSpace < n then !Room(data.Length, read, write, nbEntries, n)
        else if write < read || contiguous >= n then
          Room(data.Length, read, write, nbEntries, n) && (!round ==> contiguous >= n)
        else if freeSpace - contiguous >= n then
          Room(data.Length, read, write, nbEntries, n) && !round && hi != [] && read >= n
        else !Room(data.Length, read, write, nbEntries, n)
    {
      CountFits(data[..], read, write, freeSpace, hi, lo, round);
    }

    /** The body of the copy loop for the record at `at`: copies it exactly if there is a
        free gap that takes it in one piece. */
    method CopyOne(src: array<Word>, at: nat) returns (ok: bool)
      requires Valid() && src != data
      requires at < src.Length && src[at] != LAST_ENTRY && at + EntrySize(src[at]) <= src.Length
      modifies this, data
      ensures Valid() && resetIdx == old(resetIdx) && read == old(read)
      ensures ok == Room(data.Length, old(read), old(write), old(nbEntries), EntrySize(src[at]))
      ensures ok ==>
        && Contents() == old(Contents()) + [src[at..at + EntrySize(src[at])]]
        && lastRead == at && lastReadValue == src[at]
      ensures !ok ==>
        && Contents() == old(Contents()) && data[..] == old(data[..]) && write == old(write)
        && lastRead == old(lastRead) && lastReadValue == old(lastReadValue)
    {
      var entrySize := EntrySize(src[at]);
      WhereRoom(entrySize);
      if freeSpace >= entrySize {
        var contiguous := data.Length - write;
        if write < read || contiguous >= entrySize {
          CopyHere(src, at, entrySize);
          return true;
        } else if freeSpace - contiguous >= entrySize {
          CopyRound(src, at, entrySize);
          return true;
        } else {
          return false;
        }
      } else {
        return false;
      }
    }

    /** What the reader finds at its position. */
    lemma Peek()
      requires Valid() && Contents() != []
      ensures hi != [] && IsRecord(Contents()[0]) && data[read] == Contents()[0][0]
      ensures StrLen(data[read]) == |Text(Contents()[0])|
    {
      CountFits(data[..], read, write, freeSpace, hi, lo, round);
      Front(data[..], read, hi);
      TextLength(hi[0]);
    }

    /** Moves the reader over a record of `entrySize` words that ends at `next`.  The word
        there may be stale if no entry is left; what it makes of that is put right by `Rewind`. */
    method MoveReader(entrySize: nat, next: nat)
      requires next <= data.Length && nbEntries > 0
      modifies this`read, this`nbEntries, this`freeSpace
      ensures read == Skip(data[..], next) && nbEntries == old(nbEntries) - 1
      ensures freeSpace == Regained(data[..], next, old(freeSpace) + entrySize)
    {
      var ptr := next;
      nbEntries := nbEntries - 1;
      freeSpace := freeSpace + entrySize;
      if ptr >= data.Length {
        ptr := 0;
      } else if data[ptr] == LAST_ENTRY {
        freeSpace := freeSpace + (data.Length - ptr);
        ptr := 0;
      }
      read := ptr;
    }

    lemma NextLayout(d: seq<Word>, next: nat)
      requires Valid() && d == data[..] && hi != [] && next == read + |hi[0]|
      ensures Upper(hi, lo) + Lower(hi, lo) == Contents()[1..] && |Upper(hi, lo)| + |Lower(hi, lo)| == nbEntries - 1
      ensures nbEntries > 1 ==>
        Ring(d, Skip(d, next), write, Regained(d, next, freeSpace + |hi[0]|), Upper(hi, lo), Lower(hi, lo),
             |hi| > 1 && round)
    {
      TakenRest(hi, lo);
      if nbEntries > 1 {
        Taken(d, read, write, freeSpace, hi, lo, round);
      }
    }

    /** The reader steps over the first unread record. */
    method StepOver(entrySize: nat, next: nat)
      requires Valid() && hi != [] && entrySize == |hi[0]| && next == read + entrySize <= data.Length
      modifies this`read, this`nbEntries, this`freeSpace, this`hi, this`lo, this`round
      ensures Contents() == old(Contents())[1..] && nbEntries == |Contents()|
      ensures Contents() != [] ==> Valid()
    {
      ghost var d := data[..];
      NextLayout(d, next);
      MoveReader(entrySize, next);
      hi, lo, round := Upper(hi, lo), Lower(hi, lo), |hi| > 1 && round;
      assert data[..] == d;
    }

    /** The body of the read loop: the first unread record as text. */
    method ReadOne() returns (text: string)
      requires Valid() && hi != []
      modifies this`read, this`nbEntries, this`freeSpace, this`hi, this`lo, this`round
      ensures IsRecord(old(hi[0])) && text == Text(old(hi[0]))
      ensures Contents() == old(Contents())[1..] && nbEntries == |Contents()|
      ensures Contents() != [] ==> Valid()
    {
      Front(data[..], read, hi);
      var entrySize := EntrySize(data[read]);
      var ptr;
      text, ptr := ToStr(data, read);
      assert data[read..ptr] == data[..][read..ptr] == hi[0];
      StepOver(entrySize, ptr);
    }

    /** An emptied buffer starts afresh. */
    method Rewind()
      requires MAX_RECORD <= data.Length <= MAX_SIZE
      modifies this`read, this`write, this`nbEntries, this`freeSpace, this`hi, this`lo, this`round
      ensures Valid() && Contents() == [] && nbEntries == 0
    {
      read, write := 0, 0;
      freeSpace := data.Length;
      nbEntries := 0;
      hi, lo, round := [], [], false;
    }

    /** Of `all`, the first `taken` records were read and are in `out`; the rest is unread. */
    ghost predicate Reading(all: seq<Record>, taken: nat, out: string)
      reads this, data
    {
      && taken <= |all| && Records(all)
      && Contents() == all[taken..] && nbEntries == |all| - taken
      && (nbEntries > 0 ==> Valid())
      && out == TextAll(all[..taken])
    }

    /** Reads one more record. */
    method ReadNext(ghost all: seq<Record>, ghost taken: nat, out: string) returns (out': string)
      requires Reading(all, taken, out) && nbEntries > 0
      modifies this`read, this`nbEntries, this`freeSpace, this`hi, this`lo, this`round
      ensures Reading(all, taken + 1, out') && nbEntries == old(nbEntries) - 1
      ensures |out'| == |out| + |Text(all[taken])| > |out|
    {
      Peek();
      assert hi[0] == Contents()[0] == all[taken];
      var text := ReadOne();
      TextAllNext(all, taken);
      TextLength(all[taken]);
      out' := out + text;
      assert all[taken..][1..] == all[taken + 1..];
    }

    /** The text of the next record, if there is one, is longer than `room`. */
    ghost predicate NoneFits(room: int)
      reads this
    {
      Contents() != [] ==> IsRecord(Contents()[0]) && |Text(Contents()[0])| > room
    }

    /** Reads one more record if its text fits. */
    method TryNext(ghost all: seq<Record>, ghost taken: nat, out: string, remain: nat)
      returns (ok: bool, out': string)
      requires Reading(all, taken, out) && nbEntries > 0
      modifies this`read, this`nbEntries, this`freeSpace, this`hi, this`lo, this`round
      ensures ok ==>
        Reading(all, taken + 1, out') && nbEntries == old(nbEntries) - 1 && |out| < |out'| <= |out| + remain
      ensures !ok ==> Reading(all, taken, out) && out' == out && nbEntries == old(nbEntries) && NoneFits(remain)
    {
      Peek();
      assert Contents()[0] == all[taken];
      ok, out' := remain >= StrLen(data[read]), out;
      if ok {
        out' := ReadNext(all, taken, out);
      }
    }

    /** aml_fw_trace_read_local: the longest run of whole records whose text fits `size`. */
    method ReadLocal(size: nat) returns (out: string, ghost taken: nat)
      requires Valid()
      modifies this`read, this`write, this`nbEntries, this`freeSpace, this`hi, this`lo, this`round
      ensures Valid() && Records(old(Contents())) && taken <= |old(Contents())|
      ensures Contents() == old(Contents())[taken..]
      ensures out == TextAll(old(Contents())[..taken]) && taken <= |out| <= size
      ensures NoneFits(size - |out|)
    {
      ghost var all := Contents();
      out, taken := "", 0;
      assert Reading(all, 0, "") by { assert all[..0] == [] && Texts([]) == []; }
      if nbEntries == 0 {
        return;
      }
      var remain, ok := size, true;
      while nbEntries > 0 && ok
        invariant Reading(all, taken, out) && taken <= |out| && 0 <= remain == size - |out|
        invariant ok || NoneFits(remain)
        decreases ok, nbEntries
      {
        ok, out := TryNext(all, taken, out, remain);
        if ok {
          remain := size - |out|;
          taken := taken + 1;
        }
      }
      if nbEntries == 0 {
        Rewind();
      }
    }
  }
}
