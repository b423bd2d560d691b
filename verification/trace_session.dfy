/** One reader of the firmware trace: the firmware writes to the shared ring, records are
    copied to the local buffer, and their text goes to the reader.  The methods may be
    called in any order; each keeps `Lossless`. */
module TraceSession {
  import opened TraceText
  import opened TraceRing
  import opened TraceShared

  /** What was handed out, from record number `base` on, is the text of the log up to the
      records still held, and those are the ones that come next: none is lost, repeated or
      out of order. */
  ghost predicate Faithful(log: seq<Record>, base: nat, copied: nat, held: seq<Record>, emitted: string) {
    && base + |held| <= copied <= |log| && Records(log)
    && held == log[copied - |held|..copied]
    && emitted == TextAll(log[base..copied - |held|])
  }

  lemma FaithfulStart(log: seq<Record>, base: nat)
    requires base <= |log| && Records(log)
    ensures Faithful(log, base, base, [], "")
  {
    assert Texts([]) == [];
  }

  lemma FaithfulMoreLog(log: seq<Record>, base: nat, copied: nat, held: seq<Record>, emitted: string, log': seq<Record>)
    requires Faithful(log, base, copied, held, emitted) && log <= log' && Records(log')
    ensures Faithful(log', base, copied, held, emitted)
  {
    assert log'[copied - |held|..copied] == log[copied - |held|..copied];
    assert log'[base..copied - |held|] == log[base..copied - |held|];
  }

  lemma FaithfulCopy(log: seq<Record>, base: nat, copied: nat, held: seq<Record>, emitted: string,
                     copied': nat, held': seq<Record>)
    requires Faithful(log, base, copied, held, emitted) && copied <= copied' <= |log|
    requires held' == held + log[copied..copied']
    ensures Faithful(log, base, copied', held', emitted)
  {
    var from := copied - |held|;
    assert log[from..copied] + log[copied..copied'] == log[from..copied'];
    assert from == copied' - |held'|;
  }

  lemma FaithfulEmit(log: seq<Record>, base: nat, copied: nat, held: seq<Record>, emitted: string, k: nat,
                     held': seq<Record>, out: string)
    requires Faithful(log, base, copied, held, emitted) && k <= |held| && Records(held)
    requires held' == held[k..] && out == TextAll(held[..k])
    ensures Faithful(log, base, copied, held', emitted + out)
  {
    var from := copied - |held|;
    var to := from + k;
    Joined(log, base, from, copied, held, k);
    TextJoined(log, base, from, to, held[..k]);
    FaithfulIs(log, base, copied, to, held', emitted + out);
  }

  lemma FaithfulIs(log: seq<Record>, base: nat, copied: nat, to: nat, held: seq<Record>, emitted: string)
    requires base <= to <= copied <= |log| && Records(log) && held == log[to..copied]
    requires Records(log[base..to]) && emitted == TextAll(log[base..to])
    ensures Faithful(log, base, copied, held, emitted)
  {
    assert to == copied - |held|;
  }

  lemma TextJoined(log: seq<Record>, base: nat, from: nat, to: nat, x: seq<Record>)
    requires base <= from <= to <= |log| && Records(log) && Records(x) && log[base..from] + x == log[base..to]
    ensures Records(log[base..from]) && Records(log[base..to])
    ensures TextAll(log[base..from]) + TextAll(x) == TextAll(log[base..to])
  {
    TextAllSplit(log[base..from], x);
  }

  lemma Joined(log: seq<Record>, base: nat, from: nat, copied: nat, held: seq<Record>, k: nat)
    requires base <= from <= copied <= |log| && held == log[from..copied] && k <= |held|
    ensures log[base..from] + held[..k] == log[base..from + k] && held[k..] == log[from + k..copied]
  {
    assert held[..k] == log[from..from + k];
  }

  class Session {
    const local: LocalBuf
    var ring: array<Word>
    var start: nat
    var end: nat
    var resetIdx: int
    var emitted: string      // all text handed out so far
    ghost var shared: Shared
    ghost var base: nat      // number of the record the reader began with
    ghost var copied: nat    // number of records of the log that reached the local buffer

    ghost predicate Valid()
      reads this, ring, local, local.data
    {
      && shared.Good() && ring[..] == shared.d
      && start == shared.start && end == shared.end && resetIdx == shared.resetIdx
      && local.Valid() && local.data != ring && shared.InStep(local, copied)
    }

    ghost predicate Lossless()
      reads this, local
    {
      Faithful(shared.log, base, copied, local.Contents(), emitted)
    }

    /** A new reader of a ring in some state. */
    constructor (size: nat, ring: array<Word>, start: nat, end: nat, resetIdx: int, ghost s: Shared)
      requires MAX_RECORD <= size <= MAX_SIZE
      requires s.Good() && s.d == ring[..] && s.start == start && s.end == end && s.resetIdx == resetIdx
      requires Records(s.log)
      ensures Valid() && Lossless() && fresh(local) && fresh(local.data) && emitted == ""
      ensures shared == s && base == copied == s.first
    {
      var l := new LocalBuf(size);
      local := l;
      this.ring, this.start, this.end, this.resetIdx := ring, start, end, resetIdx;
      emitted := "";
      shared, base, copied := s, s.first, s.first;
      new;
      FaithfulStart(s.log, s.first);
    }

    method Install(ring': array<Word>, start': nat, end': nat, ghost s: Shared)
      requires local.Valid() && s.Good() && s.InStep(local, copied) && ring' != local.data
      requires s.d == ring'[..] && s.start == start' && s.end == end' && s.resetIdx == resetIdx
      modifies this`ring, this`start, this`end, this`shared
      ensures Valid() && shared == s && local.Contents() == old(local.Contents())
    {
      ring, start, end, shared := ring', start', end', s;
    }

    /** The firmware traces more records, dropping old ones, but not the one read last nor
        any that was not copied yet. */
    method FirmwareWrites(ring': array<Word>, start': nat, end': nat, ghost s: Shared)
      requires Valid() && Lossless()
      requires s.Good() && s.d == ring'[..] && s.start == start' && s.end == end' && s.resetIdx == resetIdx
      requires Records(s.log) && shared.log <= s.log && s.InStep(local, copied)
      requires ring' != local.data
      modifies this`ring, this`start, this`end, this`shared
      ensures Valid() && Lossless() && emitted == old(emitted)
    {
      ghost var held := local.Contents();
      FaithfulMoreLog(shared.log, base, copied, held, emitted, s.log);
      Install(ring', start', end', s);
      assert local.Contents() == held;
    }

    /** _aml_fw_trace_reset, once all records were copied. */
    method Reset(idx: int)
      requires Valid() && Lossless() && copied == |shared.log|
      requires idx != local.resetIdx
      modifies this`start, this`end, this`resetIdx, this`shared
      ensures Valid() && Lossless() && emitted == old(emitted)
    {
      start, end, resetIdx := 0, ring.Length + 1, idx;
      shared := shared.(start := 0, end := ring.Length + 1, resetIdx := idx, first := |shared.log|, pos := []);
    }

    /** aml_fw_trace_copy */
    method CopyNew() returns (n: nat)
      requires Valid() && Lossless()
      modifies this`copied, local, local.data
      ensures Valid() && Lossless() && copied == old(copied) + n
      ensures |local.Contents()| == old(|local.Contents()|) + n && old(local.Contents()) <= local.Contents()
      ensures copied == |shared.log| || NoRoomFor(shared, local, copied)
    {
      ghost var had, k := local.Contents(), copied;
      n := Fetch();
      FaithfulCopy(shared.log, base, k, had, emitted, copied, local.Contents());
    }

    method Fetch() returns (n: nat)
      requires Valid()
      modifies this`copied, local, local.data
      ensures Valid() && copied == old(copied) + n <= |shared.log|
      ensures local.Contents() == old(local.Contents()) + shared.log[old(copied)..copied]
      ensures copied == |shared.log| || NoRoomFor(shared, local, copied)
    {
      ghost var had, last, value := local.Contents(), shared.Last(local), local.lastReadValue;
      shared.NextInStep(last, value, copied);
      n := Copy(shared, ring, start, end, resetIdx, local, copied);
      ghost var to := copied + n;
      ProgressTo(shared, local, had, copied, n, last, value, to);
      copied := to;
    }

    /** Nothing more can be handed out within `room`: either all that was traced was, or the
        text of the next record is longer. */
    ghost predicate Exhausted(room: int)
      reads this, local
    {
      local.NoneFits(room) && (local.Contents() == [] ==> copied == |shared.log|)
    }

    /** aml_fw_trace_read_local */
    method Emit(size: nat) returns (n: nat)
      requires Valid() && Lossless()
      modifies this`emitted, local`read, local`write, local`nbEntries, local`freeSpace, local`hi, local`lo, local`round
      ensures Valid() && Lossless() && copied == old(copied)
      ensures n <= size && |emitted| == |old(emitted)| + n && old(emitted) <= emitted
      ensures local.NoneFits(size - n)
      ensures n == 0 ==> local.Contents() == old(local.Contents())
    {
      var out := Take(size);
      HandOut(out);
      n := |out|;
    }

    method HandOut(out: string)
      requires Valid() && Faithful(shared.log, base, copied, local.Contents(), emitted + out)
      modifies this`emitted
      ensures Valid() && Lossless() && emitted == old(emitted) + out
    {
      emitted := emitted + out;
    }

    /** The text taken is what comes next. */
    method Take(size: nat) returns (out: string)
      requires Valid() && Lossless()
      modifies local`read, local`write, local`nbEntries, local`freeSpace, local`hi, local`lo, local`round
      ensures Valid() && |out| <= size && Faithful(shared.log, base, copied, local.Contents(), emitted + out)
      ensures local.NoneFits(size - |out|)
      ensures out == "" ==> local.Contents() == old(local.Contents())
    {
      ghost var had := local.Contents();
      ghost var taken;
      out, taken := local.ReadLocal(size);
      FaithfulEmit(shared.log, base, copied, had, emitted, taken, local.Contents(), out);
    }

    /** An empty local buffer has room for any record. */
    lemma AllCopied()
      requires Valid() && (copied == |shared.log| || NoRoomFor(shared, local, copied))
      ensures local.Contents() == [] ==> copied == |shared.log|
    {
      if copied < |shared.log| && local.Contents() == [] {
        shared.Here(copied);
        EmptyRoom(local, |shared.log[copied]|);
      }
    }

    /** A turn of the read loop: emits what fits, then copies. */
    method EmitAndCopy(size: nat) returns (read: nat)
      requires Valid() && Lossless() && (local.Contents() == [] ==> copied == |shared.log|)
      modifies this`copied, this`emitted, local, local.data
      ensures Valid() && Lossless() && (local.Contents() == [] ==> copied == |shared.log|)
      ensures read <= size && |emitted| == |old(emitted)| + read
      ensures read == 0 ==> Exhausted(size)
    {
      read := Emit(size);
      ghost var held := local.Contents();
      var c := CopyNew();
      AllCopied();
      if held != [] {
        assert local.Contents()[0] == held[0];
      }
    }

    /** aml_fw_trace_read without waiting: none, for -EAGAIN, if there is nothing to read;
        else copies and emits in turn until nothing more fits or is left. */
    method Read(size: nat) returns (res: int)
      requires Valid() && Lossless()
      modifies this`copied, this`emitted, local, local.data
      ensures Valid() && Lossless() && res <= size
      ensures res == -1 ==> emitted == old(emitted) && local.Contents() == [] && copied == |shared.log|
      ensures res != -1 ==> res >= 0 && |emitted| == |old(emitted)| + res && Exhausted(size - res)
    {
      var c := CopyNew();
      AllCopied();
      if local.nbEntries == 0 {
        return -1;
      }
      res := 0;
      var read := 1;
      while read > 0
        invariant Valid() && Lossless() && 0 <= res <= size && read >= 0
        invariant local.Contents() == [] ==> copied == |shared.log|
        invariant |emitted| == |old(emitted)| + res
        invariant read == 0 ==> Exhausted(size - res)
        decreases read > 0, size - res
      {
        read := EmitAndCopy(size - res);
        res := res + read;
      }
    }
  }

  /** A ring with one record is read: the reader gets its line. */
  method FirstLine() returns (text: string, n: int)
    ensures n == 28 && text == TextAll([Plain(7, 0)])
  {
    Ring0Good();
    var ring := new Word[8];
    Fill(ring, [7, 0, 0, 0, 0, 0, 0, 0]);
    var s := new Session(MAX_RECORD, ring, 0, 0, 0, Ring0());
    n := s.Read(100);
    text := s.emitted;
    TextLength(Plain(7, 0));
    OneRecord([Plain(7, 0)], s.copied, s.local.Contents(), text);
    TextAllOne(Plain(7, 0));
  }

  /** Of a single record, either all was handed out or nothing. */
  lemma OneRecord(log: seq<Record>, copied: nat, held: seq<Record>, emitted: string)
    requires |log| == 1 && Faithful(log, 0, copied, held, emitted)
    ensures held == [] && copied == 1 ==> emitted == TextAll(log)
    ensures held != [] ==> held[0] == log[0] && emitted == ""
  {
    if held == [] {
      assert log[..1] == log;
    } else {
      assert log[..0] == [];
      assert Texts([]) == [];
    }
  }
}
