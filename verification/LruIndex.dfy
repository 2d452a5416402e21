/**
  The recency sidecar `lru.idx`: one 8-byte timestamp per page id behind a 32-byte header,
  with an in-memory map that suppresses writes of the value already on disk.
*/
module LruIndex {
  import opened Bytes

  const RECORD_SIZE: nat := 8
  const HEADER_SIZE: nat := 32
  const MAGIC: seq<Byte> := [0x43, 0x53, 0x4C, 0x49] // "CSLI"
  const VERSION: U32 := 1
  const MAX_TRACKED_TIMESTAMPS: nat := 65536

  function RecordOffset(p: nat): nat { HEADER_SIZE + p * RECORD_SIZE }

  function Header(): (h: seq<Byte>)
    ensures |h| == HEADER_SIZE
  {
    MAGIC + LE32(VERSION) + LE32(RECORD_SIZE) + Zeros(20)
  }

  predicate HeaderOk(file: seq<Byte>) {
    && |file| >= HEADER_SIZE
    && file[0..4] == MAGIC
    && Read32(file[4..8]) == VERSION
    && Read32(file[8..12]) == RECORD_SIZE
  }

  predicate Aligned(file: seq<Byte>) {
    |file| >= HEADER_SIZE && (|file| - HEADER_SIZE) % RECORD_SIZE == 0
  }

  /** The timestamp of page `p`; a slot past end of file reads 0, the oldest. */
  function ReadSlot(file: seq<Byte>, p: nat): U64 {
    var s := ReadAt(file, RecordOffset(p), RECORD_SIZE);
    if |s| < RECORD_SIZE then 0 else Read64(s)
  }

  function WriteSlot(file: seq<Byte>, p: nat, ts: U64): seq<Byte> {
    WriteAt(file, RecordOffset(p), LE64(ts))
  }

  lemma ReadOwnSlot(file: seq<Byte>, p: nat, ts: U64)
    ensures ReadSlot(WriteSlot(file, p, ts), p) == ts
  {
    ReadOwnWrite(file, RecordOffset(p), LE64(ts));
    Read64OfLE64(ts);
  }

  lemma ReadOtherSlot(file: seq<Byte>, q: nat, ts: U64, p: nat)
    requires Aligned(file) && p != q
    ensures ReadSlot(WriteSlot(file, q, ts), p) == ReadSlot(file, p)
  {
    var file' := WriteSlot(file, q, ts);
    assert RecordOffset(p + 1) <= RecordOffset(q) || RecordOffset(q + 1) <= RecordOffset(p);
    if RecordOffset(p + 1) <= |file| {
      ReadOtherRange(file, RecordOffset(q), LE64(ts), RecordOffset(p), RECORD_SIZE);
    } else if p < q {
      assert |file| <= RecordOffset(p);
      assert ReadAt(file', RecordOffset(p), RECORD_SIZE) == Zeros(8);
      DecodeZeros(8);
    }
  }

  lemma WriteKeepsAlignment(file: seq<Byte>, p: nat, ts: U64)
    requires Aligned(file)
    ensures Aligned(WriteSlot(file, p, ts))
  {
    assert |WriteSlot(file, p, ts)| == Max(|file|, RecordOffset(p + 1));
  }

  // ----- the write-suppressing cache -----

  datatype State = State(file: seq<Byte>, seen: map<PageId, U64>)

  ghost predicate Holds(file: seq<Byte>, p: PageId, ts: U64) {
    ReadAt(file, RecordOffset(p), RECORD_SIZE) == LE64(ts)
  }

  ghost predicate Coherent(st: State) {
    && |st.file| >= HEADER_SIZE
    && |st.seen| <= MAX_TRACKED_TIMESTAMPS
    && forall p :: p in st.seen ==> Holds(st.file, p, st.seen[p])
  }

  function Touch(st: State, p: PageId, ts: U64): State {
    if p in st.seen && st.seen[p] == ts then st
    else
      var kept := if |st.seen| >= MAX_TRACKED_TIMESTAMPS && p !in st.seen then map[] else st.seen;
      State(WriteSlot(st.file, p, ts), kept[p := ts])
  }

  lemma HoldsOther(file: seq<Byte>, q: PageId, ts: U64, p: PageId, v: U64)
    requires p != q && Holds(file, p, v)
    ensures Holds(WriteSlot(file, q, ts), p, v)
  {
    hide EncodeLE, WriteAt;
    assert RecordOffset(p + 1) <= RecordOffset(q) || RecordOffset(q + 1) <= RecordOffset(p);
    ReadOtherRange(file, RecordOffset(q), LE64(ts), RecordOffset(p), RECORD_SIZE);
  }

  lemma HoldsOwn(file: seq<Byte>, p: PageId, ts: U64)
    ensures Holds(WriteSlot(file, p, ts), p, ts)
  {
    ReadOwnWrite(file, RecordOffset(p), LE64(ts));
  }

  lemma WriteOnlyGrows(file: seq<Byte>, p: nat, ts: U64)
    ensures |WriteSlot(file, p, ts)| >= |file|
  {
  }

  lemma CapHolds(seen: map<PageId, U64>, p: PageId, ts: U64)
    requires |seen| <= MAX_TRACKED_TIMESTAMPS
    ensures
      var kept := if |seen| >= MAX_TRACKED_TIMESTAMPS && p !in seen then map[] else seen;
      |kept[p := ts]| <= MAX_TRACKED_TIMESTAMPS
  {
    var kept := if |seen| >= MAX_TRACKED_TIMESTAMPS && p !in seen then map[] else seen;
    assert kept[p := ts].Keys == kept.Keys + {p};
    if p in kept { assert kept[p := ts].Keys == kept.Keys; }
  }

  lemma SkippedTouch(file: seq<Byte>, p: PageId, ts: U64)
    requires Holds(file, p, ts)
    ensures WriteSlot(file, p, ts) == file
  {
    RewriteIsIdentity(file, RecordOffset(p), LE64(ts));
  }

  /** Skipping a write never shows: the file is the one an unconditional write would leave. */
  lemma TouchIsPlainWrite(st: State, p: PageId, ts: U64)
    requires Coherent(st)
    ensures Touch(st, p, ts).file == WriteSlot(st.file, p, ts)
    ensures Coherent(Touch(st, p, ts))
  {
    hide Holds, WriteSlot, WriteAt, ReadAt;
    if p in st.seen && st.seen[p] == ts {
      assert Holds(st.file, p, ts);
      SkippedTouch(st.file, p, ts);
    } else {
      var st' := Touch(st, p, ts);
      assert |st'.file| >= HEADER_SIZE by { WriteOnlyGrows(st.file, p, ts); }
      HoldsOwn(st.file, p, ts);
      CapHolds(st.seen, p, ts);
      forall q | q in st'.seen && q != p
        ensures Holds(st'.file, q, st'.seen[q])
      {
        HoldsOther(st.file, p, ts, q, st.seen[q]);
      }
    }
  }

  datatype Op = TouchPage(p: PageId, ts: U64) | Reset

  function CachedRun(st: State, ops: seq<Op>): State
    decreases |ops|
  {
    if ops == [] then st
    else match ops[0]
      case TouchPage(p, ts) => CachedRun(Touch(st, p, ts), ops[1..])
      case Reset => CachedRun(State(Header(), map[]), ops[1..])
  }

  function PlainRun(file: seq<Byte>, ops: seq<Op>): seq<Byte>
    decreases |ops|
  {
    if ops == [] then file
    else match ops[0]
      case TouchPage(p, ts) => PlainRun(WriteSlot(file, p, ts), ops[1..])
      case Reset => PlainRun(Header(), ops[1..])
  }

  /** Over any run the cached file equals the always-writing one, and the map stays within its cap. */
  lemma {:induction false} CacheIsInvisible(st: State, ops: seq<Op>)
    requires Coherent(st)
    ensures CachedRun(st, ops).file == PlainRun(st.file, ops)
    ensures Coherent(CachedRun(st, ops))
    decreases |ops|
  {
    if ops != [] {
      match ops[0] {
        case TouchPage(p, ts) =>
          TouchIsPlainWrite(st, p, ts);
          CacheIsInvisible(Touch(st, p, ts), ops[1..]);
        case Reset =>
          CacheIsInvisible(State(Header(), map[]), ops[1..]);
      }
    }
  }

  /** The value a run leaves for page `p`: its last touch since the last reset, else `ts0`. */
  function LastTouch(ts0: U64, ops: seq<Op>, p: PageId): U64
    decreases |ops|
  {
    if ops == [] then ts0
    else match ops[0]
      case TouchPage(q, ts) => LastTouch(if q == p then ts else ts0, ops[1..], p)
      case Reset => LastTouch(0, ops[1..], p)
  }

  lemma {:induction false} RunReadsLastTouch(file: seq<Byte>, ops: seq<Op>, p: PageId)
    requires Aligned(file)
    ensures ReadSlot(PlainRun(file, ops), p) == LastTouch(ReadSlot(file, p), ops, p)
    decreases |ops|
  {
    hide ReadSlot, WriteSlot;
    if ops != [] {
      match ops[0] {
        case TouchPage(q, ts) =>
          WriteKeepsAlignment(file, q, ts);
          if q == p { ReadOwnSlot(file, q, ts); } else { ReadOtherSlot(file, q, ts, p); }
          RunReadsLastTouch(WriteSlot(file, q, ts), ops[1..], p);
        case Reset =>
          HeaderReadsZero(p);
          RunReadsLastTouch(Header(), ops[1..], p);
      }
    }
  }

  lemma HeaderReadsZero(p: nat)
    ensures ReadSlot(Header(), p) == 0
  {
  }

  // ----- the file object -----

  function RecordCount(file: seq<Byte>): nat {
    if |file| <= HEADER_SIZE then 0 else (|file| - HEADER_SIZE) / RECORD_SIZE
  }

  /** A page past the last whole record reads 0. */
  lemma PastCount(file: seq<Byte>)
    ensures forall p: PageId :: RecordCount(file) <= p ==> ReadSlot(file, p) == 0
  {
  }

  /** A record of the bulk read is the page's own read. */
  lemma SlotInBody(file: seq<Byte>, i: nat)
    requires |file| > HEADER_SIZE && i < RecordCount(file)
    ensures
      var body := ReadAt(file, HEADER_SIZE, |file| - HEADER_SIZE);
      && |body| == |file| - HEADER_SIZE && (i + 1) * RECORD_SIZE <= |body|
      && Read64(body[i * RECORD_SIZE..(i + 1) * RECORD_SIZE]) == ReadSlot(file, i)
  {
    hide Read64;
    SliceOfSlice(file, HEADER_SIZE, |file|, i * RECORD_SIZE, (i + 1) * RECORD_SIZE);
  }

  class LruIndexFile {
    var file: seq<Byte>
    var lastWritten: map<PageId, U64>

    ghost function View(): State
      reads this
    {
      State(file, lastWritten)
    }

    ghost predicate Valid()
      reads this
    {
      Coherent(View())
    }

    /** An empty, short or foreign file is rebuilt as a bare header; anything else is kept. */
    constructor OpenOrCreate(disk: seq<Byte>)
      ensures Valid()
      ensures View() == State(if HeaderOk(disk) then disk else Header(), map[])
    {
      lastWritten := map[];
      if |disk| == 0 {
        file := Header();
      } else if |disk| < HEADER_SIZE {
        file := Header();
      } else if disk[0..4] != MAGIC || Read32(disk[4..8]) != VERSION || Read32(disk[8..12]) != RECORD_SIZE {
        file := Header();
      } else {
        file := disk;
      }
    }

    method TouchPage(p: PageId, ts: U64)
      requires Valid()
      modifies this
      ensures Valid() && View() == Touch(old(View()), p, ts)
      ensures file == WriteSlot(old(file), p, ts)
    {
      TouchIsPlainWrite(View(), p, ts);
      if p in lastWritten && lastWritten[p] == ts { return; }
      file := WriteSlot(file, p, ts);
      if |lastWritten| >= MAX_TRACKED_TIMESTAMPS && p !in lastWritten {
        lastWritten := map[];
      }
      lastWritten := lastWritten[p := ts];
    }

    /** One sequential read; a torn trailing record is ignored. */
    method ReadAll() returns (out: seq<U64>)
      requires Valid()
      ensures forall p: PageId :: ReadSlot(file, p) == if p < |out| then out[p] else 0
    {
      hide Read64, ReadSlot, ReadAt;
      PastCount(file);
      if |file| <= HEADER_SIZE { return []; }
      var bodyLen := |file| - HEADER_SIZE;
      var body := ReadAt(file, HEADER_SIZE, bodyLen);
      var count := RecordCount(file);
      out := [];
      for i := 0 to count
        invariant |out| == i
        invariant forall k :: 0 <= k < i ==> out[k] == ReadSlot(file, k)
      {
        SlotInBody(file, i);
        out := out + [Read64(body[i * RECORD_SIZE..(i + 1) * RECORD_SIZE])];
      }
    }

    method ResetToClean()
      modifies this
      ensures Valid() && View() == State(Header(), map[])
    {
      file := Header();
      lastWritten := map[];
    }
  }
}
