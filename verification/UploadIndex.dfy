/**
  The upload-state sidecar `upload.idx`: one byte per page id behind a 16-byte header.
  A page past end of file, and any byte other than 1, reads as Uploaded.
*/
module UploadIndex {
  import opened Bytes

  const HEADER_SIZE: nat := 16
  const MAGIC: seq<Byte> := [0x43, 0x53, 0x55, 0x49] // "CSUI"
  const VERSION: U32 := 1
  const RECORD_SIZE: U32 := 1

  datatype UploadState = Uploaded | LocalOnly

  function FromByte(b: Byte): UploadState {
    if b == 1 then LocalOnly else Uploaded
  }

  function ToByte(s: UploadState): Byte {
    match s
    case Uploaded => 0
    case LocalOnly => 1
  }

  function RecordOffset(p: nat): nat { HEADER_SIZE + p }

  function Header(): (h: seq<Byte>)
    ensures |h| == HEADER_SIZE
  {
    MAGIC + LE32(VERSION) + LE32(RECORD_SIZE) + Zeros(4)
  }

  predicate HeaderOk(file: seq<Byte>) {
    && |file| >= HEADER_SIZE
    && file[0..4] == MAGIC
    && Read32(file[4..8]) == VERSION
    && Read32(file[8..12]) == RECORD_SIZE
  }

  function ReadSlot(file: seq<Byte>, p: nat): UploadState {
    var s := ReadAt(file, RecordOffset(p), 1);
    if |s| < 1 then Uploaded else FromByte(s[0])
  }

  /** Reading the record at `i` out of a bulk read, as the eviction walk does. */
  function FromBulk(states: seq<Byte>, p: nat): UploadState {
    if p < |states| then FromByte(states[p]) else Uploaded
  }

  /** The pages the sidecar records as not yet in storage. */
  function LocalOnlyPages(file: seq<Byte>): set<PageId> {
    set p: PageId | 0 <= p < |file| && ReadSlot(file, p).LocalOnly?
  }

  /** A slot is one byte of the file, or `Uploaded` past its end. */
  lemma SlotIsByte(file: seq<Byte>, p: nat)
    ensures ReadSlot(file, p) == if RecordOffset(p) < |file| then FromByte(file[RecordOffset(p)]) else Uploaded
  {
  }

  lemma WriteSlot(file: seq<Byte>, q: PageId, s: UploadState)
    requires |file| >= HEADER_SIZE
    ensures
      var file' := WriteAt(file, RecordOffset(q), [ToByte(s)]);
      && file'[..HEADER_SIZE] == file[..HEADER_SIZE]
      && LocalOnlyPages(file') == if s.LocalOnly? then LocalOnlyPages(file) + {q} else LocalOnlyPages(file) - {q}
  {
    hide WriteAt, ReadSlot;
    var file' := WriteAt(file, RecordOffset(q), [ToByte(s)]);
    assert file'[..HEADER_SIZE] == file[..HEADER_SIZE];
    forall p: PageId
      ensures ReadSlot(file', p) == if p == q then s else ReadSlot(file, p)
      ensures p in LocalOnlyPages(file') <==> ReadSlot(file', p).LocalOnly?
      ensures p in LocalOnlyPages(file) <==> ReadSlot(file, p).LocalOnly?
    {
      SlotIsByte(file, p);
      SlotIsByte(file', p);
    }
  }

  class UploadIndexFile {
    var file: seq<Byte>

    ghost predicate Valid()
      reads this
    {
      |file| >= HEADER_SIZE
    }

    ghost function Pinned(): set<PageId>
      reads this
    {
      LocalOnlyPages(file)
    }

    constructor OpenOrCreate(disk: seq<Byte>)
      ensures Valid()
      ensures file == if HeaderOk(disk) then disk else Header()
    {
      if |disk| == 0 {
        file := Header();
      } else if |disk| < HEADER_SIZE {
        file := Header();
      } else if disk[0..4] != MAGIC || Read32(disk[4..8]) != VERSION || Read32(disk[8..12]) != RECORD_SIZE {
        file := Header();
      } else {
        file := disk;
      }
    }

    method SetState(p: PageId, s: UploadState)
      requires Valid()
      modifies this
      ensures Valid() && file[..HEADER_SIZE] == old(file[..HEADER_SIZE])
      ensures Pinned() == if s.LocalOnly? then old(Pinned()) + {p} else old(Pinned()) - {p}
    {
      WriteSlot(file, p, s);
      file := WriteAt(file, RecordOffset(p), [ToByte(s)]);
    }

    method ReadState(p: PageId) returns (s: UploadState)
      ensures s.LocalOnly? <==> p in Pinned()
    {
      s := ReadSlot(file, p);
    }

    /** The bulk read agrees with the per-page read inside, between and past the stored records. */
    method ReadAll() returns (out: seq<Byte>)
      requires Valid()
      ensures forall p: nat :: FromBulk(out, p) == ReadSlot(file, p)
    {
      if |file| <= HEADER_SIZE { return []; }
      out := ReadAt(file, HEADER_SIZE, |file| - HEADER_SIZE);
    }

    method ResetToClean()
      modifies this
      ensures Valid() && file == Header() && Pinned() == {}
    {
      file := Header();
    }
  }

  function ListFrom(file: seq<Byte>, k: nat): seq<(PageId, UploadState)>
    decreases |file| - k
  {
    if RecordOffset(k) >= |file| || k >= U32_LIMIT then []
    else [(k, ReadSlot(file, k))] + ListFrom(file, k + 1)
  }

  /** The crash-recovery scan sees every page the sidecar pins, in page order. */
  lemma {:induction false} ListFromIsComplete(file: seq<Byte>, k: nat)
    requires |file| >= HEADER_SIZE
    ensures forall p: PageId :: p >= k && p in LocalOnlyPages(file) ==> (p, LocalOnly) in ListFrom(file, k)
    ensures forall i :: 0 <= i < |ListFrom(file, k)| ==> ListFrom(file, k)[i] == (k + i, ReadSlot(file, k + i))
    decreases |file| - k
  {
    hide ReadSlot, ToByte;
    if RecordOffset(k) < |file| && k < U32_LIMIT {
      ListFromIsComplete(file, k + 1);
      var rest := ListFrom(file, k + 1);
      var all := ListFrom(file, k);
      assert all == [(k, ReadSlot(file, k))] + rest;
      forall i | 0 <= i < |all|
        ensures all[i] == (k + i, ReadSlot(file, k + i))
      {
        if i > 0 { assert all[i] == rest[i - 1]; }
      }
      assert forall x :: x in rest ==> x in all;
    } else {
      forall p: PageId | p >= k
        ensures p !in LocalOnlyPages(file)
      {
        SlotIsByte(file, p);
      }
    }
  }

  class UploadIndexIter {
    const index: UploadIndexFile
    const len: nat
    var nextOffset: nat

    ghost predicate Valid()
      reads this, index
    {
      HEADER_SIZE <= nextOffset <= Max(len, HEADER_SIZE) && len == |index.file|
    }

    ghost function Remaining(): seq<(PageId, UploadState)>
      reads this, index
      requires Valid()
    {
      ListFrom(index.file, nextOffset - HEADER_SIZE)
    }

    constructor (idx: UploadIndexFile)
      ensures Valid() && index == idx && Remaining() == ListFrom(idx.file, 0)
    {
      index := idx;
      len := |idx.file|;
      nextOffset := HEADER_SIZE;
    }

    method Next() returns (r: Option<(PageId, UploadState)>)
      requires Valid()
      modifies this
      ensures Valid()
      ensures old(Remaining()) == [] ==> r.None? && Remaining() == []
      ensures old(Remaining()) != [] ==> r == Some(old(Remaining())[0]) && Remaining() == old(Remaining())[1..]
    {
      if nextOffset >= len { return None; }
      var buf := ReadAt(index.file, nextOffset, 1);
      if |buf| == 0 { return None; }
      var pid := nextOffset - HEADER_SIZE;
      if pid >= U32_LIMIT { return None; }
      nextOffset := nextOffset + 1;
      return Some((pid, FromByte(buf[0])));
    }
  }
}
