/**
  The tape block index: a 16-byte bit-packed record codec and the positional file of
  records, one per LBA, behind a 32-byte header.
*/
module BlockIndex {
  import opened Bytes

  const RECORD_SIZE: nat := 16
  const HEADER_SIZE: nat := 32
  const MAGIC: seq<Byte> := [0x4E, 0x56, 0x42, 0x49] // "NVBI"
  const VERSION: U32 := 1

  datatype BlockKind = Data | Filemark

  datatype EncryptionTag = Unencrypted | Aes256Gcm

  datatype CompressionAlgo = Lz4 | Zstd | Sldc

  datatype BlockRec = BlockRec(
    chunkId: U32, offset: U32, len: U32,
    kind: BlockKind, encryption: EncryptionTag, compression: Option<CompressionAlgo>)

  /** What a hole in the file decodes to. */
  const DEFAULT_RECORD: BlockRec := BlockRec(0, 0, 0, Data, Unencrypted, None)

  datatype IndexError = IndexCorrupt | InvalidOp | Io

  // ----- flag byte -----
  //   bit 0     filemark
  //   bits 1-3  encryption tag, 2..7 reserved
  //   bits 4-6  compression tag, 4..7 reserved
  //   bit 7     reserved

  const FLAG_FILEMARK: bv8 := 0x01
  const FLAG_ENC_MASK: bv8 := 0x0E
  const FLAG_COMP_MASK: bv8 := 0x70

  function EncryptionToTag(e: EncryptionTag): bv8 {
    match e
    case Unencrypted => 0
    case Aes256Gcm => 1
  }

  function EncryptionFromTag(v: bv8): Option<EncryptionTag> {
    if v == 0 then Some(Unencrypted) else if v == 1 then Some(Aes256Gcm) else None
  }

  function CompressionToTag(c: Option<CompressionAlgo>): bv8 {
    match c
    case None => 0
    case Some(Lz4) => 1
    case Some(Zstd) => 2
    case Some(Sldc) => 3
  }

  function CompressionFromTag(v: bv8): Option<Option<CompressionAlgo>> {
    if v == 0 then Some(None)
    else if v == 1 then Some(Some(Lz4))
    else if v == 2 then Some(Some(Zstd))
    else if v == 3 then Some(Some(Sldc))
    else None
  }

  function PackCompression(c: Option<CompressionAlgo>): bv8 {
    (CompressionToTag(c) << 4) & FLAG_COMP_MASK
  }

  function UnpackCompression(flags: bv8): Option<Option<CompressionAlgo>> {
    CompressionFromTag((flags & FLAG_COMP_MASK) >> 4)
  }

  function PackFlags(r: BlockRec): bv8 {
    (if r.kind.Filemark? then FLAG_FILEMARK else 0)
    | ((EncryptionToTag(r.encryption) << 1) & FLAG_ENC_MASK)
    | PackCompression(r.compression)
  }

  function UnpackFlags(f: bv8): Result<(BlockKind, EncryptionTag, Option<CompressionAlgo>), IndexError> {
    var kind := if f & FLAG_FILEMARK != 0 then Filemark else Data;
    match EncryptionFromTag((f & FLAG_ENC_MASK) >> 1)
    case None => Err(IndexCorrupt)
    case Some(enc) =>
      match UnpackCompression(f)
      case None => Err(IndexCorrupt)
      case Some(comp) => Ok((kind, enc, comp))
  }

  /** Packing loses nothing, and keeps to bits 0-6. */
  lemma UnpackOfPack(r: BlockRec)
    ensures UnpackFlags(PackFlags(r)) == Ok((r.kind, r.encryption, r.compression))
    ensures PackFlags(r) & 0x80 == 0
  {
  }

  /** A flag byte is rejected exactly when one of its two tags is in the reserved range. */
  lemma RejectedIffReserved(f: bv8)
    ensures UnpackFlags(f).Err? <==> ((f >> 1) & 7 > 1 || (f >> 4) & 7 > 3)
  {
  }

  // ----- records -----

  function FlagByte(f: bv8): Byte { f as int }

  function Encode(r: BlockRec): (s: seq<Byte>)
    ensures |s| == RECORD_SIZE
  {
    LE32(r.chunkId) + LE32(r.offset) + LE32(r.len) + [FlagByte(PackFlags(r))] + Zeros(3)
  }

  function Decode(s: seq<Byte>): Result<BlockRec, IndexError>
    requires |s| == RECORD_SIZE
  {
    match UnpackFlags(s[12] as bv8)
    case Err(e) => Err(e)
    case Ok((kind, enc, comp)) =>
      Ok(BlockRec(Read32(s[0..4]), Read32(s[4..8]), Read32(s[8..12]), kind, enc, comp))
  }

  lemma DecodeOfEncode(r: BlockRec)
    ensures Decode(Encode(r)) == Ok(r)
  {
    hide PackFlags, UnpackFlags, Read32, LE32;
    var s := Encode(r);
    assert s[0..4] == LE32(r.chunkId) && s[4..8] == LE32(r.offset) && s[8..12] == LE32(r.len);
    Read32OfLE32(r.chunkId);
    Read32OfLE32(r.offset);
    Read32OfLE32(r.len);
    assert s[12] == FlagByte(PackFlags(r));
    assert s[12] as bv8 == PackFlags(r);
    UnpackOfPack(r);
  }

  // ----- the file -----

  function RecordOffset(lba: nat): nat { HEADER_SIZE + lba * RECORD_SIZE }

  function Header(): (h: seq<Byte>)
    ensures |h| == HEADER_SIZE
  {
    MAGIC + LE32(VERSION) + LE32(RECORD_SIZE) + Zeros(20)
  }

  /** The header fields that `open_or_create` checks. */
  predicate HeaderOk(file: seq<Byte>) {
    && |file| >= HEADER_SIZE
    && file[0..4] == MAGIC
    && Read32(file[4..8]) == VERSION
    && Read32(file[8..12]) == RECORD_SIZE
  }

  predicate WellFormed(file: seq<Byte>) {
    HeaderOk(file) && (|file| - HEADER_SIZE) % RECORD_SIZE == 0
  }

  function Count(file: seq<Byte>): nat
    requires WellFormed(file)
  {
    (|file| - HEADER_SIZE) / RECORD_SIZE
  }

  function RawAt(file: seq<Byte>, lba: nat): (s: seq<Byte>)
    requires RecordOffset(lba + 1) <= |file|
    ensures |s| == RECORD_SIZE
  {
    file[RecordOffset(lba)..RecordOffset(lba + 1)]
  }

  /** The file's meaning: one decoded record per LBA. */
  function Records(file: seq<Byte>): (s: seq<Result<BlockRec, IndexError>>)
    requires WellFormed(file)
    ensures |s| == Count(file)
  {
    seq(Count(file), i requires 0 <= i < Count(file) => Decode(RawAt(file, i)))
  }

  lemma HeaderIsOk()
    ensures WellFormed(Header()) && Records(Header()) == []
  {
    var h := Header();
    assert h[0..4] == MAGIC && h[4..8] == LE32(VERSION) && h[8..12] == LE32(RECORD_SIZE);
    Read32OfLE32(VERSION);
    Read32OfLE32(RECORD_SIZE);
  }

  lemma HeaderSurvives(file: seq<Byte>, file': seq<Byte>)
    requires HeaderOk(file) && |file'| >= HEADER_SIZE
    requires file'[..HEADER_SIZE] == file[..HEADER_SIZE]
    ensures HeaderOk(file')
  {
    assert file'[0..4] == file'[..HEADER_SIZE][0..4] == file[..HEADER_SIZE][0..4] == file[0..4];
    assert file'[4..8] == file'[..HEADER_SIZE][4..8] == file[..HEADER_SIZE][4..8] == file[4..8];
    assert file'[8..12] == file'[..HEADER_SIZE][8..12] == file[..HEADER_SIZE][8..12] == file[8..12];
  }

  lemma WriteKeepsShape(file: seq<Byte>, lba: nat, data: seq<Byte>)
    requires WellFormed(file) && lba <= Count(file) && |data| == RECORD_SIZE
    ensures
      var file' := WriteAt(file, RecordOffset(lba), data);
      WellFormed(file') && Count(file') == if lba == Count(file) then Count(file) + 1 else Count(file)
  {
    var file' := WriteAt(file, RecordOffset(lba), data);
    assert file'[..HEADER_SIZE] == file[..HEADER_SIZE];
    HeaderSurvives(file, file');
    assert |file| == RecordOffset(Count(file));
    assert |file'| == if lba == Count(file) then RecordOffset(lba + 1) else |file|;
  }

  lemma RawAfterWrite(file: seq<Byte>, lba: nat, data: seq<Byte>, i: nat)
    requires RecordOffset(lba) <= |file| && |data| == RECORD_SIZE
    requires i == lba || RecordOffset(i + 1) <= |file|
    ensures
      var file' := WriteAt(file, RecordOffset(lba), data);
      RecordOffset(i + 1) <= |file'| && RawAt(file', i) == if i == lba then data else RawAt(file, i)
  {
    var file' := WriteAt(file, RecordOffset(lba), data);
    if i == lba {
      assert RawAt(file', i) == data;
    } else {
      assert RecordOffset(i + 1) <= RecordOffset(lba) || RecordOffset(lba + 1) <= RecordOffset(i);
      assert RawAt(file', i) == RawAt(file, i);
    }
  }

  /** Writing record `lba`, at or below the end, sets exactly that element. */
  lemma WriteSetsRecord(file: seq<Byte>, lba: nat, r: BlockRec)
    requires WellFormed(file) && lba <= Count(file)
    ensures
      var file' := WriteAt(file, RecordOffset(lba), Encode(r));
      WellFormed(file') &&
      Records(file') == if lba == Count(file) then Records(file) + [Ok(r)] else Records(file)[lba := Ok(r)]
  {
    WriteKeepsShape(file, lba, Encode(r));
    DecodeOfEncode(r);
    forall i | 0 <= i < Count(file) || i == lba {
      RawAfterWrite(file, lba, Encode(r), i);
    }
  }

  lemma DecodeOfZeros()
    ensures Decode(Zeros(RECORD_SIZE)) == Ok(DEFAULT_RECORD)
  {
    var z := Zeros(RECORD_SIZE);
    assert z[0..4] == Zeros(4) && z[4..8] == Zeros(4) && z[8..12] == Zeros(4);
    DecodeZeros(4);
  }

  /**
    Setting the length to `n` records keeps the first `n`; asking for more than there are
    appends default data records, the decoding of the hole.
   */
  lemma TruncateKeepsPrefix(file: seq<Byte>, n: nat)
    requires WellFormed(file)
    ensures
      var file' := SetLen(file, RecordOffset(n));
      WellFormed(file') && |Records(file')| == n &&
      forall i :: 0 <= i < n ==>
        Records(file')[i] == if i < Count(file) then Records(file)[i]
                             else Ok(DEFAULT_RECORD)
  {
    var file' := SetLen(file, RecordOffset(n));
    assert file'[..HEADER_SIZE] == file[..HEADER_SIZE];
    HeaderSurvives(file, file');
    forall i | 0 <= i < n
      ensures Records(file')[i] == if i < Count(file) then Records(file)[i]
                                   else Ok(DEFAULT_RECORD)
    {
      if i < Count(file) {
        assert RawAt(file', i) == RawAt(file, i);
      } else {
        assert RawAt(file', i) == Zeros(RECORD_SIZE);
        DecodeOfZeros();
      }
    }
  }

  lemma ChunkIsRecord(file: seq<Byte>, lba: nat, n: nat, i: nat)
    requires i < n && RecordOffset(lba + n) <= |file|
    ensures ReadAt(file, RecordOffset(lba), n * RECORD_SIZE)[i * RECORD_SIZE..(i + 1) * RECORD_SIZE] == RawAt(file, lba + i)
  {
    SliceOfSlice(file, RecordOffset(lba), RecordOffset(lba + n), i * RECORD_SIZE, (i + 1) * RECORD_SIZE);
  }

  method DecodeChunks(buf: seq<Byte>, n: nat) returns (out: seq<Result<BlockRec, IndexError>>)
    requires |buf| == n * RECORD_SIZE
    ensures |out| == n
    ensures forall i :: 0 <= i < n ==> out[i] == Decode(buf[i * RECORD_SIZE..(i + 1) * RECORD_SIZE])
  {
    hide Decode;
    out := [];
    for i := 0 to n
      invariant |out| == i
      invariant forall k :: 0 <= k < i ==> out[k] == Decode(buf[k * RECORD_SIZE..(k + 1) * RECORD_SIZE])
    {
      out := out + [Decode(buf[i * RECORD_SIZE..(i + 1) * RECORD_SIZE])];
    }
  }

  lemma {:induction false} WrapKeepsRecords(n: nat)
    ensures Wrap64(n * RECORD_SIZE) % RECORD_SIZE == 0
  {
    var q := n * RECORD_SIZE / U64_LIMIT;
    var m: int := n - q * (U64_LIMIT / RECORD_SIZE);
    assert Wrap64(n * RECORD_SIZE) == m * RECORD_SIZE;
  }

  /** The bytes `read_run` reads.  The bound, the offset and the length are unchecked 64-bit sums and products. */
  function RunBuffer(file: seq<Byte>, lba: U64, n: U64): (r: Result<seq<Byte>, IndexError>)
    requires WellFormed(file)
    ensures r.Ok? ==> |r.value| % RECORD_SIZE == 0
  {
    if Wrap64(lba + n) > Count(file) then Err(InvalidOp)
    else
      var len := Wrap64(n * RECORD_SIZE);
      WrapKeepsRecords(n);
      var s := ReadAt(file, Wrap64(RecordOffset(lba)), len);
      if |s| < len then Err(Io) else Ok(s)
  }

  /** While address plus count does not wrap, that is the run, exactly if it lies below the end. */
  lemma RunBufferIs(file: seq<Byte>, lba: U64, n: U64)
    requires WellFormed(file) && |file| < U64_LIMIT && lba + n < U64_LIMIT
    ensures RunBuffer(file, lba, n).Ok? <==> lba + n <= Count(file)
    ensures lba + n <= Count(file) ==> RunBuffer(file, lba, n) == Ok(ReadAt(file, RecordOffset(lba), n * RECORD_SIZE))
    ensures lba + n <= Count(file) ==> RunBuffer(file, lba, n).value == file[RecordOffset(lba)..RecordOffset(lba + n)]
  {
    hide WellFormed, ReadAt;
    assert |file| == RecordOffset(Count(file)) by { CountedLength(file); }
    if lba + n <= Count(file) { InFile(file, lba, n); }
  }

  lemma CountedLength(file: seq<Byte>)
    requires WellFormed(file)
    ensures |file| == RecordOffset(Count(file))
  {
  }

  lemma InFile(file: seq<Byte>, lba: nat, n: nat)
    requires RecordOffset(lba + n) <= |file|
    ensures ReadAt(file, RecordOffset(lba), n * RECORD_SIZE) == file[RecordOffset(lba)..RecordOffset(lba + n)]
    ensures |ReadAt(file, RecordOffset(lba), n * RECORD_SIZE)| == n * RECORD_SIZE
  {
  }

  /** When it wraps the bound is no bound: the last address and a count of one read the header as a record. */
  lemma WrappedRunReadsHeader(file: seq<Byte>)
    requires WellFormed(file)
    ensures RunBuffer(file, U64_LIMIT - 1, 1) == Ok(file[16..32])
  {
    assert RecordOffset(U64_LIMIT - 1) == 15 * U64_LIMIT + (U64_LIMIT + 16);
    WrapShift(U64_LIMIT + 16, 15);
  }

  class BlockIndexFile {
    var file: seq<Byte>
    var nextLba: nat

    ghost predicate Valid()
      reads this
    {
      WellFormed(file) && nextLba == Count(file)
    }

    ghost function Contents(): seq<Result<BlockRec, IndexError>>
      reads this
      requires Valid()
    {
      Records(file)
    }

    constructor (bytes: seq<Byte>)
      requires WellFormed(bytes)
      ensures Valid() && file == bytes
    {
      file := bytes;
      nextLba := (|bytes| - HEADER_SIZE) / RECORD_SIZE;
    }

    /** Open what is on disk: create on empty, refuse anything that is not a whole index. */
    static method OpenOrCreate(disk: seq<Byte>) returns (r: Result<BlockIndexFile, IndexError>)
      ensures r.Ok? <==> disk == [] || WellFormed(disk)
      ensures r.Ok? ==> fresh(r.value) && r.value.Valid()
      ensures r.Ok? ==> r.value.Contents() == if disk == [] then [] else Records(disk)
    {
      if |disk| == 0 {
        HeaderIsOk();
        var f := new BlockIndexFile(Header());
        return Ok(f);
      }
      if |disk| < HEADER_SIZE { return Err(InvalidOp); }
      if disk[0..4] != MAGIC { return Err(InvalidOp); }
      if Read32(disk[4..8]) != VERSION { return Err(InvalidOp); }
      if Read32(disk[8..12]) != RECORD_SIZE { return Err(InvalidOp); }
      if (|disk| - HEADER_SIZE) % RECORD_SIZE != 0 { return Err(InvalidOp); }
      var f := new BlockIndexFile(disk);
      return Ok(f);
    }

    method Append(rec: BlockRec) returns (lba: nat)
      requires Valid()
      modifies this
      ensures Valid()
      ensures lba == |old(Contents())|
      ensures Contents() == old(Contents()) + [Ok(rec)]
    {
      lba := nextLba;
      WriteSetsRecord(file, lba, rec);
      file := WriteAt(file, RecordOffset(lba), Encode(rec));
      nextLba := lba + 1;
    }

    method Overwrite(lba: nat, rec: BlockRec) returns (r: Result<(), IndexError>)
      requires Valid()
      modifies this
      ensures Valid()
      ensures r.Ok? <==> lba < |old(Contents())|
      ensures Contents() == if r.Ok? then old(Contents())[lba := Ok(rec)] else old(Contents())
    {
      if lba >= nextLba { return Err(InvalidOp); }
      WriteSetsRecord(file, lba, rec);
      file := WriteAt(file, RecordOffset(lba), Encode(rec));
      return Ok(());
    }

    method Read(lba: nat) returns (r: Result<BlockRec, IndexError>)
      requires Valid()
      ensures r == if lba < |Contents()| then Contents()[lba] else Err(InvalidOp)
    {
      if lba >= nextLba { return Err(InvalidOp); }
      var buf := ReadAt(file, RecordOffset(lba), RECORD_SIZE);
      assert buf == RawAt(file, lba);
      r := Decode(buf);
    }

    /** One read for the whole run; each element is what `Read` returns at that LBA. */
    method ReadRun(lba: U64, n: U64) returns (r: Result<seq<Result<BlockRec, IndexError>>, IndexError>)
      requires Valid()
      ensures lba + n < U64_LIMIT && |file| < U64_LIMIT ==>
        (r.Ok? <==> lba + n <= |Contents()|) && (r.Ok? ==> r.value == Contents()[lba..lba + n])
    {
      hide Decode, RunBuffer, Read32;
      var buf := RunBuffer(file, lba, n);
      if lba + n < U64_LIMIT && |file| < U64_LIMIT { RunBufferIs(file, lba, n); }
      if buf.Err? { return Err(buf.error); }
      var out := DecodeChunks(buf.value, |buf.value| / RECORD_SIZE);
      r := Ok(out);
      if lba + n < U64_LIMIT && |file| < U64_LIMIT {
        forall i | 0 <= i < n
          ensures out[i] == Contents()[lba + i]
        {
          ChunkIsRecord(file, lba, n, i);
        }
      }
    }

    method TruncateTo(newNextLba: nat)
      requires Valid()
      modifies this
      ensures Valid() && |Contents()| == newNextLba
      ensures newNextLba <= |old(Contents())| ==> Contents() == old(Contents())[..newNextLba]
      ensures forall i :: |old(Contents())| <= i < newNextLba ==>
        Contents()[i] == Ok(DEFAULT_RECORD)
    {
      TruncateKeepsPrefix(file, newNextLba);
      file := SetLen(file, RecordOffset(newNextLba));
      nextLba := newNextLba;
    }
  }

  // ----- whole runs -----

  datatype Op = Append(rec: BlockRec) | Overwrite(lba: nat, rec: BlockRec) | Truncate(n: nat) | Reopen

  /** The byte file after one operation, as the methods above change it. */
  function FileStep(file: seq<Byte>, op: Op): seq<Byte>
    requires WellFormed(file)
  {
    match op
    case Append(rec) => WriteAt(file, RecordOffset(Count(file)), Encode(rec))
    case Overwrite(lba, rec) => if lba < Count(file) then WriteAt(file, RecordOffset(lba), Encode(rec)) else file
    case Truncate(n) => SetLen(file, RecordOffset(n))
    case Reopen => file
  }

  /** The same operation on a plain sequence of records. */
  function SeqStep(recs: seq<BlockRec>, op: Op): seq<BlockRec> {
    match op
    case Append(rec) => recs + [rec]
    case Overwrite(lba, rec) => if lba < |recs| then recs[lba := rec] else recs
    // asking for more records than there are appends the default data record
    case Truncate(n) => seq(n, i requires 0 <= i < n => if i < |recs| then recs[i] else DEFAULT_RECORD)
    case Reopen => recs
  }

  function SeqRun(recs: seq<BlockRec>, ops: seq<Op>): seq<BlockRec>
    decreases |ops|
  {
    if ops == [] then recs else SeqRun(SeqStep(recs, ops[0]), ops[1..])
  }

  ghost predicate Represents(file: seq<Byte>, recs: seq<BlockRec>) {
    && WellFormed(file)
    && Count(file) == |recs|
    && forall i :: 0 <= i < |recs| ==> Records(file)[i] == Ok(recs[i])
  }

  lemma StepRefines(file: seq<Byte>, recs: seq<BlockRec>, op: Op)
    requires Represents(file, recs)
    ensures Represents(FileStep(file, op), SeqStep(recs, op))
  {
    match op {
      case Append(rec) => WriteSetsRecord(file, Count(file), rec);
      case Overwrite(lba, rec) => if lba < Count(file) { WriteSetsRecord(file, lba, rec); }
      case Truncate(n) => TruncateKeepsPrefix(file, n);
      case Reopen =>
    }
  }

  ghost function FileRun(file: seq<Byte>, ops: seq<Op>): seq<Byte>
    decreases |ops|
  {
    if ops == [] || !WellFormed(file) then file else FileRun(FileStep(file, ops[0]), ops[1..])
  }

  /** Over any run the byte file is exactly the sequence of records the run describes. */
  lemma {:induction false} RunRefines(file: seq<Byte>, recs: seq<BlockRec>, ops: seq<Op>)
    requires Represents(file, recs)
    ensures Represents(FileRun(file, ops), SeqRun(recs, ops))
    decreases |ops|
  {
    if ops != [] {
      StepRefines(file, recs, ops[0]);
      RunRefines(FileStep(file, ops[0]), SeqStep(recs, ops[0]), ops[1..]);
    }
  }
}
