/**
  The page index file `pages.idx`: a 64-byte header and one 64-byte slot per page id.
  The bytes refine a map from page id to (chunk hash, IV salt).
*/
module PageIndex {
  import opened Bytes

  const HEADER_SIZE: nat := 64
  const RECORD_SIZE: nat := 64
  const MAGIC: seq<Byte> := [0x43, 0x52, 0x50, 0x49] // "CRPI"
  const SCHEMA_VERSION: U32 := 2
  const MIN_READABLE_VERSION: U32 := 1
  const SALT_OFFSET: nat := 40
  const BUFFER_SIZE: nat := 65536

  type Hash = h: seq<Byte> | |h| == 32 witness Zeros(32)
  datatype PageEntry = PageEntry(hash: Hash, ivSalt: U64)

  datatype IndexError = UnexpectedEof | BadMagic | SchemaMismatch | RecordSizeMismatch | UuidMismatch | PageSizeMismatch

  // ----- slots -----

  function SlotOffset(p: nat): nat { HEADER_SIZE + p * RECORD_SIZE }

  function EncodeEntry(e: PageEntry): (s: seq<Byte>)
    ensures |s| == RECORD_SIZE
  {
    e.hash + [1] + Zeros(7) + LE64(e.ivSalt) + Zeros(16)
  }

  /** Bit 0 of the flag byte is the allocated flag; the other bits are ignored. */
  function DecodeSlot(s: seq<Byte>): Option<PageEntry>
    requires |s| == RECORD_SIZE
  {
    if s[32] % 2 == 0 then None
    else Some(PageEntry(s[0..32], Read64(s[SALT_OFFSET..SALT_OFFSET + 8])))
  }

  lemma DecodeOfEncodeEntry(e: PageEntry)
    ensures DecodeSlot(EncodeEntry(e)) == Some(e)
  {
    var s := EncodeEntry(e);
    assert s[0..32] == e.hash && s[SALT_OFFSET..SALT_OFFSET + 8] == LE64(e.ivSalt);
    Read64OfLE64(e.ivSalt);
  }

  /** A record written before salts existed has a zero tail and so reads as salt 0. */
  lemma LegacySaltIsZero(s: seq<Byte>)
    requires |s| == RECORD_SIZE && DecodeSlot(s).Some?
    requires s[SALT_OFFSET..SALT_OFFSET + 8] == Zeros(8)
    ensures DecodeSlot(s).value.ivSalt == 0
  {
    DecodeZeros(8);
  }

  /** `get_entry`: a short read is a hole. */
  function GetEntry(file: seq<Byte>, p: nat): Option<PageEntry> {
    var s := ReadAt(file, SlotOffset(p), RECORD_SIZE);
    if |s| < RECORD_SIZE then None else DecodeSlot(s)
  }

  function Entries(file: seq<Byte>): (m: map<PageId, PageEntry>)
    ensures forall p: PageId :: p in m <==> GetEntry(file, p).Some?
    ensures forall p: PageId :: p in m ==> m[p] == GetEntry(file, p).value
  {
    map p: PageId | 0 <= p < |file| && GetEntry(file, p).Some? :: GetEntry(file, p).value
  }

  predicate Aligned(file: seq<Byte>) {
    |file| >= HEADER_SIZE && (|file| - HEADER_SIZE) % RECORD_SIZE == 0
  }

  /** The file ends inside slot `p`, past an allocated flag. */
  predicate TornAllocated(file: seq<Byte>, p: nat) {
    SlotOffset(p) + 32 < |file| < SlotOffset(p + 1) && file[SlotOffset(p) + 32] % 2 == 1
  }

  lemma SlotsDisjoint(p: nat, q: nat)
    requires p < q
    ensures SlotOffset(p + 1) <= SlotOffset(q)
  {
  }

  lemma GetOwnSlot(file: seq<Byte>, p: nat, rec: seq<Byte>)
    requires |rec| == RECORD_SIZE
    ensures GetEntry(WriteAt(file, SlotOffset(p), rec), p) == DecodeSlot(rec)
  {
    ReadOwnWrite(file, SlotOffset(p), rec);
  }

  lemma SlotZeroFilled(file: seq<Byte>, n: nat, p: nat)
    requires SlotOffset(p + 1) <= n && |file| < SlotOffset(p + 1)
    ensures GetEntry(SetLen(file, n), p).Some? <==> TornAllocated(file, p)
  {
    var file' := SetLen(file, n);
    var s := ReadAt(file', SlotOffset(p), RECORD_SIZE);
    assert s == file'[SlotOffset(p)..SlotOffset(p + 1)];
    assert s[32] == file'[SlotOffset(p) + 32];
  }

  /**
    A record write touches no other page, with one exact exception: growing the file past
    a torn last record turns that record's hole back into an entry.
   */
  lemma GetOtherSlot(file: seq<Byte>, q: nat, rec: seq<Byte>, p: nat)
    requires |rec| == RECORD_SIZE && p != q
    ensures GetEntry(WriteAt(file, SlotOffset(q), rec), p) == GetEntry(file, p)
            <==> !(p < q && TornAllocated(file, p))
  {
    var file' := WriteAt(file, SlotOffset(q), rec);
    if p < q { SlotsDisjoint(p, q); } else { SlotsDisjoint(q, p); }
    if SlotOffset(p + 1) <= |file| {
      ReadOtherRange(file, SlotOffset(q), rec, SlotOffset(p), RECORD_SIZE);
    } else if p < q {
      var grown := SetLen(file, SlotOffset(q));
      SlotZeroFilled(file, SlotOffset(q), p);
      assert ReadAt(file', SlotOffset(p), RECORD_SIZE) == ReadAt(grown, SlotOffset(p), RECORD_SIZE);
    }
  }

  /** The slot the file ends in, if it ends inside one. */
  function LastSlot(file: seq<Byte>): (t: nat)
    requires |file| >= HEADER_SIZE
    ensures SlotOffset(t) <= |file| < SlotOffset(t + 1)
  {
    (|file| - HEADER_SIZE) / RECORD_SIZE
  }

  /** A torn last record that would be an entry if the file grew over it. */
  function Torn(file: seq<Byte>): Option<(nat, PageEntry)>
    requires |file| >= HEADER_SIZE
  {
    var t := LastSlot(file);
    match GetEntry(SetLen(file, SlotOffset(t + 1)), t)
    case None => None
    case Some(e) => Some((t, e))
  }

  lemma AlignedIsNotTorn(file: seq<Byte>)
    requires Aligned(file)
    ensures Torn(file) == None
  {
    SlotZeroFilled(file, SlotOffset(LastSlot(file) + 1), LastSlot(file));
  }

  /** What a record write does to another page, exactly. */
  lemma OtherSlotIs(file: seq<Byte>, q: nat, rec: seq<Byte>, p: nat)
    requires |file| >= HEADER_SIZE && |rec| == RECORD_SIZE && p != q
    ensures GetEntry(WriteAt(file, SlotOffset(q), rec), p) ==
      if Torn(file).Some? && Torn(file).value.0 == p && p < q then Some(Torn(file).value.1) else GetEntry(file, p)
  {
    var file' := WriteAt(file, SlotOffset(q), rec);
    var t := LastSlot(file);
    if p < q { SlotsDisjoint(p, q); } else { SlotsDisjoint(q, p); }
    if p < t { SlotsDisjoint(p, t); } else if t < p { SlotsDisjoint(t, p); }
    if SlotOffset(p + 1) <= |file| || q < p {
      GetOtherSlot(file, q, rec, p);
    } else if p == t {
      var grown := SetLen(file, SlotOffset(t + 1));
      assert ReadAt(file', SlotOffset(t), RECORD_SIZE) == ReadAt(grown, SlotOffset(t), RECORD_SIZE);
    } else {
      GetOtherSlot(file, q, rec, p);
    }
  }

  /** A write at or past a torn record leaves none; before it, the record stays torn. */
  lemma TornAfterWrite(file: seq<Byte>, q: nat, rec: seq<Byte>)
    requires |file| >= HEADER_SIZE && |rec| == RECORD_SIZE
    ensures
      var file' := WriteAt(file, SlotOffset(q), rec);
      |file'| >= HEADER_SIZE && file'[..HEADER_SIZE] == file[..HEADER_SIZE] &&
      Torn(file') == if Torn(file).Some? && Torn(file).value.0 <= q then None else Torn(file)
  {
    var file' := WriteAt(file, SlotOffset(q), rec);
    var t := LastSlot(file);
    assert |file'| == Max(|file|, SlotOffset(q + 1));
    assert file'[..HEADER_SIZE] == file[..HEADER_SIZE];
    if q < t {
      SlotsDisjoint(q, t);
      assert LastSlot(file') == t;
      var a, b := SetLen(file, SlotOffset(t + 1)), SetLen(file', SlotOffset(t + 1));
      assert ReadAt(a, SlotOffset(t), RECORD_SIZE) == ReadAt(b, SlotOffset(t), RECORD_SIZE);
    } else {
      if t < q { SlotsDisjoint(t, q); }
      assert |file'| == SlotOffset(q + 1) && Aligned(file');
      AlignedIsNotTorn(file');
    }
  }

  // ----- the table a file holds -----

  /** The entries, and the record a torn tail would bring back. */
  datatype Table = Table(entries: map<PageId, PageEntry>, torn: Option<(nat, PageEntry)>)
  {
    /** Growing the file over the torn record makes it an entry. */
    function Grown(q: PageId): map<PageId, PageEntry> {
      if torn.Some? && torn.value.0 < q then entries[torn.value.0 := torn.value.1] else entries
    }

    function TornPast(q: PageId): Option<(nat, PageEntry)> {
      if torn.Some? && torn.value.0 <= q then None else torn
    }

    function Set(q: PageId, e: PageEntry): Table { Table(Grown(q)[q := e], TornPast(q)) }

    function Clear(q: PageId): Table { Table(Grown(q) - {q}, TornPast(q)) }

    function Truncate(from: PageId): Table {
      Table(map p | p in entries && p < from :: entries[p],
            if torn.Some? && from <= torn.value.0 then None else torn)
    }
  }

  function TableOf(file: seq<Byte>): Table
    requires |file| >= HEADER_SIZE
  {
    Table(Entries(file), Torn(file))
  }

  function Lookup(m: map<PageId, PageEntry>, p: PageId): Option<PageEntry> {
    if p in m then Some(m[p]) else None
  }

  lemma EntriesAre(file: seq<Byte>, m: map<PageId, PageEntry>)
    requires forall p: PageId :: GetEntry(file, p) == Lookup(m, p)
    ensures Entries(file) == m
  {
    hide GetEntry;
    forall p: PageId
      ensures p in Entries(file) <==> p in m
      ensures p in m ==> Entries(file)[p] == m[p]
    {
      assert GetEntry(file, p) == Lookup(m, p);
    }
  }

  lemma OtherSlotGrown(file: seq<Byte>, q: PageId, rec: seq<Byte>, p: PageId)
    requires |file| >= HEADER_SIZE && |rec| == RECORD_SIZE && p != q
    ensures GetEntry(WriteAt(file, SlotOffset(q), rec), p) == Lookup(TableOf(file).Grown(q), p)
  {
    hide GetEntry, WriteAt, Torn;
    OtherSlotIs(file, q, rec, p);
  }

  /** The entries after a write, given what the written record decodes to. */
  function Entered(t: Table, q: PageId, e: Option<PageEntry>): Table {
    match e
    case None => t.Clear(q)
    case Some(v) => t.Set(q, v)
  }

  lemma TableWritten(file: seq<Byte>, q: PageId, rec: seq<Byte>)
    requires |file| >= HEADER_SIZE && |rec| == RECORD_SIZE
    ensures
      var file' := WriteAt(file, SlotOffset(q), rec);
      && |file'| >= HEADER_SIZE && file'[..HEADER_SIZE] == file[..HEADER_SIZE]
      && TableOf(file') == Entered(TableOf(file), q, DecodeSlot(rec))
  {
    hide GetEntry, DecodeSlot, WriteAt, Torn, Entries;
    var file' := WriteAt(file, SlotOffset(q), rec);
    GetOwnSlot(file, q, rec);
    TornAfterWrite(file, q, rec);
    var m := Entered(TableOf(file), q, DecodeSlot(rec)).entries;
    forall p: PageId
      ensures GetEntry(file', p) == Lookup(m, p)
    {
      if p != q { OtherSlotGrown(file, q, rec, p); }
    }
    EntriesAre(file', m);
  }

  lemma AlignedWrite(file: seq<Byte>, q: PageId, rec: seq<Byte>)
    requires Aligned(file) && |rec| == RECORD_SIZE
    ensures Aligned(WriteAt(file, SlotOffset(q), rec))
    ensures TableOf(file).Grown(q) == Entries(file)
  {
    AlignedIsNotTorn(file);
    assert |WriteAt(file, SlotOffset(q), rec)| == Max(|file|, SlotOffset(q + 1));
  }

  // ----- header -----

  function Header(version: U32, uuid: Uuid, pageSize: U64): (h: seq<Byte>)
    ensures |h| == HEADER_SIZE
  {
    MAGIC + LE32(version) + LE32(RECORD_SIZE) + Zeros(4) + uuid + LE64(pageSize) + Zeros(24)
  }

  /** The checks made, in order, by `open` and `restore_from`. */
  function CheckHeader(file: seq<Byte>, uuid: Uuid, pageSize: U64): Result<(), IndexError> {
    if |file| < HEADER_SIZE then Err(UnexpectedEof)
    else if file[0..4] != MAGIC then Err(BadMagic)
    else if !(MIN_READABLE_VERSION <= Read32(file[4..8]) <= SCHEMA_VERSION) then Err(SchemaMismatch)
    else if Read32(file[8..12]) != RECORD_SIZE then Err(RecordSizeMismatch)
    else if file[16..32] != uuid then Err(UuidMismatch)
    else if Read64(file[32..40]) != pageSize then Err(PageSizeMismatch)
    else Ok(())
  }

  predicate HeaderOk(file: seq<Byte>, uuid: Uuid, pageSize: U64) {
    CheckHeader(file, uuid, pageSize).Ok? && Read32(file[4..8]) == SCHEMA_VERSION
  }

  lemma HeaderFields(file: seq<Byte>, version: U32, uuid: Uuid, pageSize: U64)
    requires file == Header(version, uuid, pageSize)
    ensures MIN_READABLE_VERSION <= version <= SCHEMA_VERSION ==> CheckHeader(file, uuid, pageSize).Ok?
    ensures Read32(file[4..8]) == version
  {
    hide LE32, LE64, Read32, Read64;
    HeaderSlices(version, uuid, pageSize);
    Read32OfLE32(version);
    Read32OfLE32(RECORD_SIZE);
    Read64OfLE64(pageSize);
    hide Header;
  }

  lemma HeaderSlices(version: U32, uuid: Uuid, pageSize: U64)
    ensures
      var h := Header(version, uuid, pageSize);
      && h[0..4] == MAGIC && h[4..8] == LE32(version) && h[8..12] == LE32(RECORD_SIZE)
      && h[16..32] == uuid && h[32..40] == LE64(pageSize)
  {
    hide LE32, LE64;
  }

  lemma HeaderSurvives(file: seq<Byte>, file': seq<Byte>, uuid: Uuid, pageSize: U64)
    requires HeaderOk(file, uuid, pageSize)
    requires |file'| >= HEADER_SIZE && file'[..HEADER_SIZE] == file[..HEADER_SIZE]
    ensures HeaderOk(file', uuid, pageSize)
  {
    var a, b := file[..HEADER_SIZE], file'[..HEADER_SIZE];
    assert file'[0..4] == b[0..4] == a[0..4] == file[0..4];
    assert file'[4..8] == b[4..8] == a[4..8] == file[4..8];
    assert file'[8..12] == b[8..12] == a[8..12] == file[8..12];
    assert file'[16..32] == b[16..32] == a[16..32] == file[16..32];
    assert file'[32..40] == b[32..40] == a[32..40] == file[32..40];
  }

  /** `open` restamps a version 1 file as version 2 and touches nothing else. */
  function Migrate(file: seq<Byte>): (s: seq<Byte>)
    requires |file| >= HEADER_SIZE
    ensures |s| == |file|
  {
    if Read32(file[4..8]) < SCHEMA_VERSION then WriteAt(file, 4, LE32(SCHEMA_VERSION)) else file
  }

  lemma MigrateKeepsEntries(file: seq<Byte>, uuid: Uuid, pageSize: U64)
    requires CheckHeader(file, uuid, pageSize).Ok?
    ensures HeaderOk(Migrate(file), uuid, pageSize)
    ensures TableOf(Migrate(file)) == TableOf(file)
    ensures Migrate(file)[HEADER_SIZE..] == file[HEADER_SIZE..]
  {
    var m := Migrate(file);
    if Read32(file[4..8]) < SCHEMA_VERSION {
      assert m[0..4] == file[0..4] && m[4..8] == LE32(SCHEMA_VERSION) && m[8..12] == file[8..12];
      assert m[16..32] == file[16..32] && m[32..40] == file[32..40];
      Read32OfLE32(SCHEMA_VERSION);
    }
    assert m[HEADER_SIZE..] == file[HEADER_SIZE..];
    hide Migrate, TableOf, CheckHeader;
    SameBodySameTable(m, file);
  }

  // ----- ascending listing -----

  function SlotCount(file: seq<Byte>): nat {
    if |file| < HEADER_SIZE then 0 else Min((|file| - HEADER_SIZE) / RECORD_SIZE, U32_LIMIT)
  }

  lemma SlotCountBounds(file: seq<Byte>, p: nat)
    requires p < U32_LIMIT
    ensures p < SlotCount(file) <==> SlotOffset(p + 1) <= |file|
  {
  }

  /** Allocated pages at or above `k`, in ascending order. */
  function ListFrom(file: seq<Byte>, k: nat): seq<(PageId, Hash)>
    decreases SlotCount(file) - k
  {
    if k >= SlotCount(file) then []
    else match GetEntry(file, k)
      case None => ListFrom(file, k + 1)
      case Some(e) => [(k, e.hash)] + ListFrom(file, k + 1)
  }

  lemma ListFromStep(file: seq<Byte>, k: nat)
    requires k < SlotCount(file)
    ensures
      var s := ReadAt(file, SlotOffset(k), RECORD_SIZE);
      |s| == RECORD_SIZE &&
      ListFrom(file, k) == if s[32] % 2 == 0 then ListFrom(file, k + 1) else [(k, s[0..32])] + ListFrom(file, k + 1)
  {
    SlotCountBounds(file, k);
  }

  lemma NoEntryPastCount(file: seq<Byte>, p: PageId)
    requires p >= SlotCount(file)
    ensures GetEntry(file, p).None?
  {
    SlotCountBounds(file, p);
  }

  lemma ListEndsAtLimit(file: seq<Byte>, k: nat)
    requires k >= U32_LIMIT
    ensures ListFrom(file, k) == []
  {
  }

  /** The listing holds every allocated page from `k` on, each once, in order, with its hash. */
  lemma {:induction false} ListFromIsComplete(file: seq<Byte>, k: nat)
    ensures forall p: PageId :: p >= k && p in Entries(file) ==> (p, Entries(file)[p].hash) in ListFrom(file, k)
    ensures forall x :: x in ListFrom(file, k) ==> x.0 >= k && x.0 in Entries(file) && Entries(file)[x.0].hash == x.1
    ensures forall i, j :: 0 <= i < j < |ListFrom(file, k)| ==> ListFrom(file, k)[i].0 < ListFrom(file, k)[j].0
    decreases SlotCount(file) - k
  {
    hide GetEntry;
    if k < SlotCount(file) {
      ListFromIsComplete(file, k + 1);
      var rest := ListFrom(file, k + 1);
      if GetEntry(file, k).Some? {
        assert ListFrom(file, k) == [(k, GetEntry(file, k).value.hash)] + rest;
        assert forall x :: x in rest ==> x in ListFrom(file, k);
      }
    } else {
      forall p: PageId | p >= k
        ensures p !in Entries(file)
      {
        NoEntryPastCount(file, p);
      }
    }
  }

  // ----- the file object -----

  class PageIndexFile {
    var file: seq<Byte>
    const uuid: Uuid
    const pageSize: U64

    ghost predicate Valid()
      reads this
    {
      HeaderOk(file, uuid, pageSize)
    }

    ghost function Map(): map<PageId, PageEntry>
      reads this
    {
      Entries(file)
    }

    ghost function Table(): Table
      reads this
      requires Valid()
    {
      TableOf(file)
    }

    constructor Bind(bytes: seq<Byte>, u: Uuid, ps: U64)
      ensures file == bytes && uuid == u && pageSize == ps
    {
      file := bytes;
      uuid := u;
      pageSize := ps;
    }

    constructor Create(u: Uuid, ps: U64)
      ensures Valid() && uuid == u && pageSize == ps && Map() == map[]
    {
      file := Header(SCHEMA_VERSION, u, ps);
      uuid := u;
      pageSize := ps;
      HeaderFields(Header(SCHEMA_VERSION, u, ps), SCHEMA_VERSION, u, ps);
    }

    /** Refuse a foreign header; otherwise the opened index holds exactly the entries on disk. */
    static method Open(disk: seq<Byte>, u: Uuid, ps: U64) returns (r: Result<PageIndexFile, IndexError>)
      ensures r.Err? <==> CheckHeader(disk, u, ps).Err?
      ensures r.Err? ==> r.error == CheckHeader(disk, u, ps).error
      ensures r.Ok? ==> fresh(r.value) && r.value.uuid == u && r.value.pageSize == ps
      ensures r.Ok? ==> r.value.Valid() && r.value.Map() == Entries(disk) && r.value.Table() == TableOf(disk)
    {
      var check := CheckHeader(disk, u, ps);
      if check.Err? { return Err(check.error); }
      MigrateKeepsEntries(disk, u, ps);
      var idx := new PageIndexFile.Bind(Migrate(disk), u, ps);
      return Ok(idx);
    }

    method Get(p: PageId) returns (r: Option<PageEntry>)
      ensures r == if p in Map() then Some(Map()[p]) else None
    {
      r := GetEntry(file, p);
    }

    method SetUnsyncedSalted(p: PageId, e: PageEntry)
      requires Valid()
      modifies this
      ensures Valid() && Table() == old(Table()).Set(p, e)
      ensures old(Aligned(file)) ==> Aligned(file) && Map() == old(Map())[p := e]
      ensures file[..HEADER_SIZE] == old(file[..HEADER_SIZE])
    {
      BindSlot(file, p, e, uuid, pageSize);
      file := WriteAt(file, SlotOffset(p), EncodeEntry(e));
    }

    method ClearUnsynced(p: PageId)
      requires Valid()
      modifies this
      ensures Valid() && Table() == old(Table()).Clear(p)
      ensures old(Aligned(file)) ==> Aligned(file) && Map() == old(Map()) - {p}
      ensures file[..HEADER_SIZE] == old(file[..HEADER_SIZE])
    {
      ZeroSlot(file, p, uuid, pageSize);
      file := WriteAt(file, SlotOffset(p), Zeros(RECORD_SIZE));
    }

    /** Only ever shrinks the file: every page at or above the boundary becomes a hole. */
    method TruncateFrom(from: PageId)
      requires Valid()
      modifies this
      ensures Valid() && Table() == old(Table()).Truncate(from)
      ensures |file| <= |old(file)| && (old(Aligned(file)) ==> Aligned(file))
    {
      var boundary := SlotOffset(from);
      if boundary < |file| {
        CutSlots(file, from, uuid, pageSize);
        file := SetLen(file, boundary);
      } else {
        NothingPastEnd(file, from);
      }
    }

    /** Replace the body by a snapshot's, 64 KiB at a time, keeping this file's own header. */
    method RestoreFrom(snapshot: seq<Byte>) returns (r: Result<(), IndexError>)
      requires Valid()
      modifies this
      ensures r == CheckHeader(snapshot, uuid, pageSize)
      ensures r.Err? ==> file == old(file)
      ensures r.Ok? ==> file == old(file[..HEADER_SIZE]) + snapshot[HEADER_SIZE..]
      ensures Valid() && (r.Ok? ==> Table() == TableOf(snapshot))
    {
      r := CheckHeader(snapshot, uuid, pageSize);
      if r.Err? { return; }
      file := CopyBody(file, snapshot);
      RestoredEntries(old(file), snapshot, uuid, pageSize);
    }

    method HighestAllocatedPage() returns (r: Option<PageId>)
      ensures r.None? <==> Map() == map[]
      ensures r.Some? ==> r.value in Map() && forall p :: p in Map() ==> p <= r.value
    {
      var it := new PageIndexIter(this);
      r := None;
      LastListedIsHighest(file);
      hide ListFrom, Entries;
      ghost var all := ListFrom(file, 0);
      ghost var n := 0;
      while true
        invariant it.Valid() && it.index == this && fresh(it)
        invariant 0 <= n <= |all| && it.Remaining() == all[n..]
        invariant r == if n == 0 then None else Some(all[n - 1].0)
        decreases |all| - n
      {
        var next := it.Next();
        if next.None? { break; }
        r := Some(next.value.0);
        n := n + 1;
      }
    }
  }

  lemma LastListedIsHighest(file: seq<Byte>)
    ensures
      var all := ListFrom(file, 0);
      if all == [] then Entries(file) == map[]
      else all[|all| - 1].0 in Entries(file) && forall p :: p in Entries(file) ==> p <= all[|all| - 1].0
  {
    hide ListFrom, Entries, GetEntry;
    var all := ListFrom(file, 0);
    ListFromIsComplete(file, 0);
    if all == [] {
      assert forall p: PageId :: p !in Entries(file);
    } else {
      assert all[|all| - 1] in all;
      forall p: PageId | p in Entries(file)
        ensures p <= all[|all| - 1].0
      {
        var i :| 0 <= i < |all| && all[i] == (p, Entries(file)[p].hash);
        assert i < |all| - 1 ==> all[i].0 < all[|all| - 1].0;
      }
    }
  }

  lemma BindSlot(file: seq<Byte>, p: PageId, e: PageEntry, uuid: Uuid, pageSize: U64)
    requires HeaderOk(file, uuid, pageSize)
    ensures
      var file' := WriteAt(file, SlotOffset(p), EncodeEntry(e));
      && HeaderOk(file', uuid, pageSize) && file'[..HEADER_SIZE] == file[..HEADER_SIZE]
      && TableOf(file') == TableOf(file).Set(p, e)
      && (Aligned(file) ==> Aligned(file') && Entries(file') == Entries(file)[p := e])
  {
    hide CheckHeader, GetEntry, Entries, DecodeSlot, Torn, EncodeEntry, WriteAt;
    HeaderIsThere(file, uuid, pageSize);
    TableWritten(file, p, EncodeEntry(e));
    DecodeOfEncodeEntry(e);
    HeaderSurvives(file, WriteAt(file, SlotOffset(p), EncodeEntry(e)), uuid, pageSize);
    if Aligned(file) { AlignedWrite(file, p, EncodeEntry(e)); }
  }

  lemma ZeroSlot(file: seq<Byte>, p: PageId, uuid: Uuid, pageSize: U64)
    requires HeaderOk(file, uuid, pageSize)
    ensures
      var file' := WriteAt(file, SlotOffset(p), Zeros(RECORD_SIZE));
      && HeaderOk(file', uuid, pageSize) && file'[..HEADER_SIZE] == file[..HEADER_SIZE]
      && TableOf(file') == TableOf(file).Clear(p)
      && (Aligned(file) ==> Aligned(file') && Entries(file') == Entries(file) - {p})
  {
    hide CheckHeader, GetEntry, Entries, DecodeSlot, Torn, WriteAt;
    HeaderIsThere(file, uuid, pageSize);
    ZeroRecord();
    TableWritten(file, p, Zeros(RECORD_SIZE));
    HeaderSurvives(file, WriteAt(file, SlotOffset(p), Zeros(RECORD_SIZE)), uuid, pageSize);
    if Aligned(file) { AlignedWrite(file, p, Zeros(RECORD_SIZE)); }
  }

  lemma HeaderIsThere(file: seq<Byte>, uuid: Uuid, pageSize: U64)
    requires HeaderOk(file, uuid, pageSize)
    ensures |file| >= HEADER_SIZE
  {
  }

  lemma ZeroRecord()
    ensures DecodeSlot(Zeros(RECORD_SIZE)) == None
  {
  }

  lemma CutSlots(file: seq<Byte>, from: PageId, uuid: Uuid, pageSize: U64)
    requires HeaderOk(file, uuid, pageSize) && SlotOffset(from) < |file|
    ensures
      var file' := SetLen(file, SlotOffset(from));
      Aligned(file') && HeaderOk(file', uuid, pageSize) && TableOf(file') == TableOf(file).Truncate(from)
  {
    var file' := SetLen(file, SlotOffset(from));
    assert file'[..HEADER_SIZE] == file[..HEADER_SIZE];
    HeaderSurvives(file, file', uuid, pageSize);
    TruncatedEntries(file, from);
    AlignedIsNotTorn(file');
  }

  lemma NothingPastEnd(file: seq<Byte>, from: PageId)
    requires HEADER_SIZE <= |file| <= SlotOffset(from)
    ensures TableOf(file) == TableOf(file).Truncate(from)
  {
    if LastSlot(file) >= from {
      assert |file| == SlotOffset(from);
      AlignedIsNotTorn(file);
    }
    forall p: PageId | p >= from
      ensures p !in Entries(file)
    {
      assert SlotOffset(p + 1) > |file|;
    }
  }

  lemma TruncatedEntries(file: seq<Byte>, from: PageId)
    requires HEADER_SIZE <= SlotOffset(from) <= |file|
    ensures Entries(SetLen(file, SlotOffset(from))) == map p | p in Entries(file) && p < from :: Entries(file)[p]
  {
    var file' := SetLen(file, SlotOffset(from));
    forall p: PageId
      ensures GetEntry(file', p) == if p < from then GetEntry(file, p) else None
    {
      if p < from {
        SlotsDisjoint(p, from);
        assert ReadAt(file', SlotOffset(p), RECORD_SIZE) == ReadAt(file, SlotOffset(p), RECORD_SIZE);
      } else {
        assert SlotOffset(p + 1) > |file'|;
      }
    }
  }

  /** The copy loop of a restore: match the snapshot's length, then copy everything past the header. */
  method CopyBody(live: seq<Byte>, snapshot: seq<Byte>) returns (out: seq<Byte>)
    requires |live| >= HEADER_SIZE && |snapshot| >= HEADER_SIZE
    ensures out == live[..HEADER_SIZE] + snapshot[HEADER_SIZE..]
  {
    var len := |snapshot|;
    out := SetLen(live, len);
    var offset := HEADER_SIZE;
    while offset < len
      invariant HEADER_SIZE <= offset <= len && |out| == len
      invariant forall i :: 0 <= i < offset ==> out[i] == if i < HEADER_SIZE then live[i] else snapshot[i]
    {
      var want := Min(BUFFER_SIZE, len - offset);
      var buf := ReadAt(snapshot, offset, want);
      out := WriteAt(out, offset, buf);
      offset := offset + want;
    }
  }

  lemma RestoredEntries(live: seq<Byte>, snapshot: seq<Byte>, uuid: Uuid, pageSize: U64)
    requires HeaderOk(live, uuid, pageSize) && CheckHeader(snapshot, uuid, pageSize).Ok?
    ensures
      var file := live[..HEADER_SIZE] + snapshot[HEADER_SIZE..];
      HeaderOk(file, uuid, pageSize) && TableOf(file) == TableOf(snapshot)
  {
    var file := live[..HEADER_SIZE] + snapshot[HEADER_SIZE..];
    assert file[..HEADER_SIZE] == live[..HEADER_SIZE];
    assert file[HEADER_SIZE..] == snapshot[HEADER_SIZE..];
    HeaderSurvives(live, file, uuid, pageSize);
    SameBodySameTable(file, snapshot);
  }

  lemma SameBodySameTable(a: seq<Byte>, b: seq<Byte>)
    requires |a| >= HEADER_SIZE && |b| >= HEADER_SIZE && a[HEADER_SIZE..] == b[HEADER_SIZE..]
    ensures TableOf(a) == TableOf(b)
  {
    assert |a| == |b|;
    forall i | HEADER_SIZE <= i < |a|
      ensures a[i] == b[i]
    {
      assert a[i] == a[HEADER_SIZE..][i - HEADER_SIZE];
    }
    forall p: PageId
      ensures GetEntry(a, p) == GetEntry(b, p)
    {
      assert ReadAt(a, SlotOffset(p), RECORD_SIZE) == ReadAt(b, SlotOffset(p), RECORD_SIZE);
    }
    var t := LastSlot(a);
    var a', b' := SetLen(a, SlotOffset(t + 1)), SetLen(b, SlotOffset(t + 1));
    assert ReadAt(a', SlotOffset(t), RECORD_SIZE) == ReadAt(b', SlotOffset(t), RECORD_SIZE);
  }

  /** The streaming iterator: a refillable 64 KiB buffer and a running page id. */
  class PageIndexIter {
    const index: PageIndexFile
    var buf: seq<Byte>      // the bytes of the last read
    var bufConsumed: nat
    var fileOffset: nat
    var nextPageId: nat
    var done: bool

    ghost predicate Valid()
      reads this, index
    {
      done ||
      (&& nextPageId <= U32_LIMIT
       && bufConsumed <= |buf| <= fileOffset - HEADER_SIZE
       && fileOffset - |buf| + bufConsumed == SlotOffset(nextPageId)
       && (|buf| > 0 ==> fileOffset <= |index.file| && buf == index.file[fileOffset - |buf|..fileOffset])
       && (fileOffset % RECORD_SIZE == 0 || fileOffset == |index.file|))
    }

    ghost function Remaining(): seq<(PageId, Hash)>
      reads this, index
    {
      if done then [] else ListFrom(index.file, nextPageId)
    }

    constructor (idx: PageIndexFile)
      ensures Valid() && index == idx && Remaining() == ListFrom(idx.file, 0)
    {
      index := idx;
      buf := [];
      bufConsumed := 0;
      fileOffset := HEADER_SIZE;
      nextPageId := 0;
      done := false;
    }

    /** Read the next 64 KiB; end of file, or a torn last record, ends the iteration. */
    method Refill()
      requires Valid() && !done && bufConsumed + RECORD_SIZE > |buf|
      modifies this
      ensures Valid() && nextPageId == old(nextPageId)
      ensures done ==> ListFrom(index.file, nextPageId) == []
      ensures !done ==> bufConsumed + RECORD_SIZE <= |buf|
    {
      var data := ReadAt(index.file, fileOffset, BUFFER_SIZE);
      if |data| < RECORD_SIZE {
        if nextPageId < U32_LIMIT { SlotCountBounds(index.file, nextPageId); }
        done := true;
        return;
      }
      assert bufConsumed == |buf|;
      buf := data;
      bufConsumed := 0;
      fileOffset := fileOffset + |data|;
    }

    lemma BufferedRecordIsSlot()
      requires Valid() && !done && bufConsumed + RECORD_SIZE <= |buf|
      ensures SlotOffset(nextPageId + 1) <= |index.file|
      ensures buf[bufConsumed..bufConsumed + RECORD_SIZE] == ReadAt(index.file, SlotOffset(nextPageId), RECORD_SIZE)
    {
      var base := fileOffset - |buf|;
      SliceOfSlice(index.file, base, fileOffset, bufConsumed, bufConsumed + RECORD_SIZE);
    }

    /** Consume one buffered record. */
    method TakeRecord() returns (r: Option<(PageId, Hash)>)
      requires Valid() && !done && bufConsumed + RECORD_SIZE <= |buf| && nextPageId < U32_LIMIT
      modifies this`bufConsumed, this`nextPageId
      ensures Valid() && !done && nextPageId == old(nextPageId) + 1
      ensures old(Remaining()) == (if r.Some? then [r.value] else []) + Remaining()
    {
      hide ListFrom, SlotCount, ReadAt;
      BufferedRecordIsSlot();
      SlotCountBounds(index.file, nextPageId);
      ListFromStep(index.file, nextPageId);
      var record := buf[bufConsumed..bufConsumed + RECORD_SIZE];
      var pid: PageId := nextPageId;
      bufConsumed := bufConsumed + RECORD_SIZE;
      nextPageId := nextPageId + 1;
      r := if record[32] % 2 != 0 then Some((pid, record[0..32])) else None;
    }

    /** Yields the remaining allocated pages one by one, in ascending order, skipping holes. */
    method Next() returns (r: Option<(PageId, Hash)>)
      requires Valid()
      modifies this
      ensures Valid()
      ensures old(Remaining()) == [] ==> r.None? && Remaining() == []
      ensures old(Remaining()) != [] ==> r == Some(old(Remaining())[0]) && Remaining() == old(Remaining())[1..]
    {
      hide ListFrom, Valid;
      while true
        invariant Valid() && Remaining() == old(Remaining())
        decreases U32_LIMIT - nextPageId
      {
        if done { return None; }
        if bufConsumed + RECORD_SIZE > |buf| {
          Refill();
          if done { return None; }
        }
        if nextPageId >= U32_LIMIT {
          ListEndsAtLimit(index.file, nextPageId);
          done := true;
          DoneIsValid();
          return None;
        }
        r := TakeRecord();
        if r.Some? { return; }
      }
    }

    lemma DoneIsValid()
      requires done
      ensures Valid()
    {
    }
  }

  // ----- whole runs -----

  datatype Op = Set(p: PageId, e: PageEntry) | Clear(q: PageId) | Truncate(from: PageId) | Restore(snapshot: seq<Byte>) | Reopen

  /** A header that binds to this volume, of either version. */
  ghost predicate Bound(file: seq<Byte>, uuid: Uuid, pageSize: U64) {
    CheckHeader(file, uuid, pageSize).Ok?
  }

  /** Restores use a snapshot of this volume. */
  ghost predicate OpOk(op: Op, uuid: Uuid, pageSize: U64) {
    op.Restore? ==> Bound(op.snapshot, uuid, pageSize)
  }

  /** The byte file after one operation, as the methods above change it. */
  function FileStep(file: seq<Byte>, op: Op): seq<Byte>
    requires |file| >= HEADER_SIZE
    requires op.Restore? ==> |op.snapshot| >= HEADER_SIZE
  {
    match op
    case Set(p, e) => WriteAt(file, SlotOffset(p), EncodeEntry(e))
    case Clear(p) => WriteAt(file, SlotOffset(p), Zeros(RECORD_SIZE))
    case Truncate(from) => if SlotOffset(from) < |file| then SetLen(file, SlotOffset(from)) else file
    case Restore(snapshot) => file[..HEADER_SIZE] + snapshot[HEADER_SIZE..]
    case Reopen => Migrate(file)
  }

  /** The same operation on the table. */
  function TableStep(t: Table, op: Op): Table {
    match op
    case Set(p, e) => t.Set(p, e)
    case Clear(p) => t.Clear(p)
    case Truncate(from) => t.Truncate(from)
    case Restore(snapshot) => if |snapshot| >= HEADER_SIZE then TableOf(snapshot) else t
    case Reopen => t
  }

  /** And on a plain map, for an index that ends on a record boundary. */
  function MapStep(m: map<PageId, PageEntry>, op: Op): map<PageId, PageEntry> {
    match op
    case Set(p, e) => m[p := e]
    case Clear(p) => m - {p}
    case Truncate(from) => map p | p in m && p < from :: m[p]
    case Restore(snapshot) => Entries(snapshot)
    case Reopen => m
  }

  lemma StepRefines(file: seq<Byte>, op: Op, uuid: Uuid, pageSize: U64)
    requires HeaderOk(file, uuid, pageSize) && OpOk(op, uuid, pageSize)
    ensures HeaderOk(FileStep(file, op), uuid, pageSize)
    ensures TableOf(FileStep(file, op)) == TableStep(TableOf(file), op)
  {
    assert |file| >= HEADER_SIZE && (op.Restore? ==> |op.snapshot| >= HEADER_SIZE);
    hide CheckHeader, WriteAt, TableOf, SetLen, Zeros, EncodeEntry;
    match op {
      case Set(p, e) => BindSlot(file, p, e, uuid, pageSize);
      case Clear(p) => ZeroSlot(file, p, uuid, pageSize);
      case Truncate(from) =>
        if SlotOffset(from) < |file| { CutSlots(file, from, uuid, pageSize); } else { NothingPastEnd(file, from); }
      case Restore(snapshot) => RestoredEntries(file, snapshot, uuid, pageSize);
      case Reopen => MigrateKeepsEntries(file, uuid, pageSize);
    }
  }

  ghost function FileRun(file: seq<Byte>, ops: seq<Op>, uuid: Uuid, pageSize: U64): (end: seq<Byte>)
    requires HeaderOk(file, uuid, pageSize)
    requires forall op :: op in ops ==> OpOk(op, uuid, pageSize)
    ensures |end| >= HEADER_SIZE
    decreases |ops|
  {
    if ops == [] then file
    else
      StepRefines(file, ops[0], uuid, pageSize);
      FileRun(FileStep(file, ops[0]), ops[1..], uuid, pageSize)
  }

  ghost function TableRun(t: Table, ops: seq<Op>): Table
    decreases |ops|
  {
    if ops == [] then t else TableRun(TableStep(t, ops[0]), ops[1..])
  }

  ghost function MapRun(m: map<PageId, PageEntry>, ops: seq<Op>): map<PageId, PageEntry>
    decreases |ops|
  {
    if ops == [] then m else MapRun(MapStep(m, ops[0]), ops[1..])
  }

  /** Over any run of sets, clears, truncations, restores and reopens the file holds the table the run describes. */
  lemma {:induction false} RunRefines(file: seq<Byte>, ops: seq<Op>, uuid: Uuid, pageSize: U64)
    requires HeaderOk(file, uuid, pageSize)
    requires forall op :: op in ops ==> OpOk(op, uuid, pageSize)
    ensures TableOf(FileRun(file, ops, uuid, pageSize)) == TableRun(TableOf(file), ops)
    decreases |ops|
  {
    hide TableOf, FileStep, TableStep;
    if ops != [] {
      StepRefines(file, ops[0], uuid, pageSize);
      RunRefines(FileStep(file, ops[0]), ops[1..], uuid, pageSize);
    }
  }

  /** Nothing torn, neither in the file nor in any snapshot restored: the table is a plain map. */
  lemma {:induction false} UntornRun(t: Table, ops: seq<Op>)
    requires t.torn.None? && forall op :: op in ops && op.Restore? ==> Aligned(op.snapshot)
    ensures TableRun(t, ops) == Table(MapRun(t.entries, ops), None)
    decreases |ops|
  {
    if ops != [] {
      var op := ops[0];
      if op.Restore? { AlignedIsNotTorn(op.snapshot); }
      assert TableStep(t, op) == Table(MapStep(t.entries, op), None);
      hide TableStep, MapStep;
      UntornRun(TableStep(t, op), ops[1..]);
    }
  }

  /**
    From any index on disk, of either version and however it ends, every lookup after any run
    agrees with the table the run describes; and with the plain map if nothing is torn.
   */
  lemma RunFromDisk(disk: seq<Byte>, ops: seq<Op>, uuid: Uuid, pageSize: U64)
    requires Bound(disk, uuid, pageSize)
    requires forall op :: op in ops ==> OpOk(op, uuid, pageSize)
    ensures HeaderOk(Migrate(disk), uuid, pageSize)
    ensures forall p: PageId ::
      var m := TableRun(TableOf(disk), ops).entries;
      GetEntry(FileRun(Migrate(disk), ops, uuid, pageSize), p) == if p in m then Some(m[p]) else None
    ensures Aligned(disk) && (forall op :: op in ops && op.Restore? ==> Aligned(op.snapshot)) ==>
      TableRun(TableOf(disk), ops).entries == MapRun(Entries(disk), ops)
  {
    MigrateKeepsEntries(disk, uuid, pageSize);
    RunRefines(Migrate(disk), ops, uuid, pageSize);
    if Aligned(disk) && (forall op :: op in ops && op.Restore? ==> Aligned(op.snapshot)) {
      AlignedIsNotTorn(disk);
      UntornRun(TableOf(disk), ops);
    }
    hide GetEntry, CheckHeader, Torn;
  }
}
