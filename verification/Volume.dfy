/**
  Volume identity, chunks and page entries.

  The content hash is taken to be injective: a chunk is keyed by its own payload, tagged by
  backend and pool namespace.  A sealed payload opens only under the key, page and salt it
  was sealed with.
*/
module Volume {
  import opened Bytes

  datatype DedupScope = Global | Local

  datatype Manifest = Manifest(
    uuid: Uuid, backend: string, dedupScope: DedupScope,
    dedupNamespace: Option<Uuid>, cryptoUuid: Option<Uuid>,
    encrypted: bool, pageSize: nat, sectorBytes: nat, worm: bool)
  {
    /** A clone inherits its family's namespace; a fresh volume is its own root. */
    function DedupNamespaceUuid(): Uuid {
      match dedupNamespace
      case Some(u) => u
      case None => uuid
    }

    function PoolNamespace(): Option<Uuid> {
      match dedupScope
      case Global => None
      case Local => Some(DedupNamespaceUuid())
    }

    function DekUuid(): Uuid {
      match cryptoUuid
      case Some(u) => u
      case None => uuid
    }
  }

  datatype Payload = Plain(bytes: seq<Byte>) | Sealed(dek: Uuid, page: PageId, salt: U64, bytes: seq<Byte>)

  const TAG_SIZE: nat := 16

  /** On-disk size: a sealed payload carries a 16-byte authentication tag. */
  function PayloadSize(p: Payload): nat {
    if p.Plain? then |p.bytes| else |p.bytes| + TAG_SIZE
  }

  datatype Chunk = Chunk(backend: string, ns: Option<Uuid>, payload: Payload)

  datatype Entry = Entry(payload: Payload, salt: U64)

  function ChunkFor(m: Manifest, payload: Payload): Chunk {
    Chunk(m.backend, m.PoolNamespace(), payload)
  }

  /** Encrypt-on-write; an unencrypted volume stores the bytes and salt 0. */
  function Seal(m: Manifest, p: PageId, salt: U64, bytes: seq<Byte>): Entry {
    if m.encrypted then Entry(Sealed(m.DekUuid(), p, salt, bytes), salt) else Entry(Plain(bytes), 0)
  }

  /**
    Decrypt-on-read.  A plain volume that meets a sealed payload gets bytes of the wrong
    length, which the cache refuses, so both kinds of mismatch are failures.
   */
  function Open(m: Manifest, p: PageId, e: Entry): Option<seq<Byte>> {
    match e.payload
    case Plain(b) => if m.encrypted then None else Some(b)
    case Sealed(dek, page, salt, b) =>
      if m.encrypted && dek == m.DekUuid() && page == p && salt == e.salt then Some(b) else None
  }

  lemma OpenOfSeal(m: Manifest, p: PageId, salt: U64, bytes: seq<Byte>)
    ensures Open(m, p, Seal(m, p, salt, bytes)) == Some(bytes)
  {
  }

  function RebindIsSound(srcEncrypted: bool, srcDek: Uuid, srcPage: PageId, dstEncrypted: bool, dstDek: Uuid, dstPage: PageId): bool {
    if !srcEncrypted && !dstEncrypted then true
    else if srcEncrypted && dstEncrypted then srcDek == dstDek && srcPage == dstPage
    else false
  }

  predicate RebindOk(src: Manifest, srcPage: PageId, dst: Manifest, dstPage: PageId) {
    && src.backend == dst.backend && src.PoolNamespace() == dst.PoolNamespace()
    && RebindIsSound(src.encrypted, src.DekUuid(), srcPage, dst.encrypted, dst.DekUuid(), dstPage)
  }

  /**
    The soundness test is exact: it passes if and only if everything the source can open
    at its page, the destination opens at its own, to the same bytes.
   */
  lemma RebindSoundIff(src: Manifest, srcPage: PageId, dst: Manifest, dstPage: PageId)
    ensures RebindIsSound(src.encrypted, src.DekUuid(), srcPage, dst.encrypted, dst.DekUuid(), dstPage) <==>
            forall e {:trigger Open(src, srcPage, e)} :: Open(src, srcPage, e).Some? ==> Open(dst, dstPage, e) == Open(src, srcPage, e)
  {
    if !RebindIsSound(src.encrypted, src.DekUuid(), srcPage, dst.encrypted, dst.DekUuid(), dstPage) {
      OpenOfSeal(src, srcPage, 0, []);
      assert Open(dst, dstPage, Seal(src, srcPage, 0, [])).None?;
    }
  }

  /** Sharing a pool means sharing chunks: the same payload has the same key in both. */
  lemma SamePoolSameChunk(src: Manifest, dst: Manifest, payload: Payload)
    requires src.backend == dst.backend && src.PoolNamespace() == dst.PoolNamespace()
    ensures ChunkFor(src, payload) == ChunkFor(dst, payload)
  {
  }
}
