/** The extractor interface and its EVTX implementation. */
module Extractors {
  import opened Bytes
  import Evtx
  import opened EvtxSound

  /** A carved artefact: where it was found, what it is, and the exact bytes. */
  datatype Carved = Carved(offset: nat, kind: string, bytes: seq<byte>)

  /** What the registry knows of an extractor. `extract` sees the source from the candidate offset on, cut
      to `maxStructureSize` bytes. */
  datatype Extractor = Extractor(
    signatures: seq<seq<byte>>,
    maxStructureSize: u64,
    extract: (nat, seq<byte>) -> Result<seq<Carved>, Evtx.Rejection>
  )

  const CHUNK_SIGNATURE: nat := 0
  const RECORD_SIGNATURE: nat := 1
  const FILE_SIGNATURE: nat := 2

  function EvtxExtract(config: Evtx.Config, offset: nat, data: seq<byte>): Result<seq<Carved>, Evtx.Rejection> {
    if Evtx.StartsWith(data, Evtx.CHUNK_MAGIC) then
      match Evtx.ValidateChunk(data)
      case Err(e) => Err(e)
      case Ok(len) => Ok([Carved(offset, "evtx.chunk", data[..Min(len, |data|)])])
    else if Evtx.StartsWith(data, Evtx.FILE_MAGIC) then
      match Evtx.ValidateFileHeader(data)
      case Err(e) => Err(e)
      case Ok(_) => Ok([Carved(offset, "evtx.file_header", data[..Min(Evtx.FILE_HEADER_SIZE, |data|)])])
    else if Evtx.StartsWith(data, Evtx.RECORD_MAGIC) then
      match Evtx.ValidateRecord(data, config)
      case Err(e) => Err(e)
      case Ok(frame) => Ok([Carved(offset, "evtx.record", data[..Min(frame.size, |data|)])])
    else Err(Evtx.NotThisFormat)
  }

  function EvtxExtractor(config: Evtx.Config): Extractor {
    Extractor([Evtx.CHUNK_MAGIC, Evtx.RECORD_MAGIC, Evtx.FILE_MAGIC], Evtx.CHUNK_SIZE,
              (offset: nat, data: seq<byte>) => EvtxExtract(config, offset, data))
  }

  /** An accepted candidate yields one artefact, at the candidate offset, made of the window's own leading
      bytes, under one of the three signatures. */
  lemma EvtxExtractExact(config: Evtx.Config, offset: nat, data: seq<byte>)
    requires EvtxExtract(config, offset, data).Ok?
    ensures
      var artefacts := EvtxExtract(config, offset, data).value;
      && |artefacts| == 1
      && artefacts[0].offset == offset
      && artefacts[0].bytes <= data
      && match artefacts[0].kind
         case "evtx.chunk" =>
           Evtx.StartsWith(data, Evtx.CHUNK_MAGIC) && |artefacts[0].bytes| == Min(Evtx.CHUNK_SIZE, |data|)
         case "evtx.file_header" =>
           Evtx.StartsWith(data, Evtx.FILE_MAGIC) && |artefacts[0].bytes| == Evtx.FILE_HEADER_SIZE
         case _ =>
           && artefacts[0].kind == "evtx.record" && Evtx.StartsWith(data, Evtx.RECORD_MAGIC)
           && |artefacts[0].bytes| == Field(data, 4, 4) >= Evtx.MIN_RECORD
  {
    hide Evtx.Crc32.Crc;
  }

  /** A window starts with a structure of that kind and length. */
  ghost predicate Yields(config: Evtx.Config, w: seq<byte>, kind: string, len: nat) {
    || (kind == "evtx.chunk" && len == Min(65536, |w|) && exists end: nat :: SoundChunk(w, end))
    || (kind == "evtx.file_header" && len == 128 && SoundFileHeader(w))
    || (kind == "evtx.record" && SoundRecord(w, config, len))
  }

  /** Extraction accepts a window exactly when a sound structure starts it, and gives that structure, whole,
      as its one artefact. */
  lemma ExtractYields(config: Evtx.Config, offset: nat, w: seq<byte>)
    ensures forall kind, len: nat :: Yields(config, w, kind, len) ==>
      len <= |w| && EvtxExtract(config, offset, w) == Ok([Carved(offset, kind, w[..len])])
    ensures EvtxExtract(config, offset, w).Ok? ==>
      exists kind, len: nat :: Yields(config, w, kind, len) && len <= |w| &&
                               EvtxExtract(config, offset, w) == Ok([Carved(offset, kind, w[..len])])
  {
    hide SoundChunk, SoundFileHeader, SoundRecord, Evtx.ValidateChunk, Evtx.ValidateFileHeader, Evtx.ValidateRecord;
    ChunkAccepted(w);
    FileHeaderAccepted(w);
    RecordExactly(w, config);
    SoundStarts(config, w);
    MagicsDiffer(w);
    if EvtxExtract(config, offset, w).Ok? {
      if Evtx.StartsWith(w, Evtx.CHUNK_MAGIC) {
        assert Yields(config, w, "evtx.chunk", Min(65536, |w|));
      } else if Evtx.StartsWith(w, Evtx.FILE_MAGIC) {
        assert Yields(config, w, "evtx.file_header", 128);
      } else {
        var n: nat :| SoundRecord(w, config, n);
        assert Yields(config, w, "evtx.record", n);
      }
    }
  }

  /** No two of the signatures can start at one place. */
  lemma MagicsDiffer(data: seq<byte>)
    ensures !(Evtx.StartsWith(data, Evtx.CHUNK_MAGIC) && Evtx.StartsWith(data, Evtx.FILE_MAGIC))
    ensures !(Evtx.StartsWith(data, Evtx.CHUNK_MAGIC) && Evtx.StartsWith(data, Evtx.RECORD_MAGIC))
    ensures !(Evtx.StartsWith(data, Evtx.FILE_MAGIC) && Evtx.StartsWith(data, Evtx.RECORD_MAGIC))
  {
    if |data| >= 8 {
      assert data[..8][0] == data[0] == data[..4][0] && data[..8][3] == data[3];
    }
  }

  /** Each kind of structure starts with its own signature. */
  lemma SoundStarts(config: Evtx.Config, w: seq<byte>)
    ensures forall end: nat :: SoundChunk(w, end) ==> Evtx.StartsWith(w, Evtx.CHUNK_MAGIC)
    ensures SoundFileHeader(w) ==> |w| >= 128 && Evtx.StartsWith(w, Evtx.FILE_MAGIC)
    ensures forall n: nat :: SoundRecord(w, config, n) ==> n <= |w| && Evtx.StartsWith(w, Evtx.RECORD_MAGIC)
  {
    hide Has, Evtx.Crc32.Crc, FromLE;
  }
}
