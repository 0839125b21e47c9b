/** Records are recovered one by one from a stream whose chunk is damaged beyond validation. */
module Salvage {
  import opened Bytes
  import opened Evtx
  import opened EvtxRecords
  import opened Extractors

  datatype Entry = Entry(recordId: u64, fileTime: u64, body: seq<byte>)

  function Written(e: Entry): seq<byte> {
    RecordBytes(e.recordId, e.fileTime, e.body)
  }

  /** Records laid end to end. */
  function Stream(entries: seq<Entry>): seq<byte> {
    if entries == [] then [] else Written(entries[0]) + Stream(entries[1..])
  }

  /** Records a healthy log would hold: plausible, within the size limits, identifiers increasing. */
  ghost predicate Healthy(entries: seq<Entry>, config: Config) {
    && (forall i :: 0 <= i < |entries| ==>
          && RecordSize(entries[i].body) <= Min(config.maxRecordSize, CHUNK_SIZE)
          && Plausible(config, entries[i].fileTime))
    && (forall i, j :: 0 <= i < j < |entries| ==> entries[i].recordId < entries[j].recordId)
  }

  lemma {:induction false} StreamSplits(entries: seq<Entry>, i: nat)
    requires i <= |entries|
    ensures Stream(entries) == Stream(entries[..i]) + Stream(entries[i..])
  {
    hide Written;
    if i == 0 {
      assert entries[i..] == entries && entries[..i] == [];
    } else {
      StreamSplits(entries[1..], i - 1);
      assert entries[1..][..i - 1] == entries[..i][1..];
      assert entries[1..][i - 1..] == entries[i..];
    }
  }

  /** The window the registry hands the extractor at an offset of the area. */
  function WindowAt(area: seq<byte>, offset: nat): seq<byte>
    requires offset <= |area|
  {
    area[offset..Min(offset + CHUNK_SIZE, |area|)]
  }

  /** Whatever precedes the stream, and whatever follows it short of a complete record with a lower or
      equal identifier, extraction at each record boundary returns that record and nothing else; the
      pieces laid end to end are the stream. */
  lemma EveryRecordSalvaged(before: seq<byte>, entries: seq<Entry>, after: seq<byte>, config: Config, i: nat)
    requires Healthy(entries, config) && i < |entries|
    requires !Blocked(after, entries[|entries| - 1].recordId)
    ensures
      var area := before + Stream(entries) + after;
      var offset := |before| + |Stream(entries[..i])|;
      && offset + |Written(entries[i])| <= |area|
      && EvtxExtract(config, offset, WindowAt(area, offset)) == Ok([Carved(offset, "evtx.record", Written(entries[i]))])
      && Stream(entries[..i + 1]) == Stream(entries[..i]) + Written(entries[i])
  {
    hide Written, Stream, Blocked, EvtxExtract;
    var area := before + Stream(entries) + after;
    var offset := |before| + |Stream(entries[..i])|;
    var e, tail := entries[i], Stream(entries[i + 1..]) + after;
    PieceAdded(entries, i);
    AreaFrom(before, entries, after, i);
    assert area[offset..] == Written(e) + tail;
    TailHarmless(entries, after, config, i);
    RecordAtBoundary(e, tail, config, offset);
    assert WindowAt(area, offset) == WindowAt(Written(e) + tail, 0);
  }

  lemma AreaFrom(before: seq<byte>, entries: seq<Entry>, after: seq<byte>, i: nat)
    requires i < |entries|
    ensures
      var area := before + Stream(entries) + after;
      var offset := |before| + |Stream(entries[..i])|;
      && offset + |Written(entries[i])| <= |area|
      && area[offset..] == Written(entries[i]) + (Stream(entries[i + 1..]) + after)
  {
    hide Written;
    StreamSplits(entries, i);
    assert entries[i..][0] == entries[i] && entries[i..][1..] == entries[i + 1..];
    assert Stream(entries[i..]) == Written(entries[i]) + Stream(entries[i + 1..]);
    var area := before + Stream(entries) + after;
    assert area == (before + Stream(entries[..i])) + (Written(entries[i]) + (Stream(entries[i + 1..]) + after));
  }

  lemma TailHarmless(entries: seq<Entry>, after: seq<byte>, config: Config, i: nat)
    requires Healthy(entries, config) && i < |entries|
    requires !Blocked(after, entries[|entries| - 1].recordId)
    ensures !Blocked(Stream(entries[i + 1..]) + after, entries[i].recordId)
  {
    hide RecordBytes, Blocked;
    if i + 1 < |entries| {
      var next, later := entries[i + 1], Stream(entries[i + 2..]) + after;
      assert entries[i + 1..][0] == next && entries[i + 1..][1..] == entries[i + 2..];
      assert Stream(entries[i + 1..]) + after == Written(next) + later;
      RecordWellFormed(next.recordId, next.fileTime, next.body, later);
    } else {
      assert entries[i + 1..] == [];
      assert Stream([]) + after == after;
    }
  }

  lemma RecordAtBoundary(e: Entry, tail: seq<byte>, config: Config, offset: nat)
    requires RecordSize(e.body) <= Min(config.maxRecordSize, CHUNK_SIZE) && Plausible(config, e.fileTime)
    requires !Blocked(tail, e.recordId)
    ensures EvtxExtract(config, offset, WindowAt(Written(e) + tail, 0)) ==
            Ok([Carved(offset, "evtx.record", Written(e))])
  {
    hide RecordBytes, Blocked, ValidateRecord, EvtxExtract;
    var rest := Written(e) + tail;
    RecordAccepted(e.recordId, e.fileTime, e.body, tail, config);
    var window := WindowAt(rest, 0);
    assert window == rest[..|window|];
    ShorterWindowKeeps(rest, |window|, config);
    RecordDispatched(window, config, offset);
    assert window[..|Written(e)|] == Written(e);
  }

  lemma PieceAdded(entries: seq<Entry>, i: nat)
    requires i < |entries|
    ensures Stream(entries[..i + 1]) == Stream(entries[..i]) + Written(entries[i])
  {
    hide Written;
    StreamSplits(entries[..i + 1], i);
    assert entries[..i + 1][..i] == entries[..i];
    assert entries[..i + 1][i..] == [entries[i]];
    assert Stream([entries[i]]) == Written(entries[i]) + Stream([]);
  }

  lemma RecordDispatched(window: seq<byte>, config: Config, offset: nat)
    requires ValidateRecord(window, config).Ok?
    ensures ValidateRecord(window, config).value.size <= |window|
    ensures EvtxExtract(config, offset, window) ==
            Ok([Carved(offset, "evtx.record", window[..ValidateRecord(window, config).value.size])])
  {
    hide ValidateChunk, ValidateFileHeader, Blocked, Field;
    assert window[..4][0] == 0x2a;
    if |window| >= 8 {
      assert window[..8][0] == window[..4][0];
    }
  }
}
