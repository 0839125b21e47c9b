/** Outcomes of opening a virtual-disk container. */
module Refusals {
  import opened Bytes
  import opened Sources

  /** Why an image is refused; `Unreadable` stands for whatever error the container's read gave. */
  datatype Refusal = Unreadable | NotValid | NotSupported

  ghost predicate Matches<T>(r: Result<T, SourceError>, expected: Result<T, Refusal>) {
    match expected
    case Ok(v) => r == Ok(v)
    case Err(Unreadable) => r.Err?
    case Err(NotValid) => r == Err(Malformed)
    case Err(NotSupported) => r == Err(Unsupported)
  }

  lemma NumberRange(s: Source, at: nat, width: nat)
    ensures BigEndianAt(s, at, width).Some? ==> BigEndianAt(s, at, width).value < Capacity(width)
    ensures LittleEndianAt(s, at, width).Some? ==> LittleEndianAt(s, at, width).value < Capacity(width)
    ensures Capacity(2) == 0x1_0000 && Capacity(4) == U32_LIMIT && Capacity(8) == U64_LIMIT
  {
    Capacities();
    if Readable(s, at, width) {
      BigEndianRange(Slice(s, at, width));
      LittleEndianRange(Slice(s, at, width));
    }
  }
}
