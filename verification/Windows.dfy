/** `Window::range`: a clamped sub-range of a source, and its algebra over whole stacks. */
module Windows {
  import opened Bytes
  import opened Sources

  function Range(inner: Source, offset: u64, len: Option<u64>): (r: Result<Source, SourceError>)
    requires inner.Valid()
    ensures r.Ok? <==> offset <= inner.Size()
    ensures r.Err? ==> r.error == OutOfRange(offset, inner.Size())
    ensures r.Ok? ==> r.value.Valid() && r.value.Size() <= inner.Size() - offset
    // As long as asked, or as much as there is.
    ensures r.Ok? ==> r.value.Size() == inner.Size() - offset || len == Some(r.value.Size())
    ensures r.Ok? && len.Some? ==> r.value.Size() <= len.value
  {
    var total := inner.Size();
    if offset > total then Err(OutOfRange(offset, total)) else
    var available: u64 := total - offset;
    var clamped := if len.Some? then Min(len.value, available) else available;
    Ok(Window(inner, offset, clamped))
  }

  /** Two stacks nobody can tell apart by reading. */
  ghost predicate SameBytes(s: Source, t: Source) {
    s.Size() == t.Size() && forall i: nat :: ByteAt(s, i) == ByteAt(t, i)
  }

  /** A window's bytes are the source's from its offset on. */
  lemma RangeBytes(inner: Source, offset: u64, len: Option<u64>, i: nat)
    requires inner.Valid() && offset <= inner.Size()
    ensures
      var w := Range(inner, offset, len).value;
      ByteAt(w, i) == if i < w.Size() then ByteAt(inner, offset + i) else None
  {
  }

  /** A window of a window fails exactly when the inner offset passes the outer window, and otherwise
      reads as one window with the offsets summed and the length clamped twice. */
  lemma WindowOfWindow(s: Source, offset1: u64, len1: Option<u64>, offset2: u64, len2: Option<u64>)
    requires s.Valid() && offset1 <= s.Size()
    ensures
      var outer := Range(s, offset1, len1).value;
      var nested := Range(outer, offset2, len2);
      if offset2 > outer.Size() then nested == Err(OutOfRange(offset2, outer.Size()))
      else
        var left: u64 := outer.Size() - offset2;
        var direct := Range(s, offset1 + offset2, Some(if len2.Some? then Min(len2.value, left) else left));
        nested.Ok? && direct.Ok? && SameBytes(nested.value, direct.value)
  {
    var outer := Range(s, offset1, len1).value;
    if offset2 <= outer.Size() {
      var left: u64 := outer.Size() - offset2;
      var nested := Range(outer, offset2, len2).value;
      var direct := Range(s, offset1 + offset2, Some(if len2.Some? then Min(len2.value, left) else left)).value;
      forall i: nat
        ensures ByteAt(nested, i) == ByteAt(direct, i)
      {
        if i < nested.Size() {
          assert ByteAt(nested, i) == ByteAt(outer, offset2 + i) == ByteAt(s, offset1 + (offset2 + i));
          assert offset1 + (offset2 + i) == offset1 + offset2 + i;
        }
      }
    }
  }

  /** Reads next to each other, of any stack, join into the one read that covers both; the joint read is
      possible exactly when both are. */
  lemma AdjacentReads(s: Source, at: nat, n: nat, m: nat)
    ensures Readable(s, at, n + m) <==> Readable(s, at, n) && Readable(s, at + n, m)
    ensures Readable(s, at, n + m) ==> Slice(s, at, n + m) == Slice(s, at, n) + Slice(s, at + n, m)
  {
  }
}
