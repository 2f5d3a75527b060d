/**
 * The record walk of scap_bpf_advance_to_evt, as functions over the ring
 * contents: which records it may meet, where it stops, and which samples a
 * span holds in ring order.
 */
module Framer {
  import opened Wrappers
  import opened PerfEvent
  import opened RingArith

  /** The ring contents seen by the reader: the record that starts at each ring offset. */
  type Ring = map<nat, PerfRecord>

  /**
   * The checks the walk makes of the record it looks at while `len` bytes
   * remain: a whole header remains, the record does not run past the
   * remaining length, and a sample is well formed and fits too.
   */
  predicate RecordChecks(rec: PerfRecord, len: nat)
  {
    && PERF_EVENT_HEADER_SIZE <= len
    && rec.header.size <= len
    && (rec.header.kind == PERF_RECORD_SAMPLE ==>
          && PERF_EVENT_SAMPLE_SIZE <= len
          && WellFormedSample(rec)
          && rec.body.size <= len)
  }

  /** A record starts at `cursor`, it has a positive size, and it passes the checks. */
  predicate RecordAt(ring: Ring, cursor: nat, len: nat)
  {
    cursor in ring && 0 < ring[cursor].header.size && RecordChecks(ring[cursor], len)
  }

  /** The walk stops at this record: a sample, and no sample is left to skip. */
  predicate Delivers(rec: PerfRecord, skip: bool)
  {
    rec.header.kind == PERF_RECORD_SAMPLE && !skip
  }

  /** Whether the walk skips a sample after stepping over `rec`. */
  function SkipAfter(rec: PerfRecord, skip: bool): bool
  {
    skip && rec.header.kind != PERF_RECORD_SAMPLE
  }

  /**
   * Every record the walk from `cursor` over `len` bytes meets, up to and
   * including the one it stops at, is present and passes the checks.
   */
  predicate WalkWellFormed(ring: Ring, dataSize: nat, cursor: nat, len: nat, skip: bool)
    decreases len
  {
    && 0 < dataSize && cursor < dataSize && len <= dataSize
    && (len == 0 ||
        (&& RecordAt(ring, cursor, len)
         && (|| Delivers(ring[cursor], skip)
             || WalkWellFormed(ring, dataSize, NextOffset(cursor, ring[cursor].header.size, dataSize),
                               len - ring[cursor].header.size, SkipAfter(ring[cursor], skip)))))
  }

  /** Where the walk stops (None: `*next_evt` left untouched) and the length then left. */
  datatype Walked = Walked(next: Option<nat>, len: nat)

  /**
   * The walk as a function. It never lengthens the span; it stops either
   * with nothing left or at a well-formed sample record that fits in what is
   * left, and the offset it stops at is the start offset moved round the ring
   * by the bytes it consumed.
   */
  function Walk(ring: Ring, dataSize: nat, cursor: nat, len: nat, skip: bool): (r: Walked)
    requires WalkWellFormed(ring, dataSize, cursor, len, skip)
    decreases len
    ensures r.len <= len
    ensures r.next.None? <==> r.len == 0
    ensures r.next.Some? ==>
              && r.next.value < dataSize
              && r.next.value in ring
              && ring[r.next.value].header.kind == PERF_RECORD_SAMPLE
              && 0 < ring[r.next.value].header.size
              && RecordChecks(ring[r.next.value], r.len)
              && r.next.value == (cursor + (len - r.len)) % dataSize
  {
    if len == 0 then
      Walked(None, 0)
    else
      var rec := ring[cursor];
      if Delivers(rec, skip) then
        assert cursor == (cursor + 0) % dataSize by { DivModUnique(cursor, dataSize, 0, cursor); }
        Walked(Some(cursor), len)
      else
        var next := NextOffset(cursor, rec.header.size, dataSize);
        var r := Walk(ring, dataSize, next, len - rec.header.size, SkipAfter(rec, skip));
        if r.next.Some? then
          ModOfSum(cursor + rec.header.size, len - rec.header.size - r.len, dataSize);
          r
        else
          r
  }

  /** The whole span from `cursor` over `len` bytes is a run of records that pass the checks. */
  predicate FullyFramed(ring: Ring, dataSize: nat, cursor: nat, len: nat)
    decreases len
  {
    && 0 < dataSize && cursor < dataSize && len <= dataSize
    && (len == 0 ||
        (&& RecordAt(ring, cursor, len)
         && FullyFramed(ring, dataSize, NextOffset(cursor, ring[cursor].header.size, dataSize),
                        len - ring[cursor].header.size)))
  }

  /** The offsets of the sample records of a fully framed span, in ring order. */
  function Samples(ring: Ring, dataSize: nat, cursor: nat, len: nat): (s: seq<nat>)
    requires FullyFramed(ring, dataSize, cursor, len)
    decreases len
    ensures forall i :: 0 <= i < |s| ==> s[i] in ring && ring[s[i]].header.kind == PERF_RECORD_SAMPLE
    ensures forall i :: 0 <= i < |s| ==> s[i] < dataSize
  {
    if len == 0 then
      []
    else
      var rec := ring[cursor];
      var rest := Samples(ring, dataSize, NextOffset(cursor, rec.header.size, dataSize), len - rec.header.size);
      if rec.header.kind == PERF_RECORD_SAMPLE then [cursor] + rest else rest
  }

  /**
   * On a fully framed span the walk delivers the samples in ring order: with
   * `skip` false the first sample, with `skip` true the second, and nothing
   * when there are not that many; lost-count and other records are passed
   * over. From where it stops, the rest of the span is still fully framed
   * and holds exactly the samples not yet passed, so walking on with `skip`
   * true yields the next one.
   */
  lemma {:induction false} WalkEnumeratesSamples(ring: Ring, dataSize: nat, cursor: nat, len: nat, skip: bool)
    requires FullyFramed(ring, dataSize, cursor, len)
    decreases len
    ensures WalkWellFormed(ring, dataSize, cursor, len, skip)
    ensures var s := Samples(ring, dataSize, cursor, len);
            var k := if skip then 1 else 0;
            var r := Walk(ring, dataSize, cursor, len, skip);
            if k < |s| then
              && r.next == Some(s[k])
              && FullyFramed(ring, dataSize, s[k], r.len)
              && Samples(ring, dataSize, s[k], r.len) == s[k..]
            else
              r.next == None
  {
    if len > 0 {
      var rec := ring[cursor];
      var next := NextOffset(cursor, rec.header.size, dataSize);
      if !Delivers(rec, skip) {
        WalkEnumeratesSamples(ring, dataSize, next, len - rec.header.size, SkipAfter(rec, skip));
        if rec.header.kind == PERF_RECORD_SAMPLE {
          var s := Samples(ring, dataSize, cursor, len);
          assert s[1..] == Samples(ring, dataSize, next, len - rec.header.size);
        }
      }
    }
  }

  /**
   * The scap event of the sample the walk stops at lies inside the bytes
   * still to be walked, so a consumer reading it never leaves the span that
   * was checked out.
   */
  lemma FoundEventInsideSpan(ring: Ring, dataSize: nat, cursor: nat, len: nat, skip: bool)
    requires WalkWellFormed(ring, dataSize, cursor, len, skip)
    requires Walk(ring, dataSize, cursor, len, skip).next.Some?
    ensures var r := Walk(ring, dataSize, cursor, len, skip);
            var at := r.next.value;
            var evt := EvtFromPerfSample(at, ring[at]);
            && WellFormedSample(ring[at])
            && (len - r.len) + (evt - at) + ring[at].body.evtLen <= len
  {
  }
}
