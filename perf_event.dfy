/**
 * Fixed-width integers and the record layouts of the Linux perf mmap ring
 * (`perf_event_header`, and the reader's `perf_event_sample` and
 * `perf_lost_sample` overlays), as read by the scap BPF engine.
 */
module PerfEvent {

  const U16_LIMIT: nat := 0x1_0000
  const U32_LIMIT: nat := 0x1_0000_0000
  const U64_LIMIT: nat := 0x1_0000_0000_0000_0000

  type u16 = x: nat | x < U16_LIMIT
  type u32 = x: nat | x < U32_LIMIT
  type u64 = x: nat | x < U64_LIMIT

  /** Record kinds of the perf ABI that the reader distinguishes. */
  const PERF_RECORD_LOST: u32 := 2
  const PERF_RECORD_SAMPLE: u32 := 9

  /** sizeof(struct perf_event_header): type (4) + misc (2) + size (2). */
  const PERF_EVENT_HEADER_SIZE: nat := 8
  /** sizeof the `size` field of perf_event_sample. */
  const SAMPLE_SIZE_FIELD_SIZE: nat := 4
  /** sizeof(struct perf_event_sample): the header and the size field; `data` is a flexible array. */
  const PERF_EVENT_SAMPLE_SIZE: nat := PERF_EVENT_HEADER_SIZE + SAMPLE_SIZE_FIELD_SIZE
  /** sizeof(struct perf_lost_sample): the header, `id` and `lost`. */
  const PERF_LOST_SAMPLE_SIZE: nat := PERF_EVENT_HEADER_SIZE + 8 + 8

  /** struct perf_event_header; `size` is the whole record's length in bytes. */
  datatype PerfEventHeader = PerfEventHeader(kind: u32, misc: u16, size: u16)

  /**
   * What follows the header. For a sample, `size` is perf_event_sample's
   * size field and `evtLen` is the `len` field of the scap event stored in
   * `data`; for a lost-count record, the producer's `id` and `lost` count.
   */
  datatype RecordBody =
    | SampleBody(size: u32, evtLen: u32)
    | LostBody(id: u64, lost: u64)
    | OtherBody

  /** One record as it lies in the ring. */
  datatype PerfRecord = PerfRecord(header: PerfEventHeader, body: RecordBody)

  /**
   * A sample whose header size accounts exactly for the header, the size
   * field and the data, and whose embedded event fits in that data.
   */
  predicate WellFormedSample(rec: PerfRecord)
  {
    && rec.body.SampleBody?
    && rec.header.size == PERF_EVENT_HEADER_SIZE + SAMPLE_SIZE_FIELD_SIZE + rec.body.size
    && rec.body.evtLen <= rec.body.size
  }

  /**
   * scap_bpf_evt_from_perf_sample: the address of the scap event carried by
   * the sample record at address `at`. For a well-formed sample the event's
   * data runs exactly to the end of the record, and the event itself lies
   * inside the record.
   */
  function EvtFromPerfSample(at: nat, rec: PerfRecord): (evt: nat)
    requires rec.header.kind == PERF_RECORD_SAMPLE
    ensures at < evt
    ensures WellFormedSample(rec) ==>
              && evt + rec.body.size == at + rec.header.size
              && evt + rec.body.evtLen <= at + rec.header.size
  {
    at + PERF_EVENT_SAMPLE_SIZE
  }

  /** The implicit uint64_t -> uint32_t conversion of an assignment to a uint32_t. */
  function TruncateU32(x: nat): (r: u32)
    ensures x < U32_LIMIT ==> r == x
    ensures r <= x
  {
    x % U32_LIMIT
  }
}
