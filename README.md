# scap BPF perf ring reader

A Dafny model of the userspace reader of the per-CPU perf ring buffer used by
the scap BPF engine (`userspace/libscap/engine/bpf/scap_bpf.h`). The kernel
side writes records into a data area of `data_size` bytes. It then publishes
`data_head` in the `perf_event_mmap_page` header. The reader does three things:

- it checks out the span from `data_tail` to `data_head`, handling the wrap,
  and records the span's length in `m_lastreadsize`;
- it walks the span's records. It passes over `PERF_RECORD_LOST` records and
  stops at the next `PERF_RECORD_SAMPLE`. Optionally it first passes over one
  sample, the one already delivered;
- it commits the checkout by moving `data_tail` on by `m_lastreadsize`.

Files:

- `perf_event.dfy` (module `PerfEvent`): the fixed-width integer types, the
  record kinds, `perf_event_header`, and the sample and lost-record layouts. It
  also models `scap_bpf_evt_from_perf_sample`.
- `ring_arith.dfy` (module `RingArith`): `scap_bpf_get_buf_pointers` as a
  function of `data_head`, `data_tail` and `data_size`. It also holds the
  cursor step around the ring edge and the modular-arithmetic lemmas they need.
- `framer.dfy` (module `Framer`): the record walk as a specification function
  `Walk`. The predicate `WalkWellFormed` states what the walk's debug
  assertions demand. `Samples` is the reference list of the sample records in
  a span. The lemmas connect the two.
- `scap_bpf.dfy` (module `ScapBpf`): the device as a class `BpfDevice`. Its
  methods `ReadBuf`, `AdvanceToEvt` and `AdvanceTail` are imperative. The
  loop of `AdvanceToEvt` is proved against `Walk`.

`wrappers.dfy` holds an `Option` type.

Representation choices:

- Ring contents are a map from an offset in the data area to the record that
  starts there: its header, and for a sample the sample's `size` field and the
  embedded scap event's `len`.
- Pointers into the data area (`base + offset`) are offsets from `base`.
- "`*next_evt` left untouched" becomes `None`.
- The `int32_t` status, which is always `SCAP_SUCCESS`, is not returned.

## Model

| member | source | states |
|---|---|---|
| `PerfEvent.EvtFromPerfSample` | userspace/libscap/engine/bpf/scap_bpf.h:57-62 | The event address is past the record start. For a well-formed sample (`e->size == sizeof(header) + sizeof(size) + sample->size`, event `len <= sample->size`, lines 23-27 and 116-117), the sample data ends exactly at the record end and the embedded event lies inside the record. |
| `PerfEvent.TruncateU32` | userspace/libscap/engine/bpf/scap_bpf.h:185 | Storing the 64-bit read size into the `uint32_t *len` keeps it unchanged below 2^32 and never enlarges it. |
| `RingArith.GetBufPointers` | userspace/libscap/engine/bpf/scap_bpf.h:64-90 | Head and tail come back unchanged. The read size is below `data_size`. It is zero exactly when head and tail are at the same ring offset. Moving the tail on by it reaches the head's ring offset. |
| `RingArith.ReadSizeIsDistance` | userspace/libscap/engine/bpf/scap_bpf.h:79-89 | For `tail <= head`, the wrap-aware read size equals `(head - tail) mod data_size`. When the producer is less than a ring ahead, it equals `head - tail`. |
| `RingArith.CommitDrains` | userspace/libscap/engine/bpf/scap_bpf.h:166 | Committing a checkout of the whole readable span, with the head unchanged, leaves a read size of zero. |
| `RingArith.NextOffset` | userspace/libscap/engine/bpf/scap_bpf.h:136-147 | The three-way cursor step (overshoot wraps by `data_size`, landing on the edge resets to `base`) stays inside `[0, data_size)`. It equals `(offset + size) mod data_size`. |
| `Framer.Walk` | userspace/libscap/engine/bpf/scap_bpf.h:103-150 | The remaining length never grows. The walk ends with length 0 and no event exactly when it finds none. Otherwise it stops at a sample record, never a lost record, with a positive size, passing the checks of lines 107-117 against the remaining length. The stop offset is the start offset plus the bytes consumed, mod `data_size`. |
| `Framer.Samples` | userspace/libscap/engine/bpf/scap_bpf.h:103-150 | A reference list of the sample records of a fully framed span, in ring order. Each entry is a sample record inside the ring. |
| `Framer.WalkEnumeratesSamples` | userspace/libscap/engine/bpf/scap_bpf.h:109-129 | On a fully framed span the walk's checks hold. With `skip_current` false it returns the first sample. With `skip_current` true it skips exactly one sample and returns the second. If there are not that many samples, it returns nothing. The rest of the span from the stop point holds exactly the samples not yet passed, so walking on with `skip_current` true yields the next one. |
| `Framer.FoundEventInsideSpan` | userspace/libscap/engine/bpf/scap_bpf.h:57-62 | The scap event inside the sample that the walk stops at ends within the span being walked. |
| `ScapBpf.BpfDevice.AdvanceToEvt` | userspace/libscap/engine/bpf/scap_bpf.h:92-153 | The `while(*len)` loop over the cursor, `*len` and `skip_current` returns exactly what `Walk` gives from `cur_evt`. It requires the checks the source asserts (lines 107-108, 114-117), a positive record size and a span no longer than the ring. |
| `ScapBpf.BpfDevice.AdvanceTail` | userspace/libscap/engine/bpf/scap_bpf.h:155-168 | Requires an outstanding checkout. Adds `m_lastreadsize` to `data_tail` and resets the checkout to 0. Leaves `data_head` and the ring alone. If the checkout was everything readable, nothing is left to read. |
| `ScapBpf.BpfDevice.ReadBuf` | userspace/libscap/engine/bpf/scap_bpf.h:170-188 | Requires no outstanding checkout. Records the computed read size in `m_lastreadsize`. Walks from `tail % data_size` with `len` equal to the read size as a `uint32_t` and `skip_current` false. Returns that walk's result. |

## Left out

- The compiler barriers `asm volatile("" ::: "memory")` (lines 76 and 162).
  They order the reader against the kernel producer, and that is concurrency.
  `data_head` is a field that the reader reads once and never writes.
- The `printf` diagnostic for an unknown record kind (line 131), and its
  `ASSERT(false)`. The model follows the release build, where the
  assertion is compiled out and the walk steps over the record. So unknown
  kinds are not excluded by a precondition.
- The engine control prototypes `scap_bpf_load` … `scap_bpf_handle_event_mask`
  (lines 35-55). They have no bodies here and drive the kernel device.
- `ScapBpf.BpfDevice.AdvanceTail`: does not model the `uint64_t` wrap of
  `data_tail +=`. `data_head`, `data_tail` and `m_lastreadsize` are unbounded
  naturals, because a 64-bit byte counter does not overflow within any capture.
- The declared type of `m_lastreadsize` is not part of this model. It is kept
  unbounded, and the only width modelled is the `uint32_t *len`.
- `ScapBpf.BpfDevice.AdvanceToEvt`: requires a positive size for every record
  it visits, and a starting length no longer than the ring. The source does
  not assert these. Without the first, `while(*len)` never ends. Without the
  second, the cursor leaves the data area.
- The code only skips lost-count records. It keeps no lost-event counter, so
  none is modelled.
- The walk reads a record's header and sample fields as one linear run from
  the record's start. The model does the same. It does not model bytes of a
  record that straddle the physical ring edge.
- `userspace/libscap/engine/savefile/converter/converter.h` is not part of
  this model. It holds only declarations (`scap_convert_event`,
  `is_conversion_needed`, the storage hooks) and the constant
  `MAX_CONVERSION_BOUNDARY` = 50, with no bodies to model.
- `userspace/libscap/source_plugin_info.h` (a table of plugin function
  pointers), `userspace/libsinsp/sinsp_filtercheck_group.cpp` (a field
  extractor whose data lives in classes not shown), and the in-kernel program
  `setreuid.bpf.c` (behaviour in unseen helpers) are outside the reader.
