/**
 * The per-CPU perf ring reader of the scap BPF engine: a device whose mmap
 * header carries `data_size`, the producer's `data_head` and the reader's
 * `data_tail`, plus the reader's outstanding checkout `m_lastreadsize`.
 */
module ScapBpf {
  import opened Wrappers
  import opened PerfEvent
  import opened RingArith
  import opened Framer

  class BpfDevice {
    /** header->data_size: the length of the data area, fixed at mapping time. */
    const dataSize: nat
    /** header->data_head: written by the producer, only read here. */
    var head: nat
    /** header->data_tail: advanced by the reader after it is done with the bytes. */
    var tail: nat
    /** dev->m_lastreadsize: bytes checked out by readbuf and not yet committed. */
    var lastReadSize: nat
    /** The records in the data area, by offset from its start (`base`). */
    var ring: Ring

    /** A non-empty ring, and a checkout never longer than the ring. */
    ghost predicate Valid()
      reads this
    {
      0 < dataSize && lastReadSize < dataSize
    }

    /** A freshly mapped device with no checkout outstanding. */
    constructor (dataSize: nat, head: nat, tail: nat, ring: Ring)
      requires 0 < dataSize
      ensures Valid()
      ensures this.dataSize == dataSize && this.head == head && this.tail == tail && this.ring == ring
      ensures lastReadSize == 0
    {
      this.dataSize := dataSize;
      this.head := head;
      this.tail := tail;
      this.ring := ring;
      lastReadSize := 0;
    }

    /**
     * scap_bpf_advance_to_evt: walk the records from ring offset `curEvt`
     * while `len` bytes remain, passing over lost-count records, passing over
     * one sample when `skipCurrent` is set, and stopping at the next sample.
     * Returns where it stopped (None when it ran out of bytes and left
     * `*next_evt` untouched) and the length then left in `*len`.
     */
    method AdvanceToEvt(skipCurrent: bool, curEvt: nat, len: u32) returns (nextEvt: Option<nat>, lenLeft: u32)
      requires WalkWellFormed(ring, dataSize, curEvt, len, skipCurrent)
      ensures Walked(nextEvt, lenLeft) == Walk(ring, dataSize, curEvt, len, skipCurrent)
    {
      var begin: nat := curEvt;
      var skip := skipCurrent;
      nextEvt := None;
      lenLeft := len;
      while lenLeft != 0
        invariant lenLeft <= len
        invariant nextEvt == None
        invariant WalkWellFormed(ring, dataSize, begin, lenLeft, skip)
        invariant Walk(ring, dataSize, begin, lenLeft, skip) == Walk(ring, dataSize, curEvt, len, skipCurrent)
        decreases lenLeft
      {
        var e := ring[begin].header;
        if e.kind == PERF_RECORD_SAMPLE {
          if skip {
            skip := false;
          } else {
            nextEvt := Some(begin);
            break;
          }
        } else if e.kind != PERF_RECORD_LOST {
          // An unknown record kind: the diagnostic is not modelled and the walk steps over it.
        }

        if begin + e.size > dataSize {
          begin := begin + e.size - dataSize;
        } else if begin + e.size == dataSize {
          begin := 0;
        } else {
          begin := begin + e.size;
        }

        lenLeft := lenLeft - e.size;
      }
    }

    /**
     * scap_bpf_advance_tail: commit the outstanding checkout by moving the
     * tail on by its length, and clear it. The head is not touched; when the
     * checkout was all there was to read, nothing is left to read.
     */
    method AdvanceTail()
      requires Valid() && lastReadSize > 0
      modifies this`tail, this`lastReadSize
      ensures Valid()
      ensures tail == old(tail) + old(lastReadSize)
      ensures lastReadSize == 0
      ensures old(lastReadSize) == GetBufPointers(head, old(tail), dataSize).readSize ==>
                GetBufPointers(head, tail, dataSize).readSize == 0
    {
      tail := tail + lastReadSize;
      lastReadSize := 0;
      CommitDrains(head, old(tail), dataSize);
    }

    /**
     * scap_bpf_readbuf: with no checkout outstanding, check out everything
     * readable, then walk it from the tail's ring offset to the first sample.
     * The walk's length is the read size as stored in a uint32_t.
     */
    method ReadBuf() returns (buf: Option<nat>, len: u32)
      requires Valid() && lastReadSize == 0
      requires WalkWellFormed(ring, dataSize, tail % dataSize,
                              TruncateU32(GetBufPointers(head, tail, dataSize).readSize), false)
      modifies this`lastReadSize
      ensures Valid()
      ensures lastReadSize == GetBufPointers(head, tail, dataSize).readSize
      ensures Walked(buf, len) == Walk(ring, dataSize, tail % dataSize, TruncateU32(lastReadSize), false)
    {
      var p := GetBufPointers(head, tail, dataSize);
      lastReadSize := p.readSize;
      var cursor := p.tail % dataSize;
      len := TruncateU32(p.readSize);
      buf, len := AdvanceToEvt(false, cursor, len);
    }
  }
}
