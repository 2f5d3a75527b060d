/**
 * The offset arithmetic of the perf ring: the readable length between the
 * reader's `data_tail` and the producer's `data_head`, and the step of a
 * cursor around the ring edge.
 */
module RingArith {

  /** A positive multiple of a positive `n` is at least `n`. */
  lemma MulAtLeast(d: int, n: int)
    requires 1 <= d && 0 < n
    ensures n <= d * n
  {
    var e := d - 1;
    assert 0 <= e * n;
    assert d * n == e * n + n;
  }

  /** Euclidean division is unique: a quotient and an in-range remainder determine `x / n` and `x % n`. */
  lemma DivModUnique(x: int, n: int, q: int, r: int)
    requires 0 < n && 0 <= r < n && x == q * n + r
    ensures x / n == q && x % n == r
  {
    var q', r' := x / n, x % n;
    assert x == q' * n + r';
    var d := q - q';
    assert d * n == q * n - q' * n;
    assert d * n == r' - r;
    if d >= 1 {
      MulAtLeast(d, n);
    } else if d <= -1 {
      MulAtLeast(-d, n);
    }
  }

  /** The values scap_bpf_get_buf_pointers hands back through its out-parameters. */
  datatype BufPointers = BufPointers(head: nat, tail: nat, readSize: nat)

  /**
   * scap_bpf_get_buf_pointers applied to the `data_head`, `data_tail` and
   * `data_size` read from the mmap header: the number of bytes readable from
   * the tail offset up to the head offset, going round the ring edge when the
   * tail offset lies past the head offset. It is shorter than the ring, it is
   * zero exactly when head and tail sit at the same ring offset, and moving
   * the tail on by it lands on the head's ring offset.
   */
  function GetBufPointers(head: nat, tail: nat, dataSize: nat): (r: BufPointers)
    requires 0 < dataSize
    ensures r.head == head && r.tail == tail
    ensures r.readSize < dataSize
    ensures r.readSize == 0 <==> head % dataSize == tail % dataSize
    ensures (tail + r.readSize) % dataSize == head % dataSize
  {
    var begin := tail % dataSize;
    var end := head % dataSize;
    var readSize := if begin > end then dataSize - begin + end else end - begin;
    if begin > end then
      DivModUnique(tail + readSize, dataSize, tail / dataSize + 1, end);
      BufPointers(head, tail, readSize)
    else
      DivModUnique(tail + readSize, dataSize, tail / dataSize, end);
      BufPointers(head, tail, readSize)
  }

  /**
   * The readable size is the byte distance from tail to head reduced modulo
   * the ring size; when the producer is less than a full ring ahead it is
   * exactly `head - tail`.
   */
  lemma ReadSizeIsDistance(head: nat, tail: nat, dataSize: nat)
    requires 0 < dataSize && tail <= head
    ensures GetBufPointers(head, tail, dataSize).readSize == (head - tail) % dataSize
    ensures head - tail < dataSize ==> GetBufPointers(head, tail, dataSize).readSize == head - tail
  {
    var begin, end := tail % dataSize, head % dataSize;
    var qt, qh := tail / dataSize, head / dataSize;
    var readSize := GetBufPointers(head, tail, dataSize).readSize;
    assert tail == qt * dataSize + begin && head == qh * dataSize + end;
    var q := if begin > end then qh - qt - 1 else qh - qt;
    assert q * dataSize == qh * dataSize - qt * dataSize - (if begin > end then dataSize else 0);
    DivModUnique(head - tail, dataSize, q, readSize);
    if head - tail < dataSize {
      DivModUnique(head - tail, dataSize, 0, head - tail);
    }
  }

  /**
   * Committing a checkout of the whole readable span empties the buffer:
   * with the head unchanged, the new tail leaves nothing to read.
   */
  lemma CommitDrains(head: nat, tail: nat, dataSize: nat)
    requires 0 < dataSize
    ensures GetBufPointers(head, tail + GetBufPointers(head, tail, dataSize).readSize, dataSize).readSize == 0
  {
  }

  /**
   * The cursor step of scap_bpf_advance_to_evt, on offsets from the start of
   * the data area: moving `size` bytes on from `offset` stays inside the ring
   * and is addition modulo the ring size.
   */
  function NextOffset(offset: nat, size: nat, dataSize: nat): (r: nat)
    requires offset < dataSize && size <= dataSize
    ensures r < dataSize
    ensures r == (offset + size) % dataSize
  {
    if offset + size > dataSize then
      DivModUnique(offset + size, dataSize, 1, offset + size - dataSize);
      offset + size - dataSize
    else if offset + size == dataSize then
      DivModUnique(offset + size, dataSize, 1, 0);
      0
    else
      DivModUnique(offset + size, dataSize, 0, offset + size);
      offset + size
  }

  /** Reducing the left operand first does not change a sum modulo `n`. */
  lemma ModOfSum(a: nat, b: nat, n: nat)
    requires 0 < n
    ensures (a % n + b) % n == (a + b) % n
  {
    var s := a % n + b;
    DivModUnique(a + b, n, a / n + s / n, s % n);
  }
}
