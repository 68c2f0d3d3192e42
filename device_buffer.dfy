/**
 * The device's circular byte buffer (`Buffer`, `buffer_push`, `buffer_pop` in
 * usart.c): a fixed array of MAX_BUFFER_LENGTH bytes with a start index (next
 * byte to pop) and an end index (next free slot). One slot always stays free,
 * so the buffer holds at most MAX_BUFFER_LENGTH - 1 bytes.
 */
module UsartBuffer {
  import opened Wrappers

  /**
   * Status codes. Their values are defined in headers that are not part of this
   * model; OK is taken to be 0 and the two error codes to be no-data message
   * types with both error bits set, since the device sends them as message types.
   */
  const OK: int := 0
  const BufferErrorType: int := 0x30
  const MessageErrorType: int := 0x31

  class Buffer {
    const data: array<Byte>
    var start: nat
    var end: nat

    /** Both indices stay inside the array, whose length is MAX_BUFFER_LENGTH > 0. */
    ghost predicate Valid()
      reads this
    {
      data.Length > 0 && start < data.Length && end < data.Length
    }

    /** The bytes waiting in the buffer, oldest first. */
    ghost function Contents(): (s: seq<Byte>)
      reads this, data
      requires Valid()
      ensures |s| < data.Length
      ensures |s| == if start <= end then end - start else data.Length - start + end
    {
      if start <= end then data[start..end] else data[start..] + data[..end]
    }

    /** `calloc`: an all-zero array with both indices at 0. */
    constructor (max: nat)
      requires max > 0
      ensures Valid() && fresh(data) && data.Length == max
      ensures start == 0 && end == 0 && Contents() == []
    {
      data := new Byte[max](_ => 0);
      start, end := 0, 0;
    }

    /** The buffer's empty test: `start == end`. */
    predicate IsEmpty()
      reads this, data
      requires Valid()
      ensures IsEmpty() <==> Contents() == []
    {
      start == end
    }

    /** The buffer's full test: `(end + 1) % MAX == start`. */
    predicate IsFull()
      reads this, data
      requires Valid()
      ensures IsFull() <==> |Contents()| == data.Length - 1
    {
      NextIndex(end, data.Length);
      (end + 1) % data.Length == start
    }

    /**
     * `buffer_push`: on a full buffer report BUFFER_ERROR_TYPE and change nothing;
     * otherwise store the byte at `end` and advance `end` modulo MAX.
     */
    method Push(x: Byte) returns (status: int)
      requires Valid()
      modifies this, data
      ensures Valid() && start == old(start)
      ensures status == if old(IsFull()) then BufferErrorType else OK
      ensures old(IsFull()) ==> end == old(end) && data[..] == old(data[..])
      ensures !old(IsFull()) ==> end == (old(end) + 1) % data.Length && data[..] == old(data[..])[old(end) := x]
      ensures Contents() == if old(IsFull()) then old(Contents()) else old(Contents()) + [x]
    {
      NextIndex(end, data.Length);
      if (end + 1) % data.Length == start {
        return BufferErrorType;
      }
      ghost var before := Contents();
      data[end] := x;
      if start <= end {
        assert data[start..end] == before;
      } else {
        assert data[start..] == old(data[start..]);
        assert data[..end] == old(data[..end]);
      }
      end := (end + 1) % data.Length;
      if end == 0 {
        assert data[start..] == before + [x];
      } else if start < end {
        assert data[start..end] == data[start..end - 1] + [x];
      } else {
        assert data[..end] == data[..end - 1] + [x];
      }
      status := OK;
    }

    /**
     * `buffer_pop`: on an empty buffer report BUFFER_ERROR_TYPE and change nothing
     * (the byte returned is then 0); otherwise return `data[start]` and advance
     * `start` modulo MAX.
     */
    method Pop() returns (status: int, x: Byte)
      requires Valid()
      modifies this
      ensures Valid() && end == old(end)
      ensures status == if old(IsEmpty()) then BufferErrorType else OK
      ensures old(IsEmpty()) ==> start == old(start) && x == 0
      ensures !old(IsEmpty()) ==>
                x == data[old(start)] && x == old(Contents())[0] && start == (old(start) + 1) % data.Length
      ensures Contents() == if old(IsEmpty()) then old(Contents()) else old(Contents())[1..]
    {
      if end == start {
        return BufferErrorType, 0;
      }
      x := data[start];
      NextIndex(start, data.Length);
      start := (start + 1) % data.Length;
      if start == 0 {
        assert data[..end] == old(Contents())[1..];
      }
      status := OK;
    }

    /** The buffer half of `wipe_in_buffer` / `wipe_out_buffer`: `start := end`. */
    method Wipe()
      requires Valid()
      modifies this
      ensures Valid() && start == old(end) && end == old(end)
      ensures Contents() == []
    {
      start := end;
    }
  }

  /** Advancing an index modulo MAX wraps from the last slot to slot 0. */
  lemma NextIndex(i: nat, n: nat)
    requires i < n
    ensures (i + 1) % n == if i + 1 == n then 0 else i + 1
  {
  }

  /** Bytes come out of the buffer in the order they went in: push then pop on an empty buffer. */
  method PushPopFifo(b: Buffer, x: Byte, y: Byte) returns (first: Byte, second: Byte)
    requires b.Valid() && b.IsEmpty() && b.data.Length >= 3
    modifies b, b.data
    ensures first == x && second == y
  {
    var s := b.Push(x);
    s := b.Push(y);
    s, first := b.Pop();
    s, second := b.Pop();
  }
}
