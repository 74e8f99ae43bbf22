/**
 * The fixed-capacity byte ring buffer of ring_buffer.c: a backing array of
 * n_elem bytes and two free-running `unsigned int` cursors, head (next slot to
 * write) and tail (next slot to read).
 */
module RingBuffers {
  import opened Word32

  /** A possibly-null pointer. */
  datatype Option<T> = None | Some(value: T)

  /** `struct ringbuffer_attribute`: the requested capacity and the caller's backing array. */
  datatype Attribute = Attribute(nElem: uint32, buffer: array?<byte>)

  /** The physical slot `cursor & (n_elem - 1)` that a cursor selects. */
  function Offset(cursor: uint32, nElem: uint32): (r: uint32)
    ensures nElem != 0 ==> r < nElem
  {
    And(cursor, Sub(nElem, 1))
  }

  /** The number of live bytes, `head - tail` as an `unsigned int`. */
  function Distance(head: uint32, tail: uint32): uint32 {
    Sub(head, tail)
  }

  /** The conditions under which ring_buffer_init succeeds. */
  predicate Accepts(attr: Option<Attribute>) {
    attr.Some? && attr.value.buffer != null && PassesPowerOfTwoTest(attr.value.nElem)
  }

  /**
   * The bytes held in the buffer, oldest first: the `count` slots selected by
   * the cursors tail, tail + 1, ..., each wrapped at 2^32 and masked.
   */
  ghost function Live(slots: seq<byte>, nElem: uint32, tail: uint32, count: nat): seq<byte>
    requires count == 0 || 0 < nElem <= |slots|
    decreases count
  {
    if count == 0 then [] else [slots[Offset(tail, nElem)]] + Live(slots, nElem, Inc(tail), count - 1)
  }

  lemma {:induction false} LiveLength(slots: seq<byte>, nElem: uint32, tail: uint32, count: nat)
    requires count == 0 || 0 < nElem <= |slots|
    ensures |Live(slots, nElem, tail, count)| == count
    decreases count
  {
    if count != 0 {
      LiveLength(slots, nElem, Inc(tail), count - 1);
    }
  }

  /** For a capacity that passes the test, masking a cursor is reduction modulo the capacity. */
  lemma OffsetIsRemainder(cursor: uint32, nElem: uint32)
    requires nElem != 0 && PassesPowerOfTwoTest(nElem)
    ensures Offset(cursor, nElem) == cursor % nElem
  {
    PowerOfTwoTestAccepts(nElem);
    MaskIsRemainder(cursor, nElem);
  }

  /** Cursors fewer than n_elem apart, even across the 2^32 wrap, select different slots. */
  lemma OffsetsDiffer(tail: uint32, d: int, nElem: uint32)
    requires PassesPowerOfTwoTest(nElem) && 0 < d < nElem
    ensures Offset(tail, nElem) != Offset(Wrap(tail + d), nElem)
  {
    PowerOfTwoTestAccepts(nElem);
    OffsetIsRemainder(tail, nElem);
    OffsetIsRemainder(Wrap(tail + d), nElem);
    WrapThenRemainder(tail + d, nElem);
    RemaindersDiffer(tail, d, nElem);
  }

  /**
   * Writing the slot selected by tail + count appends the byte to the live
   * contents and overwrites none of the live bytes, as long as count < n_elem.
   */
  lemma {:induction false} LiveAppend(slots: seq<byte>, nElem: uint32, tail: uint32, count: nat, b: byte)
    requires PassesPowerOfTwoTest(nElem) && count < nElem <= |slots|
    ensures Live(slots[Offset(Wrap(tail + count), nElem) := b], nElem, tail, count + 1)
         == Live(slots, nElem, tail, count) + [b]
    decreases count
  {
    var written := slots[Offset(Wrap(tail + count), nElem) := b];
    if count != 0 {
      var first := Offset(tail, nElem);
      OffsetsDiffer(tail, count, nElem);
      WrapShift(tail, count - 1);
      LiveAppend(slots, nElem, Inc(tail), count - 1, b);
      calc {
        Live(written, nElem, tail, count + 1);
        [written[first]] + Live(written, nElem, Inc(tail), count);
        [slots[first]] + (Live(slots, nElem, Inc(tail), count - 1) + [b]);
        ([slots[first]] + Live(slots, nElem, Inc(tail), count - 1)) + [b];
        Live(slots, nElem, tail, count) + [b];
      }
    }
  }

  /** Starting one cursor later and going one step fewer reaches the same cursor. */
  lemma WrapShift(tail: uint32, k: nat)
    ensures Wrap(Inc(tail) + k) == Wrap(tail + (k + 1))
  {
  }

  /** `struct ring_buffer`. */
  class RingBuffer {
    var nElem: uint32
    var buf: array?<byte>
    var head: uint32
    var tail: uint32

    /** The fields keep within what ring_buffer_init and the two cursors allow. */
    ghost predicate Valid()
      reads this
    {
      PassesPowerOfTwoTest(nElem) &&
      (nElem != 0 ==> buf != null && nElem as int <= buf.Length) &&
      Distance(head, tail) <= nElem
    }

    ghost function Slots(): seq<byte>
      reads this, buf
    {
      if buf == null then [] else buf[..]
    }

    /** The bytes held, oldest first. */
    ghost function Contents(): (s: seq<byte>)
      requires Valid()
      reads this, buf
      ensures |s| == Distance(head, tail)
    {
      LiveLength(Slots(), nElem, tail, Distance(head, tail));
      Live(Slots(), nElem, tail, Distance(head, tail))
    }

    /** The zero-initialised static struct, before ring_buffer_init. */
    constructor ()
      ensures nElem == 0 && buf == null && head == 0 && tail == 0
      ensures Valid() && Contents() == []
    {
      nElem, buf, head, tail := 0, null, 0, 0;
    }

    /** ring_buffer_full: 1 exactly when n_elem bytes are held. */
    function Full(): (r: int)
      reads this, buf
      ensures r == 0 || r == 1
      ensures Valid() ==> (r == 1 <==> |Contents()| == nElem)
    {
      if Distance(head, tail) == nElem then 1 else 0
    }

    /** ring_buffer_empty: 1 exactly when no byte is held. */
    function Empty(): (r: int)
      reads this, buf
      ensures r == 0 || r == 1
      ensures Valid() ==> (r == 1 <==> Contents() == [])
    {
      if Distance(head, tail) == 0 then 1 else 0
    }

    /** ring_buffer_init. */
    method Init(attr: Option<Attribute>) returns (err: int)
      requires Valid()
      requires Accepts(attr) ==> attr.value.nElem as int <= attr.value.buffer.Length
      modifies this
      ensures Valid()
      ensures err == 0 || err == -1
      ensures err == 0 <==> Accepts(attr)
      ensures err == 0 ==> nElem == attr.value.nElem && buf == attr.value.buffer && head == 0 && tail == 0
      ensures err == 0 ==> Contents() == []
      ensures err != 0 ==> unchanged(this)
    {
      err := -1;
      if attr.Some? {
        if attr.value.buffer != null {
          if PassesPowerOfTwoTest(attr.value.nElem) {
            head := 0;
            tail := 0;
            buf := attr.value.buffer;
            nElem := attr.value.nElem;
            err := 0;
          }
        }
      }
    }

    /** ring_buffer_put. */
    method Put(data: byte) returns (err: int)
      requires Valid()
      modifies this`head, buf
      ensures Valid()
      ensures err == 0 || err == -1
      ensures err == 0 <==> old(Full()) == 0
      ensures Contents() == if err == 0 then old(Contents()) + [data] else old(Contents())
      ensures err == 0 ==> buf != null && head == Inc(old(head))
      ensures err == 0 ==> buf[..] == old(buf[..])[Offset(old(head), nElem) := data]
      ensures err != 0 ==> head == old(head) && (buf != null ==> buf[..] == old(buf[..]))
    {
      err := -1;
      if Full() == 0 {
        ghost var before, count := Slots(), Distance(head, tail);
        assert head == Wrap(tail + count);
        var offset := Offset(head, nElem);
        buf[offset] := data;
        head := Inc(head);
        err := 0;
        LiveAppend(before, nElem, tail, count, data);
        assert Distance(head, tail) == count + 1;
      }
    }

    /** ring_buffer_get; `prior` is what `*data` held before the call. */
    method Get(prior: byte) returns (err: int, data: byte)
      requires Valid()
      modifies this`tail
      ensures Valid()
      ensures err == 0 || err == -1
      ensures err == 0 <==> old(Empty()) == 0
      ensures err == 0 ==> buf != null && data == buf[Offset(old(tail), nElem)] && tail == Inc(old(tail))
      ensures err == 0 ==> data == old(Contents())[0] && Contents() == old(Contents())[1..]
      ensures err != 0 ==> data == prior && tail == old(tail)
    {
      err, data := -1, prior;
      if Empty() == 0 {
        var offset := Offset(tail, nElem);
        data := buf[offset];
        tail := Inc(tail);
        err := 0;
      }
    }
  }

  /** ring_buffer_init refuses a missing attribute, a missing array and capacity 3, and accepts capacity 8. */
  method InitChecksArguments() {
    var rb := new RingBuffer();
    var memory := new byte[8];
    var err := rb.Init(None);
    assert err == -1;
    err := rb.Init(Some(Attribute(8, null)));
    assert err == -1;
    err := rb.Init(Some(Attribute(3, memory)));
    assert err == -1;
    err := rb.Init(Some(Attribute(8, memory)));
    assert err == 0 && rb.Empty() == 1 && rb.Full() == 0;
  }

  /** On an empty buffer of capacity at least 2, two bytes come back in the order they went in. */
  method FifoOrder(rb: RingBuffer, a: byte, b: byte)
    requires rb.Valid() && rb.Contents() == [] && rb.nElem >= 2
    modifies rb, rb.buf
  {
    var err := rb.Put(a);
    err := rb.Put(b);
    var x, y;
    err, x := rb.Get(0);
    err, y := rb.Get(0);
    assert x == a && y == b;
    err, x := rb.Get(0);
    assert err == -1;
  }

  /** A byte put behind one already held comes out after it. */
  method PutBehind(rb: RingBuffer, b: byte, c: byte)
    requires rb.Valid() && rb.Contents() == [b] && rb.nElem >= 2
    modifies rb, rb.buf
  {
    var err := rb.Put(c);
    assert err == 0;
    var x, y;
    err, x := rb.Get(0);
    err, y := rb.Get(0);
    assert x == b && y == c && rb.Empty() == 1;
  }

  /** A buffer of capacity 1 is full after one byte, and a second put is refused. */
  method FillThenRefuse(rb: RingBuffer, a: byte, b: byte)
    requires rb.Valid() && rb.Contents() == [] && rb.nElem == 1
    modifies rb, rb.buf
  {
    var err := rb.Put(a);
    assert err == 0 && rb.Full() == 1;
    err := rb.Put(b);
    assert err == -1 && rb.Contents() == [a];
  }

  /** With capacity 0, which ring_buffer_init accepts, every put and get is refused. */
  method ZeroCapacity(rb: RingBuffer, a: byte, b: byte)
    requires rb.Valid() && rb.nElem == 0
    modifies rb, rb.buf
  {
    var err := rb.Put(a);
    assert err == -1;
    var x;
    err, x := rb.Get(b);
    assert err == -1 && x == b;
  }
}
