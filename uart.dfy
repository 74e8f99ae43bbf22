/**
 * The UART receive path of ring_buffer.c: an interrupt routine that moves the
 * received byte into the ring buffer, and a non-blocking character read.
 */
module UartBridge {
  import opened Word32
  import opened RingBuffers

  /** The memory-mapped receive registers, and the ring buffer they feed. */
  class Uart {
    /** ReadInterruptControlFlag: non-zero when a received byte is waiting. */
    var readFlag: byte
    /** UARTIN: the receive register. */
    var rxRegister: byte
    /** The global ring buffer. */
    const rb: RingBuffer

    /** The registers start at zero. */
    constructor (rb: RingBuffer)
      ensures this.rb == rb && readFlag == 0 && rxRegister == 0
    {
      this.rb := rb;
      readFlag, rxRegister := 0, 0;
    }

    /** UART_READ_interrupt. A byte that finds the buffer full is dropped. */
    method ReadInterrupt()
      requires rb.Valid()
      modifies this`readFlag, rb`head, rb.buf
      ensures rb.Valid() && readFlag == 0
      ensures old(readFlag) == 0 ==> rb.head == old(rb.head) && (rb.buf != null ==> rb.buf[..] == old(rb.buf[..]))
      ensures rb.Contents() ==
        if old(readFlag) != 0 && old(rb.Full()) == 0 then old(rb.Contents()) + [old(rxRegister)]
        else old(rb.Contents())
    {
      if readFlag != 0 {
        readFlag := 0;
        var _ := rb.Put(rxRegister);
      }
    }

    /** uart_getchar: the oldest byte, or -1 when the buffer is empty. */
    method GetChar() returns (r: int)
      requires rb.Valid()
      modifies rb`tail
      ensures rb.Valid()
      ensures -1 <= r < 256
      ensures old(rb.Contents()) == [] ==> r == -1 && rb.tail == old(rb.tail)
      ensures old(rb.Contents()) != [] ==> r == old(rb.Contents())[0] && rb.Contents() == old(rb.Contents())[1..]
    {
      r := -1;
      // `char c = -1`, seen as an unsigned byte
      var err, c := rb.Get(0xFF);
      if err == 0 {
        r := c;
      }
    }
  }

  /** The receive path end to end: two bytes arrive and are read back in order. */
  method ReceiveTwice(uart: Uart, a: byte, b: byte)
    requires uart.rb.Valid() && uart.rb.Contents() == [] && uart.rb.nElem >= 2
    modifies uart, uart.rb, uart.rb.buf
  {
    uart.rxRegister, uart.readFlag := a, 1;
    uart.ReadInterrupt();
    uart.rxRegister, uart.readFlag := b, 1;
    uart.ReadInterrupt();
    assert uart.rb.Contents() == [a, b];
    var x := uart.GetChar();
    var y := uart.GetChar();
    var z := uart.GetChar();
    assert x == a && y == b && z == -1;
  }
}
