# Ring buffer with a UART receive path, in Dafny

This project models `ring_buffer.c`: a fixed-capacity byte ring buffer fed by a UART receive
interrupt and drained by a non-blocking character read. The buffer has a caller-supplied backing
array of `n_elem` bytes and two `unsigned int` cursors. `head` counts the bytes ever written and
`tail` the bytes ever read, both modulo 2^32. The cursors wrap silently and are never masked themselves. The count
of live bytes is the wrapping difference `head - tail`, and the slot a cursor selects is
`cursor & (n_elem - 1)`.

Files:

- `word32.dfy` (module `Word32`): C `unsigned int` arithmetic. Values are integers in
  [0, 2^32). Subtraction and increment wrap explicitly, and `&` is a bit-by-bit `BitAnd`.
  It also holds the facts about masks and powers of two: the test `((n - 1) & n) == 0`
  accepts exactly 0 and the powers of two, and `c & (n - 1)` is `c mod n` for a power of two `n`.
- `ring_buffer.dfy` (module `RingBuffers`): `struct ring_buffer` as the class `RingBuffer`,
  with `ring_buffer_init`, `ring_buffer_full`, `ring_buffer_empty`, `ring_buffer_put` and
  `ring_buffer_get`. The ghost function `Contents()` gives the live bytes, oldest first. It reads
  the slots selected by `tail`, `tail + 1`, ... through the mask. `Valid()` is the object
  invariant: the capacity passes the power-of-two test, the array is at least `n_elem` long,
  and `head - tail <= n_elem`. Client methods check the following from the contracts alone.
  `InitChecksArguments` covers the argument checks, including refusal of capacity 3.
  `FifoOrder` and `PutBehind` cover first-in first-out order. `FillThenRefuse` covers
  filling at capacity 1, and `ZeroCapacity` the inert capacity 0.
- `uart.dfy` (module `UartBridge`): the receive-interrupt flag and receive register as the
  class `Uart`, with `UART_READ_interrupt` and `uart_getchar`. The client `ReceiveTwice` runs
  two interrupts and three reads on an empty buffer.

The cursors are modelled at their full 32-bit width. Every lemma holds for all cursor values,
including cursors that have wrapped. Every operation keeps `head - tail` between 0 and `n_elem`
because every method requires and ensures `Valid()`.

The code accepts `n_elem == 0`, since `(0 - 1) & 0 == 0` in unsigned arithmetic, although a
capacity of at least 1 is the stated intent. The model follows the code. With capacity 0 the
buffer is both full and empty, so every put and get fails without touching the array.

## Model

| member | source | states |
|---|---|---|
| `Word32.Sub` | ring_buffer.c:65 | `a - b` on `unsigned int` is the plain difference when `a >= b` and the difference plus 2^32 when it wraps |
| `Word32.Inc` | ring_buffer.c:120 | `head++` adds one, and UINT_MAX wraps to 0 |
| `Word32.BitAnd` | ring_buffer.c:118 | the bit-wise and is at most either operand, so a masked cursor never exceeds the mask |
| `Word32.PowerOfTwoTestAccepts` | ring_buffer.c:92 | `((n - 1) & n) == 0`, evaluated with wrap-around, holds exactly when `n` is 0 or a power of two (reference definition `IsPowerOfTwo`) |
| `Word32.MaskIsRemainder` | ring_buffer.c:118 | for a power of two `n`, `c & (n - 1) == c mod n` |
| `Word32.WrapThenRemainder` | ring_buffer.c:26-27 | reducing a cursor modulo 2^32 leaves its remainder modulo a power-of-two capacity unchanged, so letting the cursors overflow is harmless |
| `RingBuffers.Offset` | ring_buffer.c:118 | the slot `cursor & (n_elem - 1)` is below `n_elem` whenever `n_elem != 0`, so the array access is in bounds |
| `RingBuffers.OffsetIsRemainder` | ring_buffer.c:138 | for a capacity that passes the init test and is nonzero, the slot is `cursor mod n_elem` |
| `RingBuffers.OffsetsDiffer` | ring_buffer.c:118 | two cursors between 1 and `n_elem - 1` apart select different slots, also when one has wrapped past 2^32 |
| `RingBuffers.LiveLength` | ring_buffer.c:65 | the live contents hold exactly `head - tail` bytes |
| `RingBuffers.LiveAppend` | ring_buffer.c:115-120 | writing the slot selected by `head` appends the byte to the live contents and overwrites no live byte, while fewer than `n_elem` bytes are held |
| `RingBuffers.RingBuffer.constructor` | ring_buffer.c:51 | the zero-initialised static struct (`n_elem` 0, no array, cursors 0) satisfies the invariant and holds nothing |
| `RingBuffers.RingBuffer.Full` | ring_buffer.c:63-66 | returns 1 exactly when `n_elem` bytes are held, otherwise 0, and changes nothing |
| `RingBuffers.RingBuffer.Empty` | ring_buffer.c:73-76 | returns 1 exactly when no byte is held, otherwise 0, and changes nothing |
| `RingBuffers.RingBuffer.Init` | ring_buffer.c:83-105 | returns 0 exactly when the attribute pointer and its buffer are non-null and the capacity passes the power-of-two test. It then sets `head = tail = 0` and takes the buffer and capacity, and the buffer is empty. Otherwise it returns -1 and changes nothing |
| `RingBuffers.RingBuffer.Put` | ring_buffer.c:112-125 | when not full, writes the byte to slot `head & (n_elem - 1)`, increments `head` with wrap-around, appends the byte to the contents and returns 0. When full, returns -1 and changes nothing. `tail` and the other slots never change |
| `RingBuffers.RingBuffer.Get` | ring_buffer.c:132-145 | when not empty, returns 0 with the oldest byte (slot `tail & (n_elem - 1)`), increments `tail` with wrap-around and removes that byte. When empty, returns -1 and leaves `*data` and all state alone. `head` and the array never change |
| `UartBridge.Uart.constructor` | ring_buffer.c:33-36 | the interrupt flag and receive register start at 0 |
| `UartBridge.Uart.ReadInterrupt` | ring_buffer.c:152-159 | with the flag clear, nothing changes. With the flag set, the flag is cleared and the received byte is appended, or dropped when the buffer is full |
| `UartBridge.Uart.GetChar` | ring_buffer.c:165-173 | returns the oldest byte, removing it, or -1 when the buffer is empty |

## Left out

- `uart_putchar` (ring_buffer.c:180-188): it busy-waits on the write flag and writes the transmit register, and never touches the ring buffer.
- `main` (ring_buffer.c:194-232), the baud-rate registers and constants, and the global `attr` and `RingBufferMemory` it uses: demonstration code. The client methods exercise a similar sequence.
- The `printf` diagnostics after a successful put or get (ring_buffer.c:122, 142): output only.
- `volatile` and preemption by the interrupt. Each operation is modelled as one atomic step, so single-producer/single-consumer safety under interleaving is not modelled.
- Pointers: `memcpy` of one byte and the memory-mapped `UART_READ_ADDR` are modelled as one-byte reads and writes. The byte arguments of put and get are passed by value, and `*data` of get is a `prior` input returned unchanged on failure.
- `RingBuffers.RingBuffer.Init`: requires that an array it would accept holds at least `n_elem` bytes. The code cannot check this, and a shorter array makes later accesses undefined behaviour.
- `UartBridge.Uart.GetChar`: bytes are unsigned throughout. The code passes the byte through a plain `char`. Where `char` is signed, bytes of 0x80 and above come back negative, and 0xFF cannot be told apart from -1. The initial `char c = -1` is modelled as the byte 0xFF.
