/**
 * The transaction framer of the driver (`SendAndReceive` in max30003.c), as pure
 * functions: how the access mode turns a register address into the command byte, how
 * long the frame on the bus is, and which HAL calls one transaction makes.
 */
module Framer {
  import opened Registers
  import opened Bus

  // The driver's integer modes. Any other value takes the read branch and the 4-byte
  // full-duplex exchange, exactly as the C code's fall-through does.
  const MODE_WRITE_READ: byte := 0
  const MODE_READ: byte := 1
  const MODE_WRITE: byte := 2
  const MODE_BURST: byte := 4

  /** Size of the zero-initialised local frame buffer `TX_Buffer_Cplt`. */
  const FRAME_CAPACITY: nat := 49

  /** The modes whose command byte carries the write direction (bit 0 clear). */
  predicate WritesRegister(mode: byte) {
    mode == MODE_WRITE_READ || mode == MODE_WRITE
  }

  /** The modes whose exchange clocks the chip's answer back into the receive buffer. */
  predicate Receives(mode: byte) {
    mode != MODE_WRITE
  }

  /** Number of bytes copied into the frame and exchanged: the whole FIFO burst, or one register access. */
  function FrameLength(mode: byte): nat {
    if mode == MODE_BURST then FRAME_CAPACITY else 4
  }

  /** `x << 1` stored back into a `uint8_t`: the top bit is lost. */
  function ShiftLeft1(x: byte): byte {
    (2 * x) % 0x100
  }

  /** `x & 0xFE`. */
  function ClearBit0(x: byte): byte {
    x - x % 2
  }

  /** `x | 0x01`. */
  function SetBit0(x: byte): byte {
    x - x % 2 + 1
  }

  /**
   * The command byte that replaces the address in byte 0 of the caller's buffer:
   * bit 0 is the direction (0 write, 1 read) and bits 7..1 hold the low seven bits
   * of the address.
   */
  function CommandByte(address: byte, mode: byte): (c: byte)
    ensures c % 2 == (if WritesRegister(mode) then 0 else 1)
    ensures c / 2 == address % 0x80
    ensures c == (2 * address) % 0x100 + (if WritesRegister(mode) then 0 else 1)
  {
    var shifted := ShiftLeft1(address);
    assert shifted == if address < 0x80 then 2 * address else 2 * address - 0x100;
    if WritesRegister(mode) then ClearBit0(shifted) else SetBit0(shifted)
  }

  /** The register address a command byte names (the address field of the command byte). */
  function CommandAddress(c: byte): (a: byte)
    ensures a < 0x80 && (c == 2 * a || c == 2 * a + 1)
  {
    c / 2
  }

  /** Whether a command byte asks the chip to answer (a read) rather than to store (a write). */
  predicate CommandReads(c: byte) {
    c % 2 == 1
  }

  /**
   * The bytes put on the bus for a request: the command byte, then bytes 1.. of the
   * request, FrameLength(mode) bytes in all.
   */
  function Frame(mode: byte, request: seq<byte>): seq<byte>
    requires |request| >= FrameLength(mode)
  {
    [CommandByte(request[0], mode)] + request[1..FrameLength(mode)]
  }

  /**
   * Layout of a frame: FrameLength(mode) bytes; byte 0 names the request's register (its
   * seven low bits) and carries the mode's direction; every later byte is the caller's.
   */
  lemma FrameLayout(mode: byte, request: seq<byte>)
    requires |request| >= FrameLength(mode)
    ensures |Frame(mode, request)| == FrameLength(mode)
    ensures CommandAddress(Frame(mode, request)[0]) == request[0] % 0x80
    ensures CommandReads(Frame(mode, request)[0]) <==> !WritesRegister(mode)
    ensures forall i :: 1 <= i < FrameLength(mode) ==> Frame(mode, request)[i] == request[i]
  {
  }

  /**
   * The HAL calls of one transaction: chip-select low, the exchange the mode selects
   * (transmit-only for a write, full-duplex otherwise), chip-select high.
   */
  function Transaction(spi: Handle, port: Handle, pin: uint16, mode: byte, frame: seq<byte>, response: seq<byte>)
    : (t: seq<BusEvent>)
    ensures |t| == 3
  {
    var exchange :=
      if mode == MODE_BURST then TransmitReceive(spi, frame, response)
      else if mode == MODE_WRITE then Transmit(spi, frame)
      else TransmitReceive(spi, frame, response);
    [PinWrite(port, pin, false), exchange, PinWrite(port, pin, true)]
  }

  /**
   * One transaction is a well-formed trace on its own: chip-select low on the bound pin,
   * a single exchange of the frame (transmit-only exactly in write mode, with the chip's
   * answer otherwise), chip-select high on the same pin.
   */
  lemma TransactionFramed(spi: Handle, port: Handle, pin: uint16, mode: byte, frame: seq<byte>, response: seq<byte>)
    ensures var t := Transaction(spi, port, pin, mode, frame, response);
      Framed(t) && Exchanges(t) == [t[1]] &&
      t[0] == PinWrite(port, pin, false) && t[2] == PinWrite(port, pin, true) &&
      t[1].IsExchange() && t[1].spi == spi && t[1].sent == frame &&
      (t[1].Transmit? <==> mode == MODE_WRITE) &&
      (t[1].TransmitReceive? ==> t[1].received == response)
  {
    var t := Transaction(spi, port, pin, mode, frame, response);
    assert t[3..] == [];
    CountsOfFirstTransaction(t);
  }

  /** A well-formed trace stays well-formed when one more transaction is appended. */
  lemma FramedExtend(t: seq<BusEvent>, spi: Handle, port: Handle, pin: uint16, mode: byte, frame: seq<byte>, response: seq<byte>)
    requires Framed(t)
    ensures Framed(t + Transaction(spi, port, pin, mode, frame, response))
  {
    TransactionFramed(spi, port, pin, mode, frame, response);
    FramedAppend(t, Transaction(spi, port, pin, mode, frame, response));
  }

  /**
   * The command byte drops bit 7 of the address: addresses 0x80 apart are the same
   * register on the wire.
   */
  lemma CommandByteDropsBit7(address: byte, mode: byte)
    requires address >= 0x80
    ensures CommandByte(address, mode) == CommandByte(address - 0x80, mode)
  {
  }
}
