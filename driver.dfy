/**
 * The MAX30003 driver (max30003.c): the static SPI/chip-select binding, the framer
 * `SendAndReceive` that works on the caller's buffers in place, and the five register
 * operations. The HAL calls are methods that append to a ghost bus trace; the bytes the
 * chip shifts out during a full-duplex exchange are a `response` argument.
 */
module Driver {
  import opened Registers
  import opened Bus
  import opened Framer

  /** The power-up configuration table written by `MAX30003_Init`, one register per row, in order. */
  const INIT_SEQUENCES: seq<Request> := [
    [SW_RST, 0x00, 0x00, 0x00],
    [CNFG_GEN, 0x08, 0x10, 0x07],
    [CNFG_CAL, 0x70, 0x00, 0x00],
    [CNFG_EMUX, 0x0B, 0x00, 0x00],
    [CNFG_ECG, 0x00, 0x50, 0x00],
    [EN_INT, 0x80, 0x00, 0x01],
    [MNGR_INT, 0x78, 0x00, 0x04],
    [FIFO_RST, 0x00, 0x00, 0x00],
    [0x09, 0x00, 0x00, 0x00]
  ]

  /** The frame `MAX30003_WriteRegister(address, data)` puts on the bus. */
  function WriteRegisterFrame(address: byte, data: Word): (f: seq<byte>)
    ensures f == [(2 * address) % 0x100] + data
  {
    Frame(MODE_WRITE, [address] + data)
  }

  /** The frame `MAX30003_ReadRegister(address, ...)` puts on the bus. */
  function ReadRegisterFrame(address: byte): (f: seq<byte>)
    ensures f == [(2 * address) % 0x100 + 1, 0, 0, 0]
  {
    Frame(MODE_READ, [address, 0, 0, 0])
  }

  /** 'n' zero bytes. */
  function Zeros(n: nat): (z: seq<byte>)
    ensures |z| == n && forall i :: 0 <= i < n ==> z[i] == 0
  {
    seq(n, _ => 0)
  }

  /** The frame `MAX30003_ReadECG` puts on the bus: one read command for the FIFO, then 48 filler bytes. */
  function ReadEcgFrame(): (f: seq<byte>)
    ensures f == [0x41] + Zeros(48)
  {
    Frame(MODE_BURST, [ECG_FIFO] + Zeros(48))
  }

  /** The HAL calls of a series of register writes, one transaction per request, in order. */
  function WriteTransactions(spi: Handle, port: Handle, pin: uint16, requests: seq<Request>): (t: seq<BusEvent>)
    ensures |t| == 3 * |requests|
  {
    if requests == [] then []
    else
      WriteTransactions(spi, port, pin, requests[..|requests| - 1]) +
      Transaction(spi, port, pin, MODE_WRITE, Frame(MODE_WRITE, requests[|requests| - 1]), [])
  }

  /** The power-up table as it appears on the wire: command byte (address shifted, write bit clear) and data. */
  const INIT_FRAMES: seq<seq<byte>> := [
    [0x10, 0x00, 0x00, 0x00],
    [0x20, 0x08, 0x10, 0x07],
    [0x24, 0x70, 0x00, 0x00],
    [0x28, 0x0B, 0x00, 0x00],
    [0x2A, 0x00, 0x50, 0x00],
    [0x04, 0x80, 0x00, 0x01],
    [0x08, 0x78, 0x00, 0x04],
    [0x14, 0x00, 0x00, 0x00],
    [0x12, 0x00, 0x00, 0x00]
  ]

  /** The write transactions of two series of requests, one after the other. */
  lemma {:induction false} WriteTransactionsAppend(spi: Handle, port: Handle, pin: uint16, a: seq<Request>, b: seq<Request>)
    ensures WriteTransactions(spi, port, pin, a + b) ==
      WriteTransactions(spi, port, pin, a) + WriteTransactions(spi, port, pin, b)
    decreases |b|
  {
    if b == [] {
      assert a + b == a;
    } else {
      var n := |b| - 1;
      assert (a + b)[..|a + b| - 1] == a + b[..n];
      assert (a + b)[|a + b| - 1] == b[n];
      WriteTransactionsAppend(spi, port, pin, a, b[..n]);
    }
  }

  /** A series of register writes is a well-formed trace. */
  lemma {:induction false} WriteTransactionsFramed(spi: Handle, port: Handle, pin: uint16, requests: seq<Request>)
    ensures Framed(WriteTransactions(spi, port, pin, requests))
    decreases |requests|
  {
    if requests != [] {
      var n := |requests| - 1;
      WriteTransactionsFramed(spi, port, pin, requests[..n]);
      TransactionFramed(spi, port, pin, MODE_WRITE, Frame(MODE_WRITE, requests[n]), []);
      FramedAppend(WriteTransactions(spi, port, pin, requests[..n]),
                   Transaction(spi, port, pin, MODE_WRITE, Frame(MODE_WRITE, requests[n]), []));
    }
  }

  /** The exchanges of a series of writes grow by one transmit per request. */
  lemma WriteExchangesSnoc(spi: Handle, port: Handle, pin: uint16, requests: seq<Request>)
    requires requests != []
    ensures Exchanges(WriteTransactions(spi, port, pin, requests)) ==
      Exchanges(WriteTransactions(spi, port, pin, requests[..|requests| - 1])) +
      [Transmit(spi, Frame(MODE_WRITE, requests[|requests| - 1]))]
  {
    var n := |requests| - 1;
    TransactionFramed(spi, port, pin, MODE_WRITE, Frame(MODE_WRITE, requests[n]), []);
    ExchangesAppend(WriteTransactions(spi, port, pin, requests[..n]),
                    Transaction(spi, port, pin, MODE_WRITE, Frame(MODE_WRITE, requests[n]), []));
  }

  /**
   * The exchanges of a series of register writes are exactly the requests' frames, each
   * transmit-only on the given SPI handle, in request order.
   */
  lemma {:induction false} WriteTransactionsExchanges(spi: Handle, port: Handle, pin: uint16, requests: seq<Request>)
    ensures var e := Exchanges(WriteTransactions(spi, port, pin, requests));
      |e| == |requests| &&
      forall k :: 0 <= k < |requests| ==> e[k] == Transmit(spi, Frame(MODE_WRITE, requests[k]))
    decreases |requests|
  {
    if requests != [] {
      var n := |requests| - 1;
      var init := requests[..n];
      var before := Exchanges(WriteTransactions(spi, port, pin, init));
      WriteTransactionsExchanges(spi, port, pin, init);
      WriteExchangesSnoc(spi, port, pin, requests);
      forall k | 0 <= k < n
        ensures before[k] == Transmit(spi, Frame(MODE_WRITE, requests[k]))
      {
        assert init[k] == requests[k];
      }
    }
  }

  /** Each row of the power-up table becomes the corresponding wire frame. */
  lemma InitFramesOnTheWire()
    ensures |INIT_FRAMES| == |INIT_SEQUENCES|
    ensures forall k :: 0 <= k < |INIT_SEQUENCES| ==> Frame(MODE_WRITE, INIT_SEQUENCES[k]) == INIT_FRAMES[k]
  {
    forall k | 0 <= k < |INIT_SEQUENCES|
      ensures Frame(MODE_WRITE, INIT_SEQUENCES[k]) == INIT_FRAMES[k]
    {
      var r := INIT_SEQUENCES[k];
      assert Frame(MODE_WRITE, r) == [CommandByte(r[0], MODE_WRITE), r[1], r[2], r[3]];
    }
  }

  /**
   * `MAX30003_Init` configures the chip with exactly nine transmit-only writes on the bound
   * SPI handle, in table order: the software reset first, the synchronisation reset of
   * register 0x09 last.
   */
  lemma InitWritesConfigurationTable(spi: Handle, port: Handle, pin: uint16)
    ensures Framed(WriteTransactions(spi, port, pin, INIT_SEQUENCES))
    ensures var e := Exchanges(WriteTransactions(spi, port, pin, INIT_SEQUENCES));
      |e| == 9 && forall k :: 0 <= k < 9 ==> e[k] == Transmit(spi, INIT_FRAMES[k])
    ensures INIT_FRAMES[0] == WriteRegisterFrame(SW_RST, [0, 0, 0])
    ensures INIT_FRAMES[8] == WriteRegisterFrame(0x09, [0, 0, 0])
  {
    WriteTransactionsFramed(spi, port, pin, INIT_SEQUENCES);
    WriteTransactionsExchanges(spi, port, pin, INIT_SEQUENCES);
    InitFramesOnTheWire();
  }

  /** `MAX30003_Reset` issues exactly the transaction `MAX30003_Init` starts with. */
  lemma ResetIsFirstInitStep(spi: Handle, port: Handle, pin: uint16)
    ensures WriteTransactions(spi, port, pin, INIT_SEQUENCES)[..3] ==
      Transaction(spi, port, pin, MODE_WRITE, WriteRegisterFrame(SW_RST, [0, 0, 0]), [])
  {
    var first, rest := INIT_SEQUENCES[..1], INIT_SEQUENCES[1..];
    assert INIT_SEQUENCES == first + rest;
    WriteTransactionsAppend(spi, port, pin, first, rest);
    assert first[..0] == [];
    var head := WriteTransactions(spi, port, pin, first);
    assert |head| == 3;
    assert (head + WriteTransactions(spi, port, pin, rest))[..3] == head;
    assert Frame(MODE_WRITE, first[0]) == WriteRegisterFrame(SW_RST, [0, 0, 0]);
  }

  /** Appending one more write request appends its transaction. */
  lemma WriteTransactionsSnoc(spi: Handle, port: Handle, pin: uint16, requests: seq<Request>, r: Request)
    ensures WriteTransactions(spi, port, pin, requests + [r]) ==
      WriteTransactions(spi, port, pin, requests) + Transaction(spi, port, pin, MODE_WRITE, Frame(MODE_WRITE, r), [])
  {
    assert (requests + [r])[..|requests|] == requests;
  }

  /**
   * The driver's state: the three static variables of max30003.c, NULL until
   * `Init`, and the trace of every HAL call made so far.
   */
  class Max30003 {
    var spi: Handle
    var csPort: Handle
    var csPin: uint16
    ghost var trace: seq<BusEvent>

    /** The trace is made of whole chip-select-bracketed transactions. */
    ghost predicate Valid()
      reads this
    {
      Framed(trace)
    }

    /** Program start: static storage is zero, so both pointers are NULL and the pin is 0. */
    constructor ()
      ensures Valid()
      ensures spi == Null && csPort == Null && csPin == 0 && trace == []
    {
      spi, csPort, csPin := Null, Null, 0;
      trace := [];
    }

    /** `HAL_GPIO_WritePin`: drives the pin low (`GPIO_PIN_RESET`) or high (`GPIO_PIN_SET`). */
    method HalGpioWritePin(port: Handle, pin: uint16, high: bool)
      modifies this`trace
      ensures trace == old(trace) + [PinWrite(port, pin, high)]
    {
      trace := trace + [PinWrite(port, pin, high)];
    }

    /** `HAL_SPI_Transmit`: clocks out the first 'size' bytes of 'txData'; nothing is received. */
    method HalSpiTransmit(hspi: Handle, txData: array<byte>, size: nat)
      requires size <= txData.Length
      modifies this`trace
      ensures trace == old(trace) + [Transmit(hspi, txData[..size])]
    {
      trace := trace + [Transmit(hspi, txData[..size])];
    }

    /**
     * `HAL_SPI_TransmitReceive`: clocks out the first 'size' bytes of 'txData' and stores
     * the 'size' bytes the chip shifts out at the same time ('response') in 'rxData'.
     */
    method HalSpiTransmitReceive(hspi: Handle, txData: array<byte>, rxData: array<byte>, size: nat, response: seq<byte>)
      requires txData != rxData
      requires size <= txData.Length && size <= rxData.Length && |response| == size
      modifies this`trace, rxData
      ensures rxData[..] == response + old(rxData[..])[size..]
      ensures trace == old(trace) + [TransmitReceive(hspi, txData[..size], response)]
    {
      var i := 0;
      while i < size
        invariant 0 <= i <= size
        invariant trace == old(trace)
        invariant rxData[..i] == response[..i]
        invariant rxData[i..] == old(rxData[i..])
      {
        rxData[i] := response[i];
        i := i + 1;
      }
      trace := trace + [TransmitReceive(hspi, txData[..size], response)];
    }

    /**
     * `SendAndReceive(mode, TX_Buffer, RX_Buffer)`: rewrites byte 0 of the caller's transmit
     * buffer into the command byte, copies the frame into a zeroed 49-byte buffer, and runs one
     * exchange between chip-select low and chip-select high. Only full-duplex modes touch the
     * receive buffer, and only its first FrameLength(mode) bytes.
     */
    method SendAndReceive(mode: byte, txBuffer: array<byte>, rxBuffer: array<byte>, response: seq<byte>)
      requires txBuffer != rxBuffer
      requires txBuffer.Length >= FrameLength(mode)
      requires Receives(mode) ==> rxBuffer.Length >= FrameLength(mode) && |response| == FrameLength(mode)
      modifies this`trace, txBuffer, rxBuffer
      ensures txBuffer[..] == old(txBuffer[..])[0 := CommandByte(old(txBuffer[0]), mode)]
      ensures !Receives(mode) ==> rxBuffer[..] == old(rxBuffer[..])
      ensures Receives(mode) ==> rxBuffer[..] == response + old(rxBuffer[..])[FrameLength(mode)..]
      ensures trace == old(trace) + Transaction(spi, csPort, csPin, mode, Frame(mode, old(txBuffer[..])), response)
    {
      ghost var request := txBuffer[..];
      var complete := new byte[FRAME_CAPACITY](_ => 0);

      if mode == MODE_WRITE_READ || mode == MODE_WRITE {
        txBuffer[0] := ClearBit0(ShiftLeft1(txBuffer[0]));
      } else {
        txBuffer[0] := SetBit0(ShiftLeft1(txBuffer[0]));
      }

      Memcpy(complete, txBuffer, 0, if mode == MODE_BURST then 49 else 4);
      ghost var frame := complete[..FrameLength(mode)];
      assert frame == Frame(mode, request);

      HalGpioWritePin(csPort, csPin, false);
      if mode == MODE_BURST {
        HalSpiTransmitReceive(spi, complete, rxBuffer, 49, response);
      } else if mode == MODE_WRITE {
        HalSpiTransmit(spi, complete, 4);
      } else {
        HalSpiTransmitReceive(spi, complete, rxBuffer, 4, response);
      }
      HalGpioWritePin(csPort, csPin, true);

    }

    /**
     * `MAX30003_Init`: binds the SPI handle and chip-select pin, then writes the nine rows
     * of the configuration table in order, each as a transmit-only transaction.
     */
    method Init(hspi: Handle, port: Handle, pin: uint16)
      requires Valid()
      modifies this
      ensures Valid()
      ensures spi == hspi && csPort == port && csPin == pin
      ensures trace == old(trace) + WriteTransactions(hspi, port, pin, INIT_SEQUENCES)
    {
      spi, csPort, csPin := hspi, port, pin;
      WriteRequests(INIT_SEQUENCES);
    }

    /**
     * The loop of `MAX30003_Init`: one transmit-only `SendAndReceive` per table row, in
     * order, all sharing one receive buffer.
     */
    method WriteRequests(table: seq<Request>)
      requires Valid()
      modifies this`trace
      ensures Valid()
      ensures trace == old(trace) + WriteTransactions(spi, csPort, csPin, table)
    {
      var rxBuffer := new byte[4](_ => 0);
      var i := 0;
      while i < |table|
        invariant 0 <= i <= |table|
        invariant trace == old(trace) + WriteTransactions(spi, csPort, csPin, table[..i])
      {
        var row := table[i];
        var txBuffer := new byte[4](j requires 0 <= j < 4 => row[j]);
        assert txBuffer[..] == row;
        ghost var done := WriteTransactions(spi, csPort, csPin, table[..i]);
        ghost var step := Transaction(spi, csPort, csPin, MODE_WRITE, Frame(MODE_WRITE, row), []);
        SendAndReceive(MODE_WRITE, txBuffer, rxBuffer, []);
        assert trace == old(trace) + WriteTransactions(spi, csPort, csPin, table[..i + 1]) by {
          assert trace == old(trace) + done + step;
          assert table[..i + 1] == table[..i] + [row];
          WriteTransactionsSnoc(spi, csPort, csPin, table[..i], row);
          assert old(trace) + done + step == old(trace) + (done + step);
        }
        i := i + 1;
      }
      assert table[..i] == table;
      WriteTransactionsFramed(spi, csPort, csPin, table);
      FramedAppend(old(trace), WriteTransactions(spi, csPort, csPin, table));
    }

    /** `MAX30003_Reset`: one transmit-only write of zeros to the software-reset register. */
    method Reset()
      requires Valid()
      modifies this`trace
      ensures Valid()
      ensures trace == old(trace) + Transaction(spi, csPort, csPin, MODE_WRITE, WriteRegisterFrame(SW_RST, [0, 0, 0]), [])
    {
      var cmd := new byte[4](_ => 0);
      cmd[0] := SW_RST;
      var rxBuffer := new byte[4](_ => 0);
      assert cmd[..] == [SW_RST] + [0, 0, 0];
      SendAndReceive(MODE_WRITE, cmd, rxBuffer, []);
      FramedExtend(old(trace), spi, csPort, csPin, MODE_WRITE, WriteRegisterFrame(SW_RST, [0, 0, 0]), []);
    }

    /**
     * `MAX30003_ReadECG`: one 49-byte burst read of the FIFO register; the whole answer,
     * echo byte included, lands in the first 49 bytes of the caller's buffer.
     */
    method ReadEcg(dataBuffer: array<byte>, response: seq<byte>)
      requires Valid()
      requires dataBuffer.Length >= 49 && |response| == 49
      modifies this`trace, dataBuffer
      ensures Valid()
      ensures dataBuffer[..] == response + old(dataBuffer[..])[49..]
      ensures trace == old(trace) + Transaction(spi, csPort, csPin, MODE_BURST, ReadEcgFrame(), response)
    {
      var txBuffer := new byte[49](_ => 0);
      txBuffer[0] := ECG_FIFO;
      assert txBuffer[..] == [ECG_FIFO] + Zeros(48);
      SendAndReceive(MODE_BURST, txBuffer, dataBuffer, response);
      FramedExtend(old(trace), spi, csPort, csPin, MODE_BURST, ReadEcgFrame(), response);
    }

    /** `MAX30003_WriteRegister`: one transmit-only write of the caller's three data bytes. */
    method WriteRegister(address: byte, data: array<byte>)
      requires Valid()
      requires data.Length >= 3
      modifies this`trace
      ensures Valid()
      ensures trace == old(trace) + Transaction(spi, csPort, csPin, MODE_WRITE, WriteRegisterFrame(address, data[..3]), [])
    {
      var txBuffer := new byte[4](_ => 0);
      txBuffer[0], txBuffer[1], txBuffer[2], txBuffer[3] := address, data[0], data[1], data[2];
      var rxBuffer := new byte[4](_ => 0);
      assert txBuffer[..] == [address] + data[..3];
      SendAndReceive(MODE_WRITE, txBuffer, rxBuffer, []);
      FramedExtend(old(trace), spi, csPort, csPin, MODE_WRITE, WriteRegisterFrame(address, data[..3]), []);
    }

    /**
     * `MAX30003_ReadRegister`: one 4-byte full-duplex read; the caller gets answer bytes
     * 1..3 and the echo byte 0 is dropped.
     */
    method ReadRegister(address: byte, data: array<byte>, response: seq<byte>)
      requires Valid()
      requires data.Length >= 3 && |response| == 4
      modifies this`trace, data
      ensures Valid()
      ensures data[..] == response[1..4] + old(data[..])[3..]
      ensures trace == old(trace) + Transaction(spi, csPort, csPin, MODE_READ, ReadRegisterFrame(address), response)
    {
      var txBuffer := new byte[4](_ => 0);
      txBuffer[0] := address;
      var rxBuffer := new byte[4](_ => 0);
      assert txBuffer[..] == [address, 0, 0, 0];
      SendAndReceive(MODE_READ, txBuffer, rxBuffer, response);
      FramedExtend(old(trace), spi, csPort, csPin, MODE_READ, ReadRegisterFrame(address), response);
      Memcpy(data, rxBuffer, 1, 3);
    }
  }

  /** `memcpy(dst, src + srcStart, n)` between two distinct arrays. */
  method Memcpy(dst: array<byte>, src: array<byte>, srcStart: nat, n: nat)
    requires dst != src
    requires n <= dst.Length && srcStart + n <= src.Length
    modifies dst
    ensures dst[..] == src[srcStart..srcStart + n] + old(dst[..])[n..]
  {
    var i := 0;
    while i < n
      invariant 0 <= i <= n
      invariant dst[..i] == src[srcStart..srcStart + i]
      invariant dst[i..] == old(dst[i..])
    {
      dst[i] := src[srcStart + i];
      i := i + 1;
    }
  }
}
