/**
 * Client code in the style of the firmware's application: it binds the driver to a bus
 * and a chip-select pin and calls the register operations. Each method states what the
 * caller can count on from the driver's contracts alone.
 */
module Scenarios {
  import opened Registers
  import opened Bus
  import opened Framer
  import opened Driver
  import opened Loopback

  /** Example handles for the SPI peripheral and the chip-select GPIO port. */
  const SPI1: Handle := Handle(1)
  const GPIOB: Handle := Handle(2)
  const CS_PIN: uint16 := 0x0040

  /** Reading STATUS while the chip answers 00 AB CD EF gives AB CD EF: the echo byte is dropped. */
  method ReadStatusRegister() returns (value: seq<byte>)
    ensures value == [0xAB, 0xCD, 0xEF]
  {
    var chip := new Max30003();
    chip.Init(SPI1, GPIOB, CS_PIN);
    var data := new byte[3](_ => 0);
    chip.ReadRegister(STATUS, data, [0x00, 0xAB, 0xCD, 0xEF]);
    value := data[..];
  }

  /**
   * A FIFO burst read hands back all 49 bytes the chip shifted out, unchanged, and leaves
   * the rest of a larger buffer alone.
   */
  method ReadFifo(answer: seq<byte>, spare: nat) returns (samples: seq<byte>)
    requires |answer| == 49
    ensures samples == answer + Zeros(spare)
  {
    var chip := new Max30003();
    chip.Init(SPI1, GPIOB, CS_PIN);
    var buffer := new byte[49 + spare](_ => 0);
    chip.ReadEcg(buffer, answer);
    samples := buffer[..];
  }

  /**
   * Against the loopback register file, a value written with `WriteRegister` is the value
   * `ReadRegister` returns, whatever the register's earlier contents. The register file is
   * driven by the frames the driver itself put on the bus, as recorded in its trace.
   */
  method WriteThenRead(regs: RegisterFile, address: byte, value: Word) returns (readBack: seq<byte>)
    requires address < 0x80
    ensures readBack == value
  {
    var chip := new Max30003();
    chip.Init(SPI1, GPIOB, CS_PIN);

    var data := new byte[3](i requires 0 <= i < 3 => value[i]);
    assert data[..3] == value;
    chip.WriteRegister(address, data);
    ghost var writeSent := chip.trace[|chip.trace| - 2].sent;
    ghost var written := Exchange(regs, writeSent).regs;

    // The chip's answer to the read, computed by the register file from the frames the
    // driver's operations send.
    var answerBytes := Exchange(Exchange(regs, WriteRegisterFrame(address, value)).regs, ReadRegisterFrame(address)).response;
    var answer := new byte[3](_ => 0);
    chip.ReadRegister(address, answer, answerBytes);
    ghost var readSent := chip.trace[|chip.trace| - 2].sent;
    assert answerBytes == Exchange(written, readSent).response;
    WriteThenReadReturnsData(regs, address, value);
    readBack := answer[..];
  }
}
