/**
 * A register-file stand-in for the chip on the other end of the bus: it decodes the
 * command byte of each 4-byte frame, stores the three data bytes of a write, and answers
 * a read with an echo byte followed by the register's contents. Against it, the frames
 * the driver sends for `MAX30003_WriteRegister` and `MAX30003_ReadRegister` round-trip.
 */
module Loopback {
  import opened Registers
  import opened Framer
  import opened Driver

  /** Register contents by address; a register never written reads as zero. */
  type RegisterFile = map<byte, Word>

  function Lookup(regs: RegisterFile, address: byte): Word {
    if address in regs then regs[address] else [0, 0, 0]
  }

  /** What one exchange leaves behind: the register file and the bytes the chip shifted out. */
  datatype Reply = Reply(regs: RegisterFile, response: seq<byte>)

  /** The chip's side of one 4-byte exchange. */
  function Exchange(regs: RegisterFile, frame: seq<byte>): (r: Reply)
    requires |frame| == 4
    ensures |r.response| == 4
  {
    var address := CommandAddress(frame[0]);
    if CommandReads(frame[0]) then Reply(regs, [0] + Lookup(regs, address))
    else Reply(regs[address := frame[1..]], [0, 0, 0, 0])
  }

  /**
   * Writing a register and reading it back yields the written bytes, for every address
   * the command byte can carry; the read changes no register.
   */
  lemma WriteThenReadReturnsData(regs: RegisterFile, address: byte, data: Word)
    requires address < 0x80
    ensures var written := Exchange(regs, WriteRegisterFrame(address, data)).regs;
      var read := Exchange(written, ReadRegisterFrame(address));
      read.response[1..] == data && read.regs == written
  {
    var w := WriteRegisterFrame(address, data);
    assert CommandAddress(w[0]) == address && !CommandReads(w[0]);
    assert w[1..] == data;
    var r := ReadRegisterFrame(address);
    assert CommandAddress(r[0]) == address && CommandReads(r[0]);
  }

  /** A write changes only the register it names. */
  lemma WriteLeavesOtherRegisters(regs: RegisterFile, address: byte, other: byte, data: Word)
    requires address < 0x80 && other != address
    ensures Lookup(Exchange(regs, WriteRegisterFrame(address, data)).regs, other) == Lookup(regs, other)
  {
    var w := WriteRegisterFrame(address, data);
    assert CommandAddress(w[0]) == address && !CommandReads(w[0]);
  }

  /**
   * The shift into the command byte drops bit 7 of the address, so a write to an address
   * at or above 0x80 lands in the register 0x80 below it.
   */
  lemma WriteAboveSevenBitsAliases(regs: RegisterFile, address: byte, data: Word)
    requires address >= 0x80
    ensures var written := Exchange(regs, WriteRegisterFrame(address, data)).regs;
      Lookup(written, address - 0x80) == data && Lookup(written, address) == Lookup(regs, address)
  {
    var w := WriteRegisterFrame(address, data);
    assert CommandAddress(w[0]) == address - 0x80 && !CommandReads(w[0]);
    assert w[1..] == data;
  }
}
