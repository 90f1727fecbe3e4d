# MAX30003 ECG front-end driver, modelled in Dafny

This project models the register-level SPI driver of the MAX30003 biopotential (ECG)
front-end found in `ECG/Core/Src/max30003.c`, with the register map of
`ECG/Core/Src/max30003.h`. The driver has two layers, and the model keeps both:

- the **transaction framer** `SendAndReceive(mode, TX_Buffer, RX_Buffer)`: it rewrites byte 0
  of the caller's transmit buffer into the command byte (address shifted left by one, bit 0
  clear for a write and set for a read, computed in `uint8_t`), copies 49 bytes (burst mode 4)
  or 4 bytes (every other mode) into a zeroed 49-byte frame, drives chip-select low, runs one
  exchange (49-byte full-duplex in mode 4, 4-byte transmit-only in mode 2, 4-byte full-duplex
  otherwise) and drives chip-select high;
- the **register protocol**: `MAX30003_Init` (bind the SPI handle and chip-select pin, then
  write the nine-row power-up table), `MAX30003_Reset`, `MAX30003_ReadECG` (49-byte FIFO burst
  into the caller's buffer), `MAX30003_WriteRegister` and `MAX30003_ReadRegister` (keeps answer
  bytes 1..3).

Files and modules:

| file | module | contents |
|---|---|---|
| `registers.dfy` | `Registers` | `byte`/`uint16` types and the register addresses of the header |
| `bus.dfy` | `Bus` | HAL calls as trace events; well-formed ("framed") traces and what they guarantee about chip-select |
| `framer.dfy` | `Framer` | modes, command byte, frame and the HAL calls of one transaction, as functions |
| `driver.dfy` | `Driver` | class `Max30003` (the static state and the five operations, imperative over arrays), the init table, lemmas about `Init` and `Reset` |
| `loopback.dfy` | `Loopback` | a simulated register file on the far end of the bus; write-then-read round trip |
| `scenarios.dfy` | `Scenarios` | client methods that call the driver and state what they get |

Modelling choices:

- The three static variables become fields of class `Max30003`; C's NULL pointer is `Handle.Null`,
  which is what the constructor (program start) leaves in them.
- Every HAL call is a method of the class that appends an event to the ghost field `trace`;
  `HAL_SPI_TransmitReceive` also fills the receive array with the bytes the chip shifts out,
  which the caller supplies as `response` (the transport stub).
- The mode stays the source's `uint8_t` integer; any value other than 0, 1, 2 and 4 takes the
  read branch and the 4-byte full-duplex exchange, exactly as the C fall-through does.
- `<< 1` followed by the store into a `uint8_t` is `(2 * x) % 256`; `& 0xFE` and `| 0x01` clear
  and set bit 0.
- The mode stays the source's integer rather than an enumeration. The HAL status values are
  ignored, so no error is propagated. Nothing checks that `Init` ran, so no bound/unbound state
  is modelled; the constructor's NULL handles simply appear in the trace.

## Model

| member | source | states |
|---|---|---|
| `Framer.CommandByte` | ECG/Core/Src/max30003.c:98-102 | bit 0 is 0 exactly in modes 0 and 2 and 1 in every other mode; bits 7..1 are the low seven bits of the address; the byte is `(2 * address) mod 256` plus the direction bit |
| `Framer.FrameLayout` | ECG/Core/Src/max30003.c:95-105 | the frame is 49 bytes in mode 4 and 4 bytes otherwise; byte 0 carries the low seven bits of the address and the mode's direction; bytes 1.. are the caller's bytes unchanged |
| `Framer.TransactionFramed` | ECG/Core/Src/max30003.c:107-120 | one transaction is chip-select low on the bound pin, exactly one exchange of the frame on the bound SPI handle (transmit-only exactly in mode 2, otherwise full-duplex carrying the chip's answer), chip-select high on the same pin |
| `Framer.FramedExtend` | ECG/Core/Src/max30003.c:107-120 | appending a transaction to a well-formed trace keeps it well-formed |
| `Framer.CommandByteDropsBit7` | ECG/Core/Src/max30003.c:99-101 | addresses 0x80 apart produce the same command byte, because the shift loses bit 7 |
| `Bus.FramedAppend` | ECG/Core/Src/max30003.c:107-120 | a sequence of whole transactions followed by another is still whole transactions |
| `Bus.ExchangesAppend` | ECG/Core/Src/max30003.c:110-117 | the exchanges of two traces one after the other are the exchanges of each, in order |
| `Bus.FramedCounts` | ECG/Core/Src/max30003.c:107-120 | in a well-formed trace chip-select goes low and high exactly once per exchange each |
| `Bus.FramedShape` | ECG/Core/Src/max30003.c:107-120 | in a well-formed trace every event at a position 0 mod 3 is chip-select low, 1 mod 3 an exchange, 2 mod 3 chip-select high, and nothing else |
| `Bus.FramedBracketsExchanges` | ECG/Core/Src/max30003.c:107-120 | every exchange is immediately preceded by chip-select low and followed by chip-select high on the same pin |
| `Bus.FramedEndsHigh` | ECG/Core/Src/max30003.c:119-120 | a non-empty well-formed trace ends with chip-select high (there is no early exit) |
| `Driver.WriteRegisterFrame` | ECG/Core/Src/max30003.c:70-74 | `WriteRegister(a, d)` sends `(2a) mod 256` with bit 0 clear, then `d[0], d[1], d[2]` |
| `Driver.ReadRegisterFrame` | ECG/Core/Src/max30003.c:81-84 | `ReadRegister(a)` sends `(2a) mod 256` with bit 0 set, then three zero bytes |
| `Driver.ReadEcgFrame` | ECG/Core/Src/max30003.c:60-63 | `ReadECG` sends 0x41 (`(0x20 << 1) \| 1`) followed by 48 zero bytes |
| `Driver.WriteTransactionsAppend` | ECG/Core/Src/max30003.c:42-44 | the transactions of two series of writes are the transactions of each, in order |
| `Driver.WriteTransactionsFramed` | ECG/Core/Src/max30003.c:42-44 | a series of register writes is a well-formed trace |
| `Driver.WriteTransactionsExchanges` | ECG/Core/Src/max30003.c:42-44 | the exchanges of a series of writes are one transmit-only exchange per request, in order, carrying that request's frame |
| `Driver.InitFramesOnTheWire` | ECG/Core/Src/max30003.c:30-40 | each row of the power-up table becomes the listed wire frame (0x10 00 00 00, 0x20 08 10 07, ..., 0x12 00 00 00) |
| `Driver.InitWritesConfigurationTable` | ECG/Core/Src/max30003.c:24-45 | `Init` makes exactly nine transmit-only exchanges on the bound SPI handle, in table order; the first writes zeros to SW_RST (0x08), the last writes zeros to 0x09 |
| `Driver.ResetIsFirstInitStep` | ECG/Core/Src/max30003.c:50-54 | `Reset` issues exactly the transaction `Init` starts with |
| `Driver.Max30003.constructor` | ECG/Core/Src/max30003.c:12-14 | at program start both pointers are NULL, the pin is 0 and nothing has been sent |
| `Driver.Max30003.HalGpioWritePin` | ECG/Core/Src/max30003.c:108 | records one chip-select write |
| `Driver.Max30003.HalSpiTransmit` | ECG/Core/Src/max30003.c:114 | records one transmit-only exchange of the first `size` bytes |
| `Driver.Max30003.HalSpiTransmitReceive` | ECG/Core/Src/max30003.c:112 | records one full-duplex exchange and stores the chip's `size` answer bytes at the front of the receive array, leaving the rest |
| `Driver.Max30003.SendAndReceive` | ECG/Core/Src/max30003.c:94-121 | byte 0 of the caller's transmit buffer becomes the command byte and nothing else in it changes; the receive buffer is untouched in mode 2 and otherwise gets exactly `FrameLength(mode)` answer bytes at its front; the trace grows by exactly one transaction of the frame |
| `Driver.Max30003.Init` | ECG/Core/Src/max30003.c:24-45 | binds the SPI handle, port and pin, then appends exactly the write transactions of the nine table rows, in order |
| `Driver.Max30003.WriteRequests` | ECG/Core/Src/max30003.c:29-44 | the loop of `Init`: one transmit-only transaction per table row, in order, keeping the trace well-formed |
| `Driver.Max30003.Reset` | ECG/Core/Src/max30003.c:50-54 | appends one transmit-only transaction sending 0x10 00 00 00 |
| `Driver.Max30003.ReadEcg` | ECG/Core/Src/max30003.c:60-63 | the first 49 bytes of the caller's buffer become the chip's answer unchanged, the rest stays; one burst transaction of the FIFO read frame |
| `Driver.Max30003.WriteRegister` | ECG/Core/Src/max30003.c:70-74 | appends one transmit-only transaction of the write frame of the caller's three data bytes |
| `Driver.Max30003.ReadRegister` | ECG/Core/Src/max30003.c:81-86 | the caller's three bytes become answer bytes 1..3 (byte 0 dropped), the rest of its buffer stays; one full-duplex transaction of the read frame |
| `Driver.Memcpy` | ECG/Core/Src/max30003.c:85 | the first `n` bytes of the destination become the source bytes from `srcStart` on; the rest stays |
| `Loopback.WriteThenReadReturnsData` | ECG/Core/Src/max30003.c:70-86 | against a register file that decodes the command byte, reading back a register just written returns the written three bytes, for every address below 0x80, and the read changes nothing |
| `Loopback.WriteLeavesOtherRegisters` | ECG/Core/Src/max30003.c:70-74 | a write changes only the register its command byte names |
| `Loopback.WriteAboveSevenBitsAliases` | ECG/Core/Src/max30003.c:99 | a write to an address at or above 0x80 lands in the register 0x80 below it |
| `Scenarios.ReadStatusRegister` | ECG/Core/Src/max30003.c:81-86 | after `Init`, reading STATUS while the chip answers 00 AB CD EF yields AB CD EF |
| `Scenarios.ReadFifo` | ECG/Core/Src/max30003.c:60-63 | a FIFO burst hands back all 49 answer bytes unchanged and leaves the rest of a larger buffer alone |
| `Scenarios.WriteThenRead` | ECG/Core/Src/max30003.c:70-86 | through the driver's own operations, with the chip's answer proved equal to the simulated register file's reply to the write and read frames the driver recorded on the bus, the value read back is the value written |

## Left out

- The 1000 ms timeout and the `HAL_StatusTypeDef` results of the HAL calls: the driver ignores both, so there is no error path to model and none is invented.
- The HAL itself (GPIO and SPI peripherals, clocks, DMA): each call is an event in the ghost trace; the bytes received are supplied by the caller as `response`.
- `Init` rewrites byte 0 of each row of its local table in place; the model copies each row into a fresh 4-byte array first. Each row is sent once, so nothing observable differs.
- `Init`'s loop sits in its own method, `WriteRequests`, which `Init` calls with the table; the statements are those of the C loop.
- `SendAndReceive` requires distinct transmit and receive buffers, as every caller in the driver passes; sharing one buffer is not modelled.
- The meaning of the registers and the correctness of the configuration values against the datasheet (including the EN_INT/MNGR_INT labels of the header): only the literal bytes and their order are modelled.
- Decoding ECG samples from the FIFO bytes: the driver does not do it.
- `ECG_READ_DATA.py` (serial-port reader, timing, plotting): host-side tooling, not part of the driver.
- Concurrent callers: the driver is single-threaded and relies on the caller to serialise bus use.
