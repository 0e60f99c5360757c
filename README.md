# W25Q64 serial NOR flash driver: command-protocol model

This project models the command layer of a Raspberry Pi driver for the
W25Q64 64-megabit SPI NOR flash chip (`W25Q64.c`). Each driver operation
builds a command frame: an opcode, for addressed commands three big-endian
address bytes, then dummy, payload or response slots. The operation sends
the frame through one full-duplex SPI exchange, which overwrites the
buffer with the received bytes, and copies the useful part back to the
caller. Erases and page programs first send the write-enable command
`0x06`. They then poll status register 1 (`0x05`) and read its bit 0 as
"busy".

The model has three modules:

- `Protocol` (`protocol.dfy`): the opcodes and the 8-bit, 16-bit and 32-bit
  integer types. It also holds the address translation (sector `<< 12`,
  64 KiB block `<< 16`, 32 KiB block `<< 15`, page = sector address plus
  offset), with `uint32_t` shift and add written out, and the split of an
  address into bytes A23-A16, A15-A8, A7-A0.
- `Spi` (`spi.dfy`): the transport. Class `Bus` keeps `sent`, the trace of
  every frame transmitted, oldest first. It also keeps `replies`, a script
  of what the chip answers, one reply per exchange. `Transfer` appends the
  frame to `sent` and overwrites the array in place with the next reply,
  cut or zero-padded to the frame length. An exhausted script answers
  zeros, so it reads as "not busy". The datatype `Shape` and the predicates
  `Fits` and `Extends` describe what a trace gained. Each new frame is given by its
  known leading bytes and its length. Bytes the C code never initialises
  (byte 1 of a status read, the response slots of `read`/`fastread`) are
  left unconstrained.
- `W25Q64` (`w25q64.dfy`): one method per driver function, taking the bus as
  a parameter. The global channel `_spich` becomes that parameter. The
  completion loop `while (W25Q64_IsBusy() & flgwait)` is `PollWhileBusy`. It
  is specified by `PollsUntilReady`, the number of polls up to and
  including the first not-busy one. Every method's `ensures` gives the
  exact list of frame shapes appended to `sent`, in order, how many replies
  were used, and what reached the caller.

Three behaviours of the code a reader might not expect:

- A page write that finds the chip busy is not free of bus traffic. The
  write-enable frame and one status poll have already been sent when it
  returns 0.
- A non-waiting erase does not return straight after the erase frame. The
  loop condition `W25Q64_IsBusy() & flgwait` always runs the poll, so
  exactly one status read follows.
- `W25Q64_pageWrite` returns the transport's count `n + 4`, not `n`.
  `W25Q64_read` and `W25Q64_fastread` return `n`.

## Model

| member | source | states |
|---|---|---|
| `Protocol.AddressBytes` | W25Q64.c:208-210 | the three address bytes of a frame decode, big-endian, to the address modulo 2^24 |
| `Protocol.AddressBytesOfDecode` | W25Q64.c:244-246 | the byte split is onto: any three bytes are the split of the number they encode |
| `Protocol.ShiftLeftWide` | W25Q64.c:239-240 | shifting a 16-bit number left by at most 16 places in a `uint32_t` loses no bit |
| `Protocol.SectorAddress` | W25Q64.c:239-240 | the sector's address is sector number × 4096, and below 8 MiB for the 2048 valid sectors |
| `Protocol.Block64Address` | W25Q64.c:259-260 | the 64 KiB block's address is block number × 65536, below 8 MiB for the 128 valid blocks |
| `Protocol.Block32Address` | W25Q64.c:280-281 | the 32 KiB block's address is block number × 32768, below 8 MiB for the 256 valid blocks |
| `Protocol.PageAddress` | W25Q64.c:318-320 | the page-program address is sector × 4096 + offset with no 32-bit wrap, below 8 MiB for a valid sector and in-sector offset |
| `Protocol.SectorAddressAliases` | W25Q64.c:239-246 | an unchecked sector number s + 4096 is sent with the same address bytes as sector s |
| `Spi.Fit` | W25Q64.c:94-108 | the received bytes have the frame's length and hold the chip's reply, then zeros |
| `Spi.Reply` | W25Q64.c:94-108 | the next exchange receives exactly as many bytes as it sends |
| `Spi.Bus.Transfer` | W25Q64.c:94-108 | the frame is appended to the trace, the buffer is overwritten in place with the next reply, one reply is used up, and the result is the frame length |
| `W25Q64.PollsUntilReady` | W25Q64.c:249-251 | a waiting completion loop makes at least one poll and at most one more than the replies scripted; the model's wait ends because an exhausted script reads as not busy |
| `W25Q64.PollsUntilReadyReads` | W25Q64.c:249-251 | in a waiting loop every poll but the last reports busy, and the last reports not busy |
| `W25Q64.PollWhileBusy` | W25Q64.c:249-251 | without waiting, exactly one status poll; with waiting, polls up to the first not-busy report, each sent as a `0x05` frame |
| `W25Q64.ReadStatusReg1` | W25Q64.c:120-128 | sends one 2-byte frame starting `0x05` and returns received byte 1 |
| `W25Q64.ReadStatusReg2` | W25Q64.c:130-138 | sends one 2-byte frame starting `0x35` and returns received byte 1 |
| `W25Q64.ReadManufacturer` | W25Q64.c:140-149 | sends exactly `[0x9F,0,0,0]`; received bytes 1..3 land in `d[0..3]`, the rest of `d` unchanged |
| `W25Q64.ReadUniqueId` | W25Q64.c:151-160 | sends exactly `0x4B` and eleven zeros; received bytes 5..11 land in `d[0..7]`, the rest of `d` unchanged |
| `W25Q64.BusyIsBit0` | W25Q64.c:171 | the model's busy test on the byte's value agrees with the C test `r1 & SR1_BUSY_MASK` on the byte's eight bits |
| `W25Q64.IsBusy` | W25Q64.c:162-173 | sends one `0x05` status read and is true exactly when bit 0 of the received status byte is set |
| `W25Q64.PowerDown` | W25Q64.c:175-182 | sends exactly the one frame `[0xB9]` |
| `W25Q64.WriteEnable` | W25Q64.c:184-191 | sends exactly the one frame `[0x06]` |
| `W25Q64.WriteDisable` | W25Q64.c:193-200 | sends exactly the one frame `[0x04]` |
| `W25Q64.Read` | W25Q64.c:202-216 | sends one frame of length n+4 starting `[0x03, A23-16, A15-8, A7-0]`; received bytes 4..n+3 land in `buf[0..n]`, the rest of `buf` unchanged; returns n |
| `W25Q64.FastRead` | W25Q64.c:218-233 | sends one frame of length n+5 starting `0x0B`, the address bytes and one zero dummy byte; received bytes 5..n+4 land in `buf[0..n]`; returns n |
| `W25Q64.EraseSector` | W25Q64.c:235-253 | sends `[0x06]`, then `[0x20]` + bytes of sector × 4096, then the completion loop's polls; returns true |
| `W25Q64.Erase64Block` | W25Q64.c:255-274 | sends `[0x06]`, then `[0xD8]` + bytes of block × 65536, then the completion loop's polls; returns true |
| `W25Q64.Erase32Block` | W25Q64.c:276-295 | sends `[0x06]`, then `[0x52]` + bytes of block × 32768, then the completion loop's polls; returns true |
| `W25Q64.EraseAll` | W25Q64.c:297-311 | sends `[0x06]`, then `[0xC7]`, then the completion loop's polls; returns true |
| `W25Q64.PageWrite` | W25Q64.c:313-337 | n > 256: returns 0, sends nothing, uses no reply. Busy after write enable: returns 0 having sent only `[0x06]` and one poll. Otherwise `[0x06]`, one poll, `[0x02, address bytes of sector × 4096 + offset, buf[0..n]]`, then polls until not busy, and returns n+4 |
| `W25Q64.ReadThenRejectedWrite` | W25Q64.c:202-216 | reading 5 bytes at 0x010203 sends a 9-byte frame starting `[0x03,0x01,0x02,0x03]` and hands back received bytes 4..8; a 257-byte page write after it sends no frame |

## Left out

- `wiringPiSPISetup` (opening and configuring the spidev device, the global `fds`/`lspeed` tables): operating-system I/O. The bus is a constructed `Bus` object instead.
- `wiringPiSPIDataRW`'s `ioctl` exchange: replaced by `Bus.Transfer` with a scripted reply oracle. The model always returns the full frame length. The failure path, where a negative result is cast into the `uint16_t` return values of `read`, `fastread` and `pageWrite`, is not modelled.
- `spcDump`: debug printing.
- `sleep(1)` in the erase loops: only the sequence of polls is modelled, not wall-clock time.
- The chip's memory: nothing models flash contents, so "a page written and then read back gives the same bytes" is not stated. The replies are an arbitrary script.
- Bytes left uninitialised in the C buffers (byte 1 of a status read, the response slots of `read`/`fastread`) are arbitrary bytes in the model as in C; no contract fixes their value.
- W25Q64.PollWhileBusy: a chip that stays busy forever, on which the source's loops `while (W25Q64_IsBusy() & flgwait)` and `while (W25Q64_IsBusy());` never end, is not modelled; a reply script is finite and an exhausted script reads as not busy, so every modelled wait ends.
- Opcodes defined in `W25Q64.c` but never sent (status write, quad program, erase suspend/resume, high-performance mode, continuous-read reset, release power-down, manufacturer ID `0x90`, dual/quad/word reads): they have no behaviour.
- `main.c`, the interactive command-line tool: user-interface glue. `W25Q64_begin` in `W25Q64.h` has no definition.
