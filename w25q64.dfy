/** The W25Q64 driver's operations. Each one builds its command frame in a
    buffer, hands it to the transport, and copies the interesting part of
    the received bytes back to the caller. The driver's channel is the
    `bus` parameter of every operation. */
module W25Q64 {
  import opened Protocol
  import opened Spi

  /** Status register 1 as received by the next `0x05` exchange (byte 1 of
      the 2-byte reply). */
  function StatusByte(replies: seq<seq<Byte>>): (sr: Byte)
  {
    Reply(replies, 2)[1]
  }

  /** The chip reports an erase or program in progress: bit 0 is set
      (`r1 & SR1_BUSY_MASK`, written on the byte's value). */
  predicate Busy(sr: Byte)
  {
    sr % 2 == BusyMask
  }

  /** `Busy` is the C test `r1 & SR1_BUSY_MASK` on the byte's bits. */
  lemma BusyIsBit0(sr: Byte)
    ensures Busy(sr) <==> (sr as int as bv8) & (BusyMask as int as bv8) == 1
  {
  }

  /** An `0x05` status-register-1 read, as sent. Its second byte is left
      unset by the driver. */
  const StatusPoll: Shape := Shape([OpReadStatus1], 2)

  /** `k` status polls in a row. */
  function Polls(k: nat): (r: seq<Shape>)
  {
    seq(k, _ => StatusPoll)
  }

  /** How many status polls a completion wait makes: up to and including
      the first that reports not busy. An exhausted script always reports
      not busy, so the wait ends at the latest one poll after the script
      runs out. */
  function PollsUntilReady(replies: seq<seq<Byte>>): (k: nat)
    ensures 1 <= k <= |replies| + 1
    decreases |replies|
  {
    if Busy(StatusByte(replies)) then 1 + PollsUntilReady(Drop(replies, 1)) else 1
  }

  /** The number of polls of the loop `while (W25Q64_IsBusy() & flgwait)`
      started with `replies` to come: the busy poll is made before `wait`
      is looked at, so without waiting it is one. */
  function WaitPolls(replies: seq<seq<Byte>>, wait: bool): (k: nat)
  {
    if wait then PollsUntilReady(replies) else 1
  }

  /** The status byte the `j`-th poll of a wait starting at `replies` reads. */
  function PolledStatus(replies: seq<seq<Byte>>, j: nat): (sr: Byte)
  {
    StatusByte(Drop(replies, j))
  }

  /** Poll `j` of a wait is poll `j - 1` of the wait one reply later. */
  lemma PolledStatusShift(replies: seq<seq<Byte>>, j: nat)
    requires j >= 1
    ensures PolledStatus(replies, j) == PolledStatus(Drop(replies, 1), j - 1)
  {
    DropDrop(replies, 1, j - 1);
  }

  /** The `k` polls a wait starting at `replies` makes see busy on every
      poll but the last, and not busy on the last. */
  predicate StopsWhenReady(replies: seq<seq<Byte>>, k: nat)
  {
    && k >= 1
    && (forall j :: 0 <= j < k - 1 ==> Busy(PolledStatus(replies, j)))
    && !Busy(PolledStatus(replies, k - 1))
  }

  /** A completion wait sees busy on every poll but its last, and not busy
      on its last. */
  lemma {:induction false} PollsUntilReadyReads(replies: seq<seq<Byte>>)
    ensures StopsWhenReady(replies, PollsUntilReady(replies))
    decreases |replies|
  {
    var k := PollsUntilReady(replies);
    assert PolledStatus(replies, 0) == StatusByte(replies) by {
      assert Drop(replies, 0) == replies;
    }
    if Busy(StatusByte(replies)) {
      var rest := Drop(replies, 1);
      var k' := PollsUntilReady(rest);
      assert k == 1 + k';
      PollsUntilReadyReads(rest);
      forall j | 0 <= j < k - 1
        ensures Busy(PolledStatus(replies, j))
      {
        if j > 0 {
          PolledStatusShift(replies, j);
          assert Busy(PolledStatus(rest, j - 1));
        }
      }
      PolledStatusShift(replies, k');
      assert !Busy(PolledStatus(rest, k' - 1));
    }
  }

  /** `W25Q64_readStatusReg1`: one 2-byte `0x05` frame; returns received
      byte 1. */
  method ReadStatusReg1(bus: Bus) returns (sr: Byte)
    modifies bus
    ensures Extends(old(bus.sent), bus.sent, [StatusPoll])
    ensures bus.replies == Drop(old(bus.replies), 1)
    ensures sr == StatusByte(old(bus.replies))
  {
    var data := new Byte[2];
    data[0] := OpReadStatus1;
    var rc := bus.Transfer(data);
    sr := data[1];
  }

  /** `W25Q64_readStatusReg2`: one 2-byte `0x35` frame; returns received
      byte 1. */
  method ReadStatusReg2(bus: Bus) returns (sr: Byte)
    modifies bus
    ensures Extends(old(bus.sent), bus.sent, [Shape([OpReadStatus2], 2)])
    ensures bus.replies == Drop(old(bus.replies), 1)
    ensures sr == Reply(old(bus.replies), 2)[1]
  {
    var data := new Byte[2];
    data[0] := OpReadStatus2;
    var rc := bus.Transfer(data);
    sr := data[1];
  }

  /** `W25Q64_readManufacturer`: the frame `[0x9F, 0, 0, 0]`; received
      bytes 1 to 3 (manufacturer, memory type, capacity) go to `d[0..3]`. */
  method ReadManufacturer(bus: Bus, d: array<Byte>)
    requires d.Length >= 3
    modifies bus, d
    ensures Extends(old(bus.sent), bus.sent, [Exact([OpJedecId, 0, 0, 0])])
    ensures bus.replies == Drop(old(bus.replies), 1)
    ensures d[..3] == Reply(old(bus.replies), 4)[1..4]
    ensures d[3..] == old(d[3..])
  {
    var data := new Byte[4](_ => 0);
    data[0] := OpJedecId;
    var rc := bus.Transfer(data);
    forall i | 0 <= i < 3 {
      d[i] := data[1 + i];
    }
  }

  /** `W25Q64_readUniqieID`: the 12-byte frame `[0x4B, 0, ..., 0]`; received
      bytes 5 to 11 (past the opcode and four dummy bytes) go to `d[0..7]`. */
  method ReadUniqueId(bus: Bus, d: array<Byte>)
    requires d.Length >= 7
    modifies bus, d
    ensures Extends(old(bus.sent), bus.sent, [Exact([OpReadUniqueId] + seq(11, _ => 0))])
    ensures bus.replies == Drop(old(bus.replies), 1)
    ensures d[..7] == Reply(old(bus.replies), 12)[5..12]
    ensures d[7..] == old(d[7..])
  {
    var data := new Byte[12](_ => 0);
    data[0] := OpReadUniqueId;
    var rc := bus.Transfer(data);
    forall i | 0 <= i < 7 {
      d[i] := data[5 + i];
    }
  }

  /** `W25Q64_IsBusy`: one status-register-1 read; true exactly when bit 0
      of the received status byte is set. */
  method IsBusy(bus: Bus) returns (busy: bool)
    modifies bus
    ensures Extends(old(bus.sent), bus.sent, [StatusPoll])
    ensures bus.replies == Drop(old(bus.replies), 1)
    ensures busy <==> Busy(StatusByte(old(bus.replies)))
  {
    var data := new Byte[2];
    data[0] := OpReadStatus1;
    var rc := bus.Transfer(data);
    var r1 := data[1];
    busy := r1 % 2 == BusyMask;
  }

  /** A one-byte command frame. */
  method SendOpcode(bus: Bus, op: Byte)
    modifies bus
    ensures Extends(old(bus.sent), bus.sent, [Exact([op])])
    ensures bus.replies == Drop(old(bus.replies), 1)
  {
    var data := new Byte[1];
    data[0] := op;
    var rc := bus.Transfer(data);
  }

  /** `W25Q64_powerDown`: the frame `[0xB9]`. */
  method PowerDown(bus: Bus)
    modifies bus
    ensures Extends(old(bus.sent), bus.sent, [Exact([OpPowerDown])])
    ensures bus.replies == Drop(old(bus.replies), 1)
  {
    SendOpcode(bus, OpPowerDown);
  }

  /** `W25Q64_WriteEnable`: the frame `[0x06]`. */
  method WriteEnable(bus: Bus)
    modifies bus
    ensures Extends(old(bus.sent), bus.sent, [Exact([OpWriteEnable])])
    ensures bus.replies == Drop(old(bus.replies), 1)
  {
    SendOpcode(bus, OpWriteEnable);
  }

  /** `W25Q64_WriteDisable`: the frame `[0x04]`. */
  method WriteDisable(bus: Bus)
    modifies bus
    ensures Extends(old(bus.sent), bus.sent, [Exact([OpWriteDisable])])
    ensures bus.replies == Drop(old(bus.replies), 1)
  {
    SendOpcode(bus, OpWriteDisable);
  }

  /** Writes `op` and the three address bytes into the first four slots of
      a frame buffer. */
  method PutCommand(data: array<Byte>, op: Byte, addr: U32)
    requires data.Length >= 4
    modifies data
    ensures data[..4] == [op] + AddressBytes(addr)
    ensures data[4..] == old(data[4..])
  {
    var a := addr as int;
    data[0] := op;
    data[1] := (a / 0x1_0000 % 0x100) as Byte;  // A23-A16
    data[2] := (a / 0x100 % 0x100) as Byte;     // A15-A08
    data[3] := (a % 0x100) as Byte;             // A07-A00
  }

  /** `W25Q64_read`: one `n + 4`-byte frame, opcode `0x03` and the address
      bytes first; received bytes 4 to `n + 3` go to `buf[0..n]`; returns
      the transferred length less 4, which is `n`. */
  method Read(bus: Bus, addr: U32, buf: array<Byte>, n: U16) returns (count: U16)
    requires n as int <= buf.Length
    modifies bus, buf
    ensures Extends(old(bus.sent), bus.sent, [Shape([OpReadData] + AddressBytes(addr), n as int + 4)])
    ensures bus.replies == Drop(old(bus.replies), 1)
    ensures buf[..n] == Reply(old(bus.replies), n as int + 4)[4..]
    ensures buf[n..] == old(buf[n..])
    ensures count == n
  {
    var data := new Byte[n as int + 4];
    PutCommand(data, OpReadData, addr);
    var rc := bus.Transfer(data);
    forall i | 0 <= i < n as int {
      buf[i] := data[4 + i];
    }
    // The `int` result is converted to `uint16_t`.
    count := ((rc - 4) % 0x1_0000) as U16;
  }

  /** `W25Q64_fastread`: one `n + 5`-byte frame, opcode `0x0B`, the address
      bytes and a zero dummy byte first; received bytes 5 to `n + 4` go to
      `buf[0..n]`; returns the transferred length less 5, which is `n`. */
  method FastRead(bus: Bus, addr: U32, buf: array<Byte>, n: U16) returns (count: U16)
    requires n as int <= buf.Length
    modifies bus, buf
    ensures Extends(old(bus.sent), bus.sent, [Shape([OpFastRead] + AddressBytes(addr) + [0], n as int + 5)])
    ensures bus.replies == Drop(old(bus.replies), 1)
    ensures buf[..n] == Reply(old(bus.replies), n as int + 5)[5..]
    ensures buf[n..] == old(buf[n..])
    ensures count == n
  {
    var data := new Byte[n as int + 5];
    PutCommand(data, OpFastRead, addr);
    data[4] := 0;
    var rc := bus.Transfer(data);
    forall i | 0 <= i < n as int {
      buf[i] := data[5 + i];
    }
    count := ((rc - 5) % 0x1_0000) as U16;
  }

  /** The loop `while (W25Q64_IsBusy() & flgwait) sleep(1);`: without
      waiting exactly one poll; with waiting, polls that all report busy
      but the last, which reports not busy. */
  method PollWhileBusy(bus: Bus, wait: bool)
    modifies bus
    ensures var k := WaitPolls(old(bus.replies), wait);
      && Extends(old(bus.sent), bus.sent, Polls(k))
      && bus.replies == Drop(old(bus.replies), k)
      && (wait ==> StopsWhenReady(old(bus.replies), k))
  {
    ghost var r0 := bus.replies;
    ghost var s0 := bus.sent;
    ghost var k: nat := 1;
    var busy := IsBusy(bus);
    assert Polls(1) == [StatusPoll];
    assert Drop(r0, 0) == r0;
    while busy && wait
      invariant k >= 1
      invariant !wait ==> k == 1
      invariant Extends(s0, bus.sent, Polls(k))
      invariant bus.replies == Drop(r0, k)
      invariant busy <==> Busy(StatusByte(Drop(r0, k - 1)))
      invariant wait ==> PollsUntilReady(r0) == k - 1 + PollsUntilReady(Drop(r0, k - 1))
      decreases |bus.replies| + (if busy then 1 else 0)
    {
      ghost var s1 := bus.sent;
      DropDrop(r0, k - 1, 1);
      busy := IsBusy(bus);
      ExtendsTrans(s0, s1, bus.sent, Polls(k), [StatusPoll]);
      assert Polls(k) + [StatusPoll] == Polls(k + 1);
      DropDrop(r0, k, 1);
      k := k + 1;
    }
    PollsUntilReadyReads(r0);
  }

  /** Sends one of the 4-byte erase frames `[op, A23-A16, A15-A8, A7-A0]`. */
  method SendAddressCommand(bus: Bus, op: Byte, addr: U32)
    modifies bus
    ensures Extends(old(bus.sent), bus.sent, [Exact([op] + AddressBytes(addr))])
    ensures bus.replies == Drop(old(bus.replies), 1)
  {
    var data := new Byte[4];
    PutCommand(data, op, addr);
    var rc := bus.Transfer(data);
  }

  /** The body the three addressed erases share: write enable, the erase
      frame, then the completion loop. */
  method EraseAt(bus: Bus, op: Byte, addr: U32, wait: bool)
    modifies bus
    ensures var k := WaitPolls(Drop(old(bus.replies), 2), wait);
      && Extends(old(bus.sent), bus.sent, [Exact([OpWriteEnable]), Exact([op] + AddressBytes(addr))] + Polls(k))
      && bus.replies == Drop(old(bus.replies), 2 + k)
  {
    ghost var s0, r0 := bus.sent, bus.replies;
    WriteEnable(bus);
    ghost var s1 := bus.sent;
    SendAddressCommand(bus, op, addr);
    ghost var s2 := bus.sent;
    ExtendsTrans(s0, s1, s2, [Exact([OpWriteEnable])], [Exact([op] + AddressBytes(addr))]);
    assert [Exact([OpWriteEnable])] + [Exact([op] + AddressBytes(addr))]
        == [Exact([OpWriteEnable]), Exact([op] + AddressBytes(addr))];
    DropDrop(r0, 1, 1);
    PollWhileBusy(bus, wait);
    ghost var k := WaitPolls(Drop(r0, 2), wait);
    ExtendsTrans(s0, s2, bus.sent, [Exact([OpWriteEnable]), Exact([op] + AddressBytes(addr))], Polls(k));
    DropDrop(r0, 2, k);
  }

  /** `W25Q64_eraseSector`: write enable, then `[0x20]` and the address of
      sector `sector`, then the completion loop; always returns true. */
  method EraseSector(bus: Bus, sector: U16, wait: bool) returns (ok: bool)
    modifies bus
    ensures ok
    ensures var k := WaitPolls(Drop(old(bus.replies), 2), wait);
      && Extends(old(bus.sent), bus.sent,
                 [Exact([OpWriteEnable]), Exact([OpSectorErase] + AddressBytes(SectorAddress(sector)))] + Polls(k))
      && bus.replies == Drop(old(bus.replies), 2 + k)
  {
    EraseAt(bus, OpSectorErase, SectorAddress(sector), wait);
    ok := true;
  }

  /** `W25Q64_erase64Block`: write enable, then `[0xD8]` and the address of
      64 KiB block `block`, then the completion loop; always returns true. */
  method Erase64Block(bus: Bus, block: U16, wait: bool) returns (ok: bool)
    modifies bus
    ensures ok
    ensures var k := WaitPolls(Drop(old(bus.replies), 2), wait);
      && Extends(old(bus.sent), bus.sent,
                 [Exact([OpWriteEnable]), Exact([OpBlockErase64] + AddressBytes(Block64Address(block)))] + Polls(k))
      && bus.replies == Drop(old(bus.replies), 2 + k)
  {
    EraseAt(bus, OpBlockErase64, Block64Address(block), wait);
    ok := true;
  }

  /** `W25Q64_erase32Block`: write enable, then `[0x52]` and the address of
      32 KiB block `block`, then the completion loop; always returns true. */
  method Erase32Block(bus: Bus, block: U16, wait: bool) returns (ok: bool)
    modifies bus
    ensures ok
    ensures var k := WaitPolls(Drop(old(bus.replies), 2), wait);
      && Extends(old(bus.sent), bus.sent,
                 [Exact([OpWriteEnable]), Exact([OpBlockErase32] + AddressBytes(Block32Address(block)))] + Polls(k))
      && bus.replies == Drop(old(bus.replies), 2 + k)
  {
    EraseAt(bus, OpBlockErase32, Block32Address(block), wait);
    ok := true;
  }

  /** `W25Q64_eraseAll`: write enable, then `[0xC7]`, then the completion
      loop; always returns true. */
  method EraseAll(bus: Bus, wait: bool) returns (ok: bool)
    modifies bus
    ensures ok
    ensures var k := WaitPolls(Drop(old(bus.replies), 2), wait);
      && Extends(old(bus.sent), bus.sent, [Exact([OpWriteEnable]), Exact([OpChipErase])] + Polls(k))
      && bus.replies == Drop(old(bus.replies), 2 + k)
  {
    ghost var s0, r0 := bus.sent, bus.replies;
    WriteEnable(bus);
    ghost var s1 := bus.sent;
    SendOpcode(bus, OpChipErase);
    ghost var s2 := bus.sent;
    ExtendsTrans(s0, s1, s2, [Exact([OpWriteEnable])], [Exact([OpChipErase])]);
    assert [Exact([OpWriteEnable])] + [Exact([OpChipErase])] == [Exact([OpWriteEnable]), Exact([OpChipErase])];
    DropDrop(r0, 1, 1);
    PollWhileBusy(bus, wait);
    ghost var k := WaitPolls(Drop(r0, 2), wait);
    ExtendsTrans(s0, s2, bus.sent, [Exact([OpWriteEnable]), Exact([OpChipErase])], Polls(k));
    DropDrop(r0, 2, k);
    ok := true;
  }

  /** Sends the page-program frame `[0x02, address bytes, buf[0..n]]`. */
  method SendProgram(bus: Bus, addr: U32, buf: array<Byte>, n: U16) returns (rc: int)
    requires n as int <= buf.Length
    modifies bus
    ensures Extends(old(bus.sent), bus.sent, [Exact([OpPageProgram] + AddressBytes(addr) + buf[..n])])
    ensures bus.replies == Drop(old(bus.replies), 1)
    ensures rc == n as int + 4
  {
    var data := new Byte[n as int + 4];
    PutCommand(data, OpPageProgram, addr);
    forall i | 0 <= i < n as int {
      data[4 + i] := buf[i];
    }
    assert data[..] == [OpPageProgram] + AddressBytes(addr) + buf[..n];
    rc := bus.Transfer(data);
  }

  /** The program frame followed by `while(W25Q64_IsBusy());`. */
  method ProgramThenWait(bus: Bus, addr: U32, buf: array<Byte>, n: U16) returns (rc: int)
    requires n as int <= buf.Length
    modifies bus
    ensures var k := PollsUntilReady(Drop(old(bus.replies), 1));
      && Extends(old(bus.sent), bus.sent, [Exact([OpPageProgram] + AddressBytes(addr) + buf[..n])] + Polls(k))
      && bus.replies == Drop(old(bus.replies), 1 + k)
    ensures rc == n as int + 4
  {
    ghost var s0, r0 := bus.sent, bus.replies;
    ghost var program := Exact([OpPageProgram] + AddressBytes(addr) + buf[..n]);
    rc := SendProgram(bus, addr, buf, n);
    ghost var s1 := bus.sent;
    PollWhileBusy(bus, true);
    ghost var k := PollsUntilReady(Drop(r0, 1));
    ExtendsTrans(s0, s1, bus.sent, [program], Polls(k));
    DropDrop(r0, 1, k);
  }

  /** `W25Q64_pageWrite`. More than 256 bytes: returns 0 and sends nothing.
      Otherwise write enable and one status poll; if that poll reports busy,
      returns 0 with no program frame. Otherwise the `n + 4`-byte frame
      `[0x02, address bytes, buf[0..n]]`, a wait until not busy, and the
      transferred length `n + 4` as result. */
  method PageWrite(bus: Bus, sector: U16, offset: U16, buf: array<Byte>, n: U16) returns (r: U16)
    requires n as int <= PageSize ==> n as int <= buf.Length
    modifies bus
    ensures n as int > PageSize ==>
      r == 0 && bus.sent == old(bus.sent) && bus.replies == old(bus.replies)
    ensures n as int <= PageSize && Busy(StatusByte(Drop(old(bus.replies), 1))) ==>
      && r == 0
      && Extends(old(bus.sent), bus.sent, [Exact([OpWriteEnable]), StatusPoll])
      && bus.replies == Drop(old(bus.replies), 2)
    ensures n as int <= PageSize && !Busy(StatusByte(Drop(old(bus.replies), 1))) ==>
      var k := PollsUntilReady(Drop(old(bus.replies), 3));
      && r as int == n as int + 4
      && Extends(old(bus.sent), bus.sent,
                 [Exact([OpWriteEnable]), StatusPoll,
                  Exact([OpPageProgram] + AddressBytes(PageAddress(sector, offset)) + buf[..n])]
                 + Polls(k))
      && bus.replies == Drop(old(bus.replies), 3 + k)
  {
    if n as int > PageSize {
      return 0;
    }
    ghost var s0, r0 := bus.sent, bus.replies;
    var addr := PageAddress(sector, offset);
    WriteEnable(bus);
    ghost var s1 := bus.sent;
    var busy := IsBusy(bus);
    ghost var s2 := bus.sent;
    ExtendsTrans(s0, s1, s2, [Exact([OpWriteEnable])], [StatusPoll]);
    assert [Exact([OpWriteEnable])] + [StatusPoll] == [Exact([OpWriteEnable]), StatusPoll];
    DropDrop(r0, 1, 1);
    if busy {
      return 0;
    }
    var rc := ProgramThenWait(bus, addr, buf, n);
    ghost var program := Exact([OpPageProgram] + AddressBytes(addr) + buf[..n]);
    ghost var k := PollsUntilReady(Drop(r0, 3));
    DropDrop(r0, 2, 1);
    ExtendsTrans(s0, s2, bus.sent, [Exact([OpWriteEnable]), StatusPoll], [program] + Polls(k));
    assert [Exact([OpWriteEnable]), StatusPoll] + ([program] + Polls(k))
        == [Exact([OpWriteEnable]), StatusPoll, program] + Polls(k);
    DropDrop(r0, 2, 1 + k);
    r := rc as U16;
  }

  /** A client: reading 5 bytes at 0x010203 sends one 9-byte frame that
      starts `[0x03, 0x01, 0x02, 0x03]`, and the caller gets received
      bytes 4 to 8; a 257-byte page write sends nothing. */
  method ReadThenRejectedWrite(bus: Bus, buf: array<Byte>)
    requires buf.Length >= 5
    modifies bus, buf
    ensures |bus.sent| == |old(bus.sent)| + 1
    ensures |bus.sent[|old(bus.sent)|]| == 9
    ensures bus.sent[|old(bus.sent)|][..4] == [0x03, 0x01, 0x02, 0x03]
    ensures buf[..5] == Reply(old(bus.replies), 9)[4..9]
  {
    ghost var before := bus.sent;
    var count := Read(bus, 0x01_0203, buf, 5);
    assert count == 5;
    assert AddressBytes(0x01_0203) == [0x01, 0x02, 0x03];
    ExtendsSingle(before, bus.sent, Shape([OpReadData] + AddressBytes(0x01_0203), 9));
    var r := PageWrite(bus, 0, 0, buf, 257);
    assert r == 0;
  }
}
