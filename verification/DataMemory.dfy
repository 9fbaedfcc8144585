/** The main memory behind the cache: two independent ports, each a countdown of 20 ticks. */
module DataMemory {
  import opened Bits
  import opened FlatMemory

  const MEM_LATENCY: nat := 20

  datatype ReadRequest = ReadRequest(remainCycle: nat, address: u32)

  datatype WriteRequest = WriteRequest(remainCycle: nat, address: u32, lineData: seq<u8>)

  /** Both channels of a request pulse. */
  datatype PortRequest = PortRequest(readValid: bool, read: ReadRequest, writeValid: bool, write: WriteRequest)

  const NO_READ := ReadRequest(0, 0)
  const NO_WRITE := WriteRequest(0, 0, [])
  const NO_REQUEST := PortRequest(false, NO_READ, false, NO_WRITE)

  /** The line of 16 bytes with block number b. */
  function Block(mem: seq<u8>, b: nat): (r: seq<u8>)
    ensures |r| == BLOCK
    ensures forall i :: 0 <= i < BLOCK ==> r[i] == ReadByte(mem, b * BLOCK + i)
  {
    Bytes(mem, b * BLOCK, BLOCK)
  }

  /** Memory with line b replaced. */
  ghost predicate BlockWritten(mem: seq<u8>, b: nat, data: seq<u8>, mem': seq<u8>) {
    && |mem'| == |mem|
    && (forall i :: 0 <= i < |mem| && i / BLOCK != b ==> mem'[i] == mem[i])
    && (forall i :: 0 <= i < |mem| && i / BLOCK == b && i % BLOCK < |data| ==> mem'[i] == data[i % BLOCK])
  }

  /** Writing a line changes that line and no other; a line beyond the array stays zero. */
  lemma WrittenBlocks(mem: seq<u8>, b: nat, data: seq<u8>, mem': seq<u8>, c: nat)
    requires |mem| % BLOCK == 0 && |data| == BLOCK && BlockWritten(mem, b, data, mem')
    ensures c != b ==> Block(mem', c) == Block(mem, c)
    ensures b * BLOCK < |mem| ==> Block(mem', b) == data
    ensures b * BLOCK >= |mem| ==> Block(mem', b) == Block(mem, b)
  {
  }

  class DMEM {
    const mem: array<u8>
    var readBusy: bool
    var readBufferValid: bool
    var writeBusy: bool
    var readExecute: ReadRequest
    var readOutputBuffer: seq<u8>
    var writeExecute: WriteRequest

    constructor (image: seq<u8>)
      ensures mem[..] == image && fresh(mem)
      ensures !readBusy && !readBufferValid && !writeBusy
    {
      mem := new u8[|image|](i requires 0 <= i < |image| => image[i]);
      readBusy, readBufferValid, writeBusy := false, false, false;
      readExecute, writeExecute, readOutputBuffer := NO_READ, NO_WRITE, [];
    }

    /** One byte; addresses beyond the array read as zero. */
    function ReadData(address: nat): u8
      reads mem
    {
      if address < mem.Length then mem[address] else 0
    }

    /** One byte; addresses beyond the array drop the write. */
    method WriteData(address: nat, data: u8)
      modifies mem
      ensures mem[..] == if address < mem.Length then old(mem[..])[address := data] else old(mem[..])
    {
      if address < mem.Length {
        mem[address] := data;
      }
    }

    method WriteLine(address: u32, lineData: seq<u8>)
      requires address % BLOCK == 0 && |lineData| == BLOCK
      modifies mem
      ensures BlockWritten(old(mem[..]), address / BLOCK, lineData, mem[..])
    {
      var i := 0;
      while i < BLOCK
        invariant 0 <= i <= BLOCK
        invariant forall k :: 0 <= k < mem.Length && !(address <= k < address + i) ==> mem[k] == old(mem[k])
        invariant forall k :: 0 <= k < mem.Length && address <= k < address + i ==> mem[k] == lineData[k - address]
      {
        WriteData(address + i, lineData[i]);
        i := i + 1;
      }
    }

    method ReadLine(address: u32) returns (lineData: seq<u8>)
      ensures |lineData| == BLOCK
      ensures forall i :: 0 <= i < BLOCK ==> lineData[i] == ReadByte(mem[..], address / BLOCK * BLOCK + i)
    {
      var blockBase := address / BLOCK * BLOCK;
      lineData := [];
      for i := 0 to BLOCK
        invariant |lineData| == i && forall k :: 0 <= k < i ==> lineData[k] == ReadByte(mem[..], blockBase + k)
      {
        lineData := lineData + [ReadData(blockBase + i)];
      }
    }

    /** The countdown of the read port reaches zero in this tick. */
    predicate ReadCompletes()
      reads this
    {
      readBusy && readExecute.remainCycle == 1
    }

    predicate WriteCompletes()
      reads this
    {
      writeBusy && writeExecute.remainCycle == 1
    }

    /**
      One clock tick. Everything is decided from the state at the start of the tick: a port that
      is busy counts down, a free one claims a pending request, and a reply is visible for
      exactly one tick. The line a read returns is taken before a write of the same tick lands.
     */
    method Tick(request: PortRequest)
      requires readBusy ==> readExecute.remainCycle > 0
      requires writeBusy ==> writeExecute.remainCycle > 0 && writeExecute.address % BLOCK == 0
      requires writeBusy ==> |writeExecute.lineData| == BLOCK
      modifies this, mem
      ensures readBusy == if old(readBusy) then !old(ReadCompletes()) else request.readValid
      ensures readExecute ==
              if old(readBusy) && !old(ReadCompletes()) then
                old(readExecute).(remainCycle := old(readExecute).remainCycle - 1)
              else if !old(readBusy) && request.readValid then request.read
              else old(readExecute)
      ensures writeBusy == if old(writeBusy) then !old(WriteCompletes()) else request.writeValid
      ensures writeExecute ==
              if old(writeBusy) && !old(WriteCompletes()) then
                old(writeExecute).(remainCycle := old(writeExecute).remainCycle - 1)
              else if !old(writeBusy) && request.writeValid then request.write
              else old(writeExecute)
      ensures readBufferValid == old(ReadCompletes())
      ensures readBufferValid ==> readOutputBuffer == Block(old(mem[..]), old(readExecute).address / BLOCK)
      ensures if old(WriteCompletes())
              then BlockWritten(old(mem[..]), old(writeExecute).address / BLOCK, old(writeExecute).lineData, mem[..])
              else mem[..] == old(mem[..])
    {
      var wasReading, reading, wasWriting, writing, wasReady :=
        readBusy, readExecute, writeBusy, writeExecute, readBufferValid;
      if request.readValid && !wasReading {
        readExecute := request.read;
        readBusy := true;
      }
      if request.writeValid && !wasWriting {
        writeExecute := request.write;
        writeBusy := true;
      }
      if wasReady {
        readBufferValid := false;
      }
      if wasReading {
        var readExec := reading.(remainCycle := reading.remainCycle - 1);
        if readExec.remainCycle == 0 {
          readOutputBuffer := ReadLine(readExec.address);
          assert readOutputBuffer == Block(mem[..], readExec.address / BLOCK);
          readBufferValid := true;
          readBusy := false;
        } else {
          readExecute := readExec;
          readBusy := true;
        }
      }
      if wasWriting {
        var writeExec := writing.(remainCycle := writing.remainCycle - 1);
        if writeExec.remainCycle == 0 {
          WriteLine(writeExec.address, writeExec.lineData);
          writeBusy := false;
        } else {
          writeExecute := writeExec;
          writeBusy := true;
        }
      }
    }
  }
}
