/**
 The accelerator driver's state and its four file operations: open, write,
 read and release. The driver state is an immutable record; each operation
 returns the next state together with what the caller sees.
 */
module AccelDriver {
  import opened Registers
  import opened ResultDecode
  import opened UserCopy

  /** Size in bytes of each of the two DMA buffers. */
  const ImageMemorySize: nat := 64

  /** The only minor number the driver serves (RGB/gray device, minor 0). */
  const MinorRgbg: int := 0

  /**
   The driver's state: the session flag, the CPU view of both DMA buffers, the
   device addresses the accelerator uses for them, and every register access
   made so far.
   */
  datatype Driver = Driver(
    isOpen: bool,
    buff0: seq<bv8>,
    buff1: seq<bv8>,
    phys0: bv32,
    phys1: bv32,
    trace: seq<Event>)
  {
    /** Both buffers have their allocated size. */
    predicate Valid()
    {
      |buff0| == ImageMemorySize && |buff1| == ImageMemorySize
    }
  }

  /**
   The state right after module start: closed, no register traffic yet. The
   buffers' device addresses and initial contents come from the allocator.
   */
  function Boot(phys0: bv32, phys1: bv32, init0: seq<bv8>, init1: seq<bv8>): (d: Driver)
    requires |init0| == ImageMemorySize && |init1| == ImageMemorySize
    ensures d.Valid() && !d.isOpen && d.trace == []
  {
    Driver(false, init0, init1, phys0, phys1, [])
  }

  /** What open and release hand back: the next state and the status code. */
  datatype Status = Status(drv: Driver, code: int)

  /** accel_open: only the RGB/gray minor can be opened; an open session may be
      opened again. */
  function Open(d: Driver, minor: int): (r: Status)
    ensures minor == MinorRgbg ==> r.code == 0 && r.drv == d.(isOpen := true)
    ensures minor != MinorRgbg ==> r.code == -1 && r.drv == d
  {
    if minor != MinorRgbg then Status(d, -1)
    else Status(d.(isOpen := true), 0)
  }

  /** camera_release: always succeeds and closes the session, whatever the
      minor number and whether or not it was open. */
  function Release(d: Driver, minor: int): (r: Status)
    ensures r.code == 0 && !r.drv.isOpen
    ensures r.drv.(isOpen := d.isOpen) == d
  {
    Status(d.(isOpen := false), 0)
  }

  /**
   What write hands back: the next state, the returned byte count, and whether
   each of the two copies reported uncopied bytes (which the driver only logs).
   */
  datatype WriteOutcome = WriteOutcome(drv: Driver, ret: int, fault0: bool, fault1: bool)

  /**
   accel_write: the first len/2 bytes of the payload go to buffer 0, the next
   len/2 to buffer 1; with an odd length the last byte is dropped. The byte
   count returned is always len. The code never checks that len/2 fits a
   buffer, so a larger len is not a call this model can give meaning to.
   */
  function Write(d: Driver, user: seq<bv8>, len: nat): (r: WriteOutcome)
    requires d.Valid()
    requires len / 2 <= ImageMemorySize
    ensures r.ret == len
    ensures r.drv.Valid()
    ensures r.drv.isOpen == d.isOpen && r.drv.trace == d.trace
    ensures r.drv.phys0 == d.phys0 && r.drv.phys1 == d.phys1
    ensures forall i :: 0 <= i < len / 2 && i < |user| ==> r.drv.buff0[i] == user[i]
    ensures forall i :: 0 <= i < len / 2 && len / 2 + i < |user| ==> r.drv.buff1[i] == user[len / 2 + i]
    ensures forall i :: 0 <= i < len / 2 && i >= |user| ==> r.drv.buff0[i] == 0
    ensures forall i :: 0 <= i < len / 2 && len / 2 + i >= |user| ==> r.drv.buff1[i] == 0
    ensures forall i :: len / 2 <= i < ImageMemorySize ==>
              r.drv.buff0[i] == d.buff0[i] && r.drv.buff1[i] == d.buff1[i]
    ensures r.fault0 <==> |user| < len / 2
    ensures r.fault1 <==> len / 2 > 0 && |user| < 2 * (len / 2)
  {
    var half := len / 2;
    var c0 := CopyFromUser(d.buff0, user, 0, half);
    var c1 := CopyFromUser(d.buff1, user, half, half);
    WriteOutcome(d.(buff0 := c0.dst, buff1 := c1.dst), len, c0.uncopied != 0, c1.uncopied != 0)
  }

  /** What read hands back: the next state, the four bytes stored through the
      caller's pointer, and the returned byte count. */
  datatype ReadOutcome = ReadOutcome(drv: Driver, out: seq<bv8>, ret: int)

  /**
   accel_read: point the accelerator at both buffers, store the operation
   size, load the result register (whose value, sum, the hardware chooses)
   and decode it into four bytes. The caller's len is echoed back unchecked.
   */
  function Read(d: Driver, len: nat, sum: bv32): (r: ReadOutcome)
    ensures r.ret == len
    ensures r.drv.trace == d.trace + [Store(Addr0, d.phys0), Store(Addr1, d.phys1), Store(N, 25), Load(Sum, sum)]
    ensures r.drv == d.(trace := r.drv.trace)
    ensures |r.out| == 4 && r.out[2] == 0
    ensures r.out[0] as bv32 == sum & 0xFF && r.out[1] as bv32 == (sum >> 8) & 0xFF
    ensures r.out[3] as bv32 == sum >> 24
  {
    ReadOutcome(d.(trace := d.trace + Exchange(d.phys0, d.phys1, sum)), Decode(sum), len)
  }

  /** The bytes a read returns are the decoding of the value its own final
      register access loaded. */
  lemma ReadOutputMatchesTrace(d: Driver, len: nat, sum: bv32)
    ensures var r := Read(d, len, sum);
            |r.drv.trace| > 0 && r.drv.trace[|r.drv.trace| - 1].Load?
            && r.out == Decode(r.drv.trace[|r.drv.trace| - 1].result)
  {
  }

  /** Write never touches the bytes at or past len/2 in either buffer, so two
      writes whose payloads agree on their first 2*(len/2) bytes leave the same
      state: in particular, with an odd len the final payload byte is in
      neither buffer. */
  lemma WriteIgnoresUnpairedBytes(d: Driver, user: seq<bv8>, user': seq<bv8>, len: nat)
    requires d.Valid() && len / 2 <= ImageMemorySize
    requires |user| >= 2 * (len / 2) && |user'| >= 2 * (len / 2)
    requires user[..2 * (len / 2)] == user'[..2 * (len / 2)]
    ensures Write(d, user, len) == Write(d, user', len)
  {
  }

  /** The odd-length case spelled out: changing the last byte of an odd-length
      payload changes nothing the write does. */
  lemma WriteDropsOddLastByte(d: Driver, user: seq<bv8>, len: nat, b: bv8)
    requires d.Valid() && len / 2 <= ImageMemorySize
    requires len % 2 == 1 && |user| == len
    ensures Write(d, user, len) == Write(d, user[len - 1 := b], len)
  {
  }

  /** A fully readable payload is split exactly: buffer 0's first half-length
      bytes followed by buffer 1's are the payload up to its paired length. */
  lemma WriteSplitsPayload(d: Driver, user: seq<bv8>, len: nat)
    requires d.Valid() && len / 2 <= ImageMemorySize && |user| >= len
    ensures var r := Write(d, user, len);
            var h := len / 2;
            !r.fault0 && !r.fault1 && r.drv.buff0[..h] + r.drv.buff1[..h] == user[..2 * h]
  {
  }

  /** Writing the same payload twice leaves the same state as writing it once. */
  lemma WriteIdempotent(d: Driver, user: seq<bv8>, len: nat)
    requires d.Valid() && len / 2 <= ImageMemorySize
    ensures var once := Write(d, user, len).drv;
            Write(once, user, len).drv == once
  {
  }
}
