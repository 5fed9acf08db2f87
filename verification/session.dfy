/**
 Sequences of file operations against one driver instance. A client's calls
 are replayed in order; the lemmas relate the resulting state to independent
 descriptions: the session flag from the last open or release, the register
 trace from the reads alone, and the buffers' size as an invariant.
 */
module Session {
  import opened Registers
  import opened ResultDecode
  import opened AccelDriver

  /** One file operation as a client issues it. For a read, sum is the value
      the hardware leaves in the result register. */
  datatype Call =
    | OpenCall(minor: int)
    | WriteCall(user: seq<bv8>, len: nat)
    | ReadCall(len: nat, sum: bv32)
    | ReleaseCall(minor: int)

  /** A call the driver can give meaning to: a write must fit its buffers. */
  predicate Admissible(c: Call)
  {
    c.WriteCall? ==> c.len / 2 <= ImageMemorySize
  }

  predicate AllAdmissible(calls: seq<Call>)
  {
    forall i :: 0 <= i < |calls| ==> Admissible(calls[i])
  }

  /** The state after one call. */
  function Step(d: Driver, c: Call): (d': Driver)
    requires d.Valid() && Admissible(c)
    ensures d'.Valid()
    ensures d'.phys0 == d.phys0 && d'.phys1 == d.phys1
  {
    match c
    case OpenCall(m) => Open(d, m).drv
    case WriteCall(u, n) => Write(d, u, n).drv
    case ReadCall(n, s) => Read(d, n, s).drv
    case ReleaseCall(m) => Release(d, m).drv
  }

  /** The state after a sequence of calls, first call first. Every reachable
      state keeps two buffers of the allocated size at the same device
      addresses. */
  function Run(d: Driver, calls: seq<Call>): (d': Driver)
    requires d.Valid() && AllAdmissible(calls)
    ensures d'.Valid()
    ensures d'.phys0 == d.phys0 && d'.phys1 == d.phys1
    decreases |calls|
  {
    if |calls| == 0 then d
    else
      assert Admissible(calls[0]);
      Run(Step(d, calls[0]), calls[1..])
  }

  /** Running a sequence and then one more call is the same as running the
      longer sequence. */
  lemma {:induction false} RunSnoc(d: Driver, calls: seq<Call>, c: Call)
    requires d.Valid() && AllAdmissible(calls) && Admissible(c)
    ensures AllAdmissible(calls + [c])
    ensures Run(d, calls + [c]) == Step(Run(d, calls), c)
    decreases |calls|
  {
    var all := calls + [c];
    assert forall i :: 0 <= i < |all| ==> Admissible(all[i]) by {
      forall i | 0 <= i < |all| ensures Admissible(all[i]) {
        if i < |calls| { assert all[i] == calls[i]; }
      }
    }
    if |calls| == 0 {
      assert all[1..] == [];
    } else {
      assert Admissible(calls[0]);
      var d1 := Step(d, calls[0]);
      assert all[0] == calls[0];
      assert all[1..] == calls[1..] + [c];
      assert AllAdmissible(calls[1..]) by {
        forall i | 0 <= i < |calls[1..]| ensures Admissible(calls[1..][i]) {
          assert calls[1..][i] == calls[i + 1];
        }
      }
      RunSnoc(d1, calls[1..], c);
    }
  }

  /** Reference for the session flag: the last successful open or any release
      decides it; calls after that (reads, writes, rejected opens) do not. */
  function OpenAfter(start: bool, calls: seq<Call>): bool
    decreases |calls|
  {
    if |calls| == 0 then start
    else
      var last := calls[|calls| - 1];
      match last
      case OpenCall(m) => if m == MinorRgbg then true else OpenAfter(start, calls[..|calls| - 1])
      case ReleaseCall(_) => false
      case _ => OpenAfter(start, calls[..|calls| - 1])
  }

  /** The session flag after any run is the one the reference predicts. Read
      and write neither check nor change it. */
  lemma {:induction false} RunSessionFlag(d: Driver, calls: seq<Call>)
    requires d.Valid() && AllAdmissible(calls)
    ensures Run(d, calls).isOpen == OpenAfter(d.isOpen, calls)
    decreases |calls|
  {
    if |calls| > 0 {
      var init, c := calls[..|calls| - 1], calls[|calls| - 1];
      assert calls == init + [c];
      assert Admissible(c);
      assert AllAdmissible(init) by {
        forall i | 0 <= i < |init| ensures Admissible(init[i]) {
          assert init[i] == calls[i];
        }
      }
      RunSessionFlag(d, init);
      RunSnoc(d, init, c);
    }
  }

  /** Reference for the register trace: one complete exchange per read, in
      call order, loading the value the hardware supplied to that read. */
  function ReadTraffic(phys0: bv32, phys1: bv32, calls: seq<Call>): seq<Event>
    decreases |calls|
  {
    if |calls| == 0 then []
    else
      var last := calls[|calls| - 1];
      var before := ReadTraffic(phys0, phys1, calls[..|calls| - 1]);
      if last.ReadCall? then before + Exchange(phys0, phys1, last.sum) else before
  }

  /** Count of read calls. */
  function Reads(calls: seq<Call>): nat
    decreases |calls|
  {
    if |calls| == 0 then 0
    else Reads(calls[..|calls| - 1]) + (if calls[|calls| - 1].ReadCall? then 1 else 0)
  }

  /** The reference traffic is made of complete exchanges only, four accesses
      per read. */
  lemma {:induction false} ReadTrafficShape(phys0: bv32, phys1: bv32, calls: seq<Call>)
    ensures WellFormed(ReadTraffic(phys0, phys1, calls), phys0, phys1)
    ensures |ReadTraffic(phys0, phys1, calls)| == 4 * Reads(calls)
    decreases |calls|
  {
    if |calls| > 0 {
      var init, c := calls[..|calls| - 1], calls[|calls| - 1];
      ReadTrafficShape(phys0, phys1, init);
      if c.ReadCall? {
        WellFormedAppend(ReadTraffic(phys0, phys1, init), phys0, phys1, c.sum);
      }
    }
  }

  /** Every run appends exactly the reference traffic to the trace: open,
      write and release make no register access, and each read makes exactly
      its four. */
  lemma {:induction false} RunTrace(d: Driver, calls: seq<Call>)
    requires d.Valid() && AllAdmissible(calls)
    ensures Run(d, calls).trace == d.trace + ReadTraffic(d.phys0, d.phys1, calls)
    decreases |calls|
  {
    if |calls| == 0 {
      assert d.trace + [] == d.trace;
    } else {
      var init, c := calls[..|calls| - 1], calls[|calls| - 1];
      assert calls == init + [c];
      assert Admissible(c);
      assert AllAdmissible(init) by {
        forall i | 0 <= i < |init| ensures Admissible(init[i]) {
          assert init[i] == calls[i];
        }
      }
      RunTrace(d, init);
      RunSnoc(d, init, c);
      var mid := Run(d, init);
      if c.ReadCall? {
        assert Step(mid, c).trace == mid.trace + Exchange(d.phys0, d.phys1, c.sum);
      }
    }
  }

  /** From a freshly booted driver, the register trace of any run consists of
      complete exchanges, one per read, each against the buffers' own device
      addresses. */
  lemma BootedTraceWellFormed(phys0: bv32, phys1: bv32, init0: seq<bv8>, init1: seq<bv8>, calls: seq<Call>)
    requires |init0| == ImageMemorySize && |init1| == ImageMemorySize
    requires AllAdmissible(calls)
    ensures var t := Run(Boot(phys0, phys1, init0, init1), calls).trace;
            WellFormed(t, phys0, phys1) && |t| == 4 * Reads(calls)
  {
    var d := Boot(phys0, phys1, init0, init1);
    RunTrace(d, calls);
    ReadTrafficShape(phys0, phys1, calls);
    assert [] + ReadTraffic(phys0, phys1, calls) == ReadTraffic(phys0, phys1, calls);
  }

  /** Neither read nor write consults the session flag: on a closed session
      they do exactly what they do on an open one, and report no error. */
  lemma TransfersIgnoreSession(d: Driver, user: seq<bv8>, wlen: nat, rlen: nat, sum: bv32)
    requires d.Valid() && wlen / 2 <= ImageMemorySize
    ensures Write(d.(isOpen := false), user, wlen).drv == Write(d.(isOpen := true), user, wlen).drv.(isOpen := false)
    ensures Write(d.(isOpen := false), user, wlen).ret == wlen
    ensures Write(d.(isOpen := false), user, wlen).fault0 == Write(d.(isOpen := true), user, wlen).fault0
    ensures Write(d.(isOpen := false), user, wlen).fault1 == Write(d.(isOpen := true), user, wlen).fault1
    ensures Read(d.(isOpen := false), rlen, sum).drv == Read(d.(isOpen := true), rlen, sum).drv.(isOpen := false)
    ensures Read(d.(isOpen := false), rlen, sum).out == Read(d.(isOpen := true), rlen, sum).out
    ensures Read(d.(isOpen := false), rlen, sum).ret == rlen
  {
  }

  /** The client session open, write 16 bytes of 0x01, read, release: open
      returns 0, write returns 16 and fills eight bytes of each buffer, read
      returns the caller's length with the decoded result, and the session
      ends closed. */
  lemma SessionScenario(d: Driver, len: nat, sum: bv32)
    requires d.Valid() && !d.isOpen
    ensures var o := Open(d, MinorRgbg);
            var w := Write(o.drv, seq(16, _ => 1), 16);
            var r := Read(w.drv, len, sum);
            var c := Release(r.drv, MinorRgbg);
            && o.code == 0 && o.drv.isOpen
            && w.ret == 16 && !w.fault0 && !w.fault1
            && (forall i :: 0 <= i < 8 ==> w.drv.buff0[i] == 1 && w.drv.buff1[i] == 1)
            && r.ret == len && r.out == Decode(sum) && r.out[2] == 0
            && |r.drv.trace| == |d.trace| + 4
            && c.code == 0 && !c.drv.isOpen
  {
  }
}
