/**
 The accelerator's memory-mapped register block, seen from the driver as an
 append-only trace of 32-bit accesses. The register offsets themselves live in
 a header that is not part of this model, so registers are named, not numbered.
 */
module Registers {

  /** The four registers the driver touches. */
  datatype Reg = Addr0 | Addr1 | N | Sum

  /** One 32-bit access: a store (iowrite32) or a load (ioread32) together with
      the value the hardware answered. */
  datatype Event = Store(reg: Reg, value: bv32) | Load(reg: Reg, result: bv32)

  /** The operation-size word written on every read; a constant, not derived
      from the configured frame size. */
  const OperationSize: bv32 := 25

  /** The register exchange one read performs: both buffers' device
      addresses, then the operation size, then one load of the result
      register. It is a complete exchange against those buffers, and its load
      carries the value the hardware answered. */
  function Exchange(phys0: bv32, phys1: bv32, sum: bv32): (t: seq<Event>)
    ensures IsExchange(t, phys0, phys1) && t[3].result == sum
  {
    [Store(Addr0, phys0), Store(Addr1, phys1), Store(N, OperationSize), Load(Sum, sum)]
  }

  /** A block of four events is one complete exchange against the given buffers. */
  predicate IsExchange(block: seq<Event>, phys0: bv32, phys1: bv32)
  {
    && |block| == 4
    && block[0] == Store(Addr0, phys0)
    && block[1] == Store(Addr1, phys1)
    && block[2] == Store(N, OperationSize)
    && block[3].Load? && block[3].reg == Sum
  }

  /** A trace made only of complete exchanges, back to back. */
  predicate WellFormed(t: seq<Event>, phys0: bv32, phys1: bv32)
    decreases |t|
  {
    |t| == 0 || (|t| >= 4 && IsExchange(t[..4], phys0, phys1) && WellFormed(t[4..], phys0, phys1))
  }

  /** Appending one exchange keeps a trace well formed. */
  lemma {:induction false} WellFormedAppend(t: seq<Event>, phys0: bv32, phys1: bv32, sum: bv32)
    requires WellFormed(t, phys0, phys1)
    ensures WellFormed(t + Exchange(phys0, phys1, sum), phys0, phys1)
    decreases |t|
  {
    var e := Exchange(phys0, phys1, sum);
    if |t| == 0 {
      assert e[..4] == e;
      assert e[4..] == [];
    } else {
      WellFormedAppend(t[4..], phys0, phys1, sum);
      assert (t + e)[..4] == t[..4];
      assert (t + e)[4..] == t[4..] + e;
    }
  }

  /** Well-formed traces have a length that is a multiple of four, and every
      load in them reads the result register right after the operation size
      was stored. */
  lemma {:induction false} WellFormedShape(t: seq<Event>, phys0: bv32, phys1: bv32)
    requires WellFormed(t, phys0, phys1)
    ensures |t| % 4 == 0
    ensures forall i :: 0 <= i < |t| && t[i].Load? ==>
              i >= 3 && t[i].reg == Sum && t[i - 1] == Store(N, OperationSize)
              && t[i - 2] == Store(Addr1, phys1) && t[i - 3] == Store(Addr0, phys0)
    decreases |t|
  {
    if |t| > 0 {
      var rest := t[4..];
      WellFormedShape(rest, phys0, phys1);
      forall i | 0 <= i < |t| && t[i].Load?
        ensures i >= 3 && t[i].reg == Sum && t[i - 1] == Store(N, OperationSize)
                && t[i - 2] == Store(Addr1, phys1) && t[i - 3] == Store(Addr0, phys0)
      {
        if i < 4 {
          assert t[i] == t[..4][i];
          assert t[0] == t[..4][0] && t[1] == t[..4][1] && t[2] == t[..4][2] && t[3] == t[..4][3];
        } else {
          assert rest[i - 4] == t[i];
          assert rest[i - 4].Load?;
        }
      }
    }
  }
}
