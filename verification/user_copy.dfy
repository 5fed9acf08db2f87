/**
 A deterministic simplification of copy_from_user. The caller's memory is the
 sequence of bytes that are readable from the start of the caller's pointer;
 anything past its end faults. A copy moves every readable byte of the
 requested range, fills the rest of it with zero bytes and reports how many
 bytes it could not copy. The kernel promises the count and the zero fill,
 but a faulting copy may stop earlier than the last readable byte; this model
 does not.
 */
module UserCopy {

  /** The destination after the copy and the number of bytes not copied. */
  datatype Copy = Copy(dst: seq<bv8>, uncopied: nat)

  /** Zero bytes, as many as asked for. */
  function Zeros(n: nat): seq<bv8>
  {
    seq(n, _ => 0)
  }

  /** How many of the n bytes starting at offset off the caller can supply. */
  function Readable(user: seq<bv8>, off: nat, n: nat): (c: nat)
    ensures c <= n
    ensures off + c <= |user| || c == 0
  {
    if off >= |user| then 0 else if off + n <= |user| then n else |user| - off
  }

  /** Copy n bytes of the caller's memory, starting at offset off, to the front of dst. */
  function CopyFromUser(dst: seq<bv8>, user: seq<bv8>, off: nat, n: nat): (r: Copy)
    requires n <= |dst|
    ensures |r.dst| == |dst|
    ensures r.uncopied == 0 <==> n == 0 || off + n <= |user|
    ensures r.uncopied <= n
    ensures forall i :: 0 <= i < n && off + i < |user| ==> r.dst[i] == user[off + i]
    ensures forall i :: 0 <= i < n && off + i >= |user| ==> r.dst[i] == 0
    ensures forall i :: n <= i < |dst| ==> r.dst[i] == dst[i]
  {
    var c := Readable(user, off, n);
    var copied := if c == 0 then [] else user[off..off + c];
    Copy(copied + Zeros(n - c) + dst[n..], n - c)
  }
}
