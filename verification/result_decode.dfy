/**
 Decoding of the accelerator's 32-bit result word into the four bytes a read
 hands back to the caller. The third byte uses a right shift by 26 where the
 little-endian pattern would use 16; the decoder reproduces that as written,
 and the lemmas below say exactly what it costs against a plain little-endian
 split.
 */
module ResultDecode {

  /** Storing a 32-bit value into a char keeps its low eight bits. */
  function Low8(x: bv32): (b: bv8)
    ensures b as bv32 == x & 0xFF
  {
    (x & 0xFF) as bv8
  }

  /** The four output bytes of accel_read, in buffer order. */
  function Decode(res: bv32): (out: seq<bv8>)
    ensures |out| == 4
    ensures out[0] as bv32 == res & 0xFF
    ensures out[1] as bv32 == (res >> 8) & 0xFF
    ensures out[2] == 0
    ensures out[3] as bv32 == res >> 24
  {
    [ Low8(res & 0xFF),
      Low8((res & 0xFF00) >> 8),
      Low8((res & 0xFF_0000) >> 26),
      Low8((res & 0xFF00_0000) >> 24) ]
  }

  /** Reference: the little-endian bytes of a word. */
  function LittleEndian(w: bv32): seq<bv8>
  {
    [Low8(w), Low8(w >> 8), Low8(w >> 16), Low8(w >> 24)]
  }

  /** Reference: the word whose little-endian bytes are the four given. */
  function FromLittleEndian(bytes: seq<bv8>): (w: bv32)
    requires |bytes| == 4
  {
    (bytes[0] as bv32)
    | ((bytes[1] as bv32) << 8)
    | ((bytes[2] as bv32) << 16)
    | ((bytes[3] as bv32) << 24)
  }

  /** The reference split loses nothing. */
  lemma LittleEndianRoundTrip(w: bv32)
    ensures FromLittleEndian(LittleEndian(w)) == w
  {
  }

  /** The bits of a result word that survive decoding: all but bits 16-23. */
  const Kept: bv32 := 0xFF00_FFFF

  /** Decode agrees with the little-endian split on bytes 0, 1 and 3 and
      always yields 0 in byte 2. */
  lemma DecodeIsLittleEndianWithoutByte2(res: bv32)
    ensures Decode(res) == LittleEndian(res)[2 := 0]
  {
  }

  /** Reassembling the decoded bytes gives back exactly the kept bits. */
  lemma DecodeReassembles(res: bv32)
    ensures FromLittleEndian(Decode(res)) == res & Kept
  {
  }

  /** Two results decode to the same bytes if and only if they differ only in
      bits 16-23: the decoder drops exactly those bits and nothing else. */
  lemma DecodeEqualIff(a: bv32, b: bv32)
    ensures Decode(a) == Decode(b) <==> a & Kept == b & Kept
  {
    if Decode(a) == Decode(b) {
      DecodeReassembles(a);
      DecodeReassembles(b);
    } else {
      var da, db := Decode(a), Decode(b);
      assert da[0] != db[0] || da[1] != db[1] || da[3] != db[3];
    }
  }

  /** Consequently the decoder is not injective: 0xAABBCCDD and 0xAA00CCDD,
      whose true byte 2 differ, read back the same. */
  lemma DecodeExample()
    ensures Decode(0xAABB_CCDD) == [0xDD, 0xCC, 0x00, 0xAA]
    ensures Decode(0xAABB_CCDD) == Decode(0xAA00_CCDD)
  {
  }
}
