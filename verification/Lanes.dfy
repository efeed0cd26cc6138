/** Packing bytes into 64-bit lanes, least significant byte first, and taking them out again. */
module Lanes {

  /** Byte `j` of a lane, put in its place. */
  function Placed(b: bv8, j: nat): bv64
    requires j < 8
  {
    var x := b as bv64;
    match j
    case 0 => x
    case 1 => x << 8
    case 2 => x << 16
    case 3 => x << 24
    case 4 => x << 32
    case 5 => x << 40
    case 6 => x << 48
    case _ => x << 56
  }

  /** The first `n` bytes of `b` as a little-endian lane. */
  function Lane(b: seq<bv8>, n: nat): bv64
    requires n <= 8 && n <= |b|
  {
    if n == 0 then 0 else Lane(b, n - 1) | Placed(b[n - 1], n - 1)
  }

  function Low(x: bv64): bv8 {
    (x & 0xFF) as bv8
  }

  /** Byte `j` of a lane. */
  function ByteOf(lane: bv64, j: nat): bv8
    requires j < 8
  {
    match j
    case 0 => Low(lane)
    case 1 => Low(lane >> 8)
    case 2 => Low(lane >> 16)
    case 3 => Low(lane >> 24)
    case 4 => Low(lane >> 32)
    case 5 => Low(lane >> 40)
    case 6 => Low(lane >> 48)
    case _ => Low(lane >> 56)
  }

  // ----- nothing is lost -----

  /** Eight bytes side by side. */
  function Word(b0: bv8, b1: bv8, b2: bv8, b3: bv8, b4: bv8, b5: bv8, b6: bv8, b7: bv8): bv64 {
    (b0 as bv64) | ((b1 as bv64) << 8) | ((b2 as bv64) << 16) | ((b3 as bv64) << 24)
    | ((b4 as bv64) << 32) | ((b5 as bv64) << 40) | ((b6 as bv64) << 48) | ((b7 as bv64) << 56)
  }

  lemma WordBytes(b0: bv8, b1: bv8, b2: bv8, b3: bv8, b4: bv8, b5: bv8, b6: bv8, b7: bv8)
    ensures var x := Word(b0, b1, b2, b3, b4, b5, b6, b7);
      && Low(x) == b0 && Low(x >> 8) == b1 && Low(x >> 16) == b2 && Low(x >> 24) == b3
      && Low(x >> 32) == b4 && Low(x >> 40) == b5 && Low(x >> 48) == b6 && Low(x >> 56) == b7
  {
  }

  lemma PlacedIs(b: bv8)
    ensures Placed(b, 0) == b as bv64 && Placed(b, 1) == (b as bv64) << 8
    ensures Placed(b, 2) == (b as bv64) << 16 && Placed(b, 3) == (b as bv64) << 24
    ensures Placed(b, 4) == (b as bv64) << 32 && Placed(b, 5) == (b as bv64) << 40
    ensures Placed(b, 6) == (b as bv64) << 48 && Placed(b, 7) == (b as bv64) << 56
  {
  }

  lemma LaneStep(b: seq<bv8>, n: nat)
    requires 1 <= n <= 8 && n <= |b|
    ensures Lane(b, n) == Lane(b, n - 1) | Placed(b[n - 1], n - 1)
  {
  }

  lemma LaneUnrolled(b: seq<bv8>)
    requires |b| == 8
    ensures Lane(b, 8) == Lane(b, 0) | Placed(b[0], 0) | Placed(b[1], 1) | Placed(b[2], 2) | Placed(b[3], 3)
                        | Placed(b[4], 4) | Placed(b[5], 5) | Placed(b[6], 6) | Placed(b[7], 7)
  {
    LaneStep(b, 1);
    LaneStep(b, 2);
    LaneStep(b, 3);
    LaneStep(b, 4);
    LaneStep(b, 5);
    LaneStep(b, 6);
    LaneStep(b, 7);
    LaneStep(b, 8);
  }

  lemma LaneIsWord(b: seq<bv8>)
    requires |b| == 8
    ensures Lane(b, 8) == Word(b[0], b[1], b[2], b[3], b[4], b[5], b[6], b[7])
  {
    LaneUnrolled(b);
    PlacedIs(b[0]);
    PlacedIs(b[1]);
    PlacedIs(b[2]);
    PlacedIs(b[3]);
    PlacedIs(b[4]);
    PlacedIs(b[5]);
    PlacedIs(b[6]);
    PlacedIs(b[7]);
  }

  /** Packing eight bytes into a lane loses nothing. */
  lemma LaneByte(b: seq<bv8>, k: nat)
    requires |b| == 8 && k < 8
    ensures ByteOf(Lane(b, 8), k) == b[k]
  {
    LaneIsWord(b);
    WordBytes(b[0], b[1], b[2], b[3], b[4], b[5], b[6], b[7]);
  }
}
