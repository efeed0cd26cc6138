/** The padding of SHA3-256, byte by byte as the kernel writes it and bit by bit as FIPS 202 defines it. */
module Padding {

  const RATE := 136

  // ----- bytes -----

  function ZeroBytes(n: nat): seq<bv8> {
    seq(n, _ => 0)
  }

  /** What is appended to fill up a block of which `q` bytes are left, 1 <= q <= RATE. */
  function Tail(q: nat): seq<bv8>
    requires 1 <= q
  {
    if q == 1 then [0x86] else [0x06] + ZeroBytes(q - 2) + [0x80]
  }

  function Missing(len: nat): (q: nat)
    ensures 1 <= q <= RATE && (len + q) % RATE == 0
  {
    RATE - len % RATE
  }

  /** The message as it is absorbed. */
  function Pad(msg: seq<bv8>): (p: seq<bv8>)
    ensures |p| % RATE == 0 && |msg| < |p| <= |msg| + RATE
  {
    msg + Tail(Missing(|msg|))
  }

  /** Whole blocks at the front of a message are absorbed as they are. */
  lemma PadFront(msg: seq<bv8>)
    requires |msg| >= RATE
    ensures Pad(msg) == msg[..RATE] + Pad(msg[RATE..])
    ensures Pad(msg)[..RATE] == msg[..RATE] && Pad(msg)[RATE..] == Pad(msg[RATE..])
  {
    assert msg == msg[..RATE] + msg[RATE..];
    assert |msg| % RATE == |msg[RATE..]| % RATE;
  }

  // ----- the padding can be undone -----

  function StripZeros(s: seq<bv8>): seq<bv8> {
    if s != [] && s[|s| - 1] == 0 then StripZeros(s[..|s| - 1]) else s
  }

  function Unpad(p: seq<bv8>): seq<bv8> {
    if p == [] then []
    else if p[|p| - 1] == 0x86 then p[..|p| - 1]
    else
      var s := StripZeros(p[..|p| - 1]);
      if s == [] then [] else s[..|s| - 1]
  }

  lemma {:induction false} StripTail(msg: seq<bv8>, n: nat)
    ensures StripZeros(msg + [0x06] + ZeroBytes(n)) == msg + [0x06]
  {
    var s := msg + [0x06] + ZeroBytes(n);
    if n == 0 {
      assert s == msg + [0x06];
    } else {
      assert s[..|s| - 1] == msg + [0x06] + ZeroBytes(n - 1);
      StripTail(msg, n - 1);
    }
  }

  lemma UnpadLong(msg: seq<bv8>, n: nat)
    ensures Unpad(msg + [0x06] + ZeroBytes(n) + [0x80]) == msg
  {
    var p := msg + [0x06] + ZeroBytes(n) + [0x80];
    assert p[|p| - 1] == 0x80 && p[..|p| - 1] == msg + [0x06] + ZeroBytes(n);
    StripTail(msg, n);
    assert (msg + [0x06])[..|msg|] == msg;
  }

  /** The padding can be taken off again: the message is all that is before it. */
  lemma UnpadPad(msg: seq<bv8>)
    ensures Unpad(Pad(msg)) == msg
  {
    var p, q := Pad(msg), Missing(|msg|);
    if q == 1 {
      assert p[|p| - 1] == 0x86 && p[..|p| - 1] == msg;
    } else {
      assert p == msg + [0x06] + ZeroBytes(q - 2) + [0x80];
      UnpadLong(msg, q - 2);
    }
  }

  // ----- bits -----

  /** The bits of a byte, least significant first (FIPS 202, section B.1). */
  function ByteBits(b: bv8): seq<bool> {
    [b & 0x01 != 0, b & 0x02 != 0, b & 0x04 != 0, b & 0x08 != 0,
     b & 0x10 != 0, b & 0x20 != 0, b & 0x40 != 0, b & 0x80 != 0]
  }

  function Bits(s: seq<bv8>): (r: seq<bool>)
    ensures |r| == 8 * |s|
  {
    if s == [] then [] else Bits(s[..|s| - 1]) + ByteBits(s[|s| - 1])
  }

  lemma {:induction false} BitsConcat(a: seq<bv8>, b: seq<bv8>)
    ensures Bits(a + b) == Bits(a) + Bits(b)
  {
    if b == [] {
      assert a + b == a;
    } else {
      assert (a + b)[..|a + b| - 1] == a + b[..|b| - 1];
      BitsConcat(a, b[..|b| - 1]);
    }
  }

  function ZeroBits(n: nat): seq<bool> {
    seq(n, _ => false)
  }

  lemma {:induction false} BitsOfZeros(n: nat)
    ensures Bits(ZeroBytes(n)) == ZeroBits(8 * n)
  {
    if n > 0 {
      assert ZeroBytes(n)[..n - 1] == ZeroBytes(n - 1);
      BitsOfZeros(n - 1);
      assert ByteBits(0) == ZeroBits(8);
    }
  }

  const RATE_BITS := 1088

  /** pad10*1 for this rate and a string of `m` bits (FIPS 202, section 5.1). */
  function Pad101(m: int): seq<bool> {
    [true] + ZeroBits((-m - 2) % RATE_BITS) + [true]
  }

  /** The string Keccak[512] pads for SHA3-256: the message bits and the suffix 01 (section 6.1). */
  function Suffixed(m: seq<bool>): seq<bool> {
    m + [false, true]
  }

  lemma DelimiterBits()
    ensures Bits([0x06]) == [false, true, true] + ZeroBits(5)
    ensures Bits([0x80]) == ZeroBits(7) + [true]
    ensures Bits([0x86]) == [false, true, true] + ZeroBits(4) + [true]
  {
    assert Bits([0x06]) == Bits([]) + ByteBits(0x06);
    assert Bits([0x80]) == Bits([]) + ByteBits(0x80);
    assert Bits([0x86]) == Bits([]) + ByteBits(0x86);
  }

  lemma TailBits(q: nat)
    requires 1 <= q
    ensures Bits(Tail(q)) == [false, true, true] + ZeroBits(8 * q - 4) + [true]
  {
    DelimiterBits();
    if q > 1 {
      BitsConcat([0x06] + ZeroBytes(q - 2), [0x80]);
      BitsConcat([0x06], ZeroBytes(q - 2));
      BitsOfZeros(q - 2);
      Regroup(8 * (q - 2));
    }
  }

  lemma Regroup(n: nat)
    ensures [false, true, true] + ZeroBits(5) + ZeroBits(n) + (ZeroBits(7) + [true])
         == [false, true, true] + ZeroBits(n + 12) + [true]
  {
  }

  lemma MissingBits(len: nat)
    ensures (-(8 * len + 2) - 2) % RATE_BITS == 8 * Missing(len) - 4
  {
    var k := len / RATE;
    var x := -(8 * len + 2) - 2;
    assert len == k * RATE + len % RATE;
    assert x == (8 * Missing(len) - 4) + (-(k + 1)) * RATE_BITS;
  }

  /** The bytes the kernel appends are the bits the standard does. */
  lemma PadIsFips(msg: seq<bv8>)
    ensures Bits(Pad(msg)) == Suffixed(Bits(msg)) + Pad101(|Suffixed(Bits(msg))|)
  {
    BitsConcat(msg, Tail(Missing(|msg|)));
    TailBits(Missing(|msg|));
    MissingBits(|msg|);
  }
}
