/** SHA3-256's sponge: absorbing the padded message and squeezing the digest. The permutation is a
parameter `f`. */
module Sha3 {
  import opened Lanes
  import opened Padding

  const STATE_WORDS := 25
  const RATE_WORDS := 17
  const DIGEST := 32

  type Permutation = seq<bv64> -> seq<bv64>

  ghost predicate KeepsLength(f: Permutation) {
    forall st: seq<bv64> :: |st| == STATE_WORDS ==> |f(st)| == STATE_WORDS
  }

  /** The lanes of one block. */
  function BlockLanes(block: seq<bv8>): (lanes: seq<bv64>)
    requires |block| == RATE
    ensures |lanes| == RATE_WORDS
  {
    seq(RATE_WORDS, i requires 0 <= i < RATE_WORDS => LaneAt(block, i))
  }

  /** Lane `i` of a block. */
  function LaneAt(block: seq<bv8>, i: nat): bv64
    requires |block| == RATE && i < RATE_WORDS
  {
    Lane(block[8 * i..8 * i + 8], 8)
  }

  /** The first `n` lanes of a block xored into the front of the state. */
  function Xored(st: seq<bv64>, lanes: seq<bv64>, n: nat): (r: seq<bv64>)
    requires |st| == STATE_WORDS && |lanes| == RATE_WORDS && n <= RATE_WORDS
    ensures |r| == STATE_WORDS
  {
    if n == 0 then st
    else
      var s := Xored(st, lanes, n - 1);
      s[n - 1 := s[n - 1] ^ lanes[n - 1]]
  }

  /** The sponge: each block xored in and permuted. */
  ghost function Absorb(f: Permutation, st: seq<bv64>, padded: seq<bv8>): (r: seq<bv64>)
    requires KeepsLength(f) && |st| == STATE_WORDS && |padded| % RATE == 0
    ensures |r| == STATE_WORDS
    decreases |padded|
  {
    if padded == [] then st
    else Absorb(f, f(Xored(st, BlockLanes(padded[..RATE]), RATE_WORDS)), padded[RATE..])
  }

  /** Byte `k` of the state, counting through its words. */
  function StateByte(st: seq<bv64>, k: nat): bv8
    requires k < 8 * |st|
  {
    ByteOf(st[k / 8], k % 8)
  }

  /** The first `n` bytes of the state. */
  function Squeeze(st: seq<bv64>, n: nat): (r: seq<bv8>)
    requires n <= 8 * |st|
    ensures |r| == n
  {
    if n == 0 then [] else Squeeze(st, n - 1) + [StateByte(st, n - 1)]
  }

  function ZeroState(): seq<bv64> {
    seq(STATE_WORDS, _ => 0)
  }

  ghost function Digest(f: Permutation, msg: seq<bv8>): seq<bv8>
    requires KeepsLength(f)
  {
    Squeeze(Absorb(f, ZeroState(), Pad(msg)), DIGEST)
  }

  // ----- the message can be read off the absorbed lanes -----

  function AllLanes(padded: seq<bv8>): seq<seq<bv64>>
    requires |padded| % RATE == 0
    decreases |padded|
  {
    if padded == [] then [] else [BlockLanes(padded[..RATE])] + AllLanes(padded[RATE..])
  }

  function BlockBytes(lanes: seq<bv64>): seq<bv8>
    requires |lanes| == RATE_WORDS
  {
    seq(RATE, k requires 0 <= k < RATE => ByteOf(lanes[k / 8], k % 8))
  }

  lemma BlockRoundTrip(block: seq<bv8>)
    requires |block| == RATE
    ensures BlockBytes(BlockLanes(block)) == block
  {
    forall k | 0 <= k < RATE ensures BlockBytes(BlockLanes(block))[k] == block[k] {
      var b := block[8 * (k / 8)..8 * (k / 8) + 8];
      LaneByte(b, k % 8);
      assert b[k % 8] == block[k];
    }
  }

  function AllBytes(blocks: seq<seq<bv64>>): seq<bv8>
    requires forall k :: 0 <= k < |blocks| ==> |blocks[k]| == RATE_WORDS
  {
    if blocks == [] then [] else BlockBytes(blocks[0]) + AllBytes(blocks[1..])
  }

  lemma {:induction false} LanesRoundTrip(padded: seq<bv8>)
    requires |padded| % RATE == 0
    ensures forall k :: 0 <= k < |AllLanes(padded)| ==> |AllLanes(padded)[k]| == RATE_WORDS
    ensures AllBytes(AllLanes(padded)) == padded
    decreases |padded|
  {
    if padded != [] {
      BlockRoundTrip(padded[..RATE]);
      LanesRoundTrip(padded[RATE..]);
      assert AllLanes(padded)[1..] == AllLanes(padded[RATE..]);
      assert padded == padded[..RATE] + padded[RATE..];
    }
  }

  /** Padding and packing lose nothing: the message is recovered from the lanes that are absorbed. */
  lemma MessageRecovered(msg: seq<bv8>)
    ensures forall k :: 0 <= k < |AllLanes(Pad(msg))| ==> |AllLanes(Pad(msg))[k]| == RATE_WORDS
    ensures Unpad(AllBytes(AllLanes(Pad(msg)))) == msg
  {
    LanesRoundTrip(Pad(msg));
    UnpadPad(msg);
  }

  /** Distinct messages are absorbed as distinct sequences of blocks. */
  lemma DistinctMessages(a: seq<bv8>, b: seq<bv8>)
    requires a != b
    ensures AllLanes(Pad(a)) != AllLanes(Pad(b))
  {
    MessageRecovered(a);
    MessageRecovered(b);
  }

  // ----- the sponge, state by state -----

  /** The state with the lanes of a block xored into its first words, all at once. */
  function MixedIn(st: seq<bv64>, lanes: seq<bv64>): (r: seq<bv64>)
    requires |st| == STATE_WORDS && |lanes| == RATE_WORDS
    ensures |r| == STATE_WORDS
  {
    seq(STATE_WORDS, i requires 0 <= i < STATE_WORDS => MixedWord(st, lanes, i))
  }

  function MixedWord(st: seq<bv64>, lanes: seq<bv64>, i: nat): bv64
    requires |st| == STATE_WORDS && |lanes| == RATE_WORDS && i < STATE_WORDS
  {
    if i < RATE_WORDS then st[i] ^ lanes[i] else st[i]
  }

  lemma XoredWord(st: seq<bv64>, lanes: seq<bv64>, i: nat)
    requires |st| == STATE_WORDS && |lanes| == RATE_WORDS && i < STATE_WORDS
    ensures Xored(st, lanes, RATE_WORDS)[i] == MixedWord(st, lanes, i)
  {
    XoredAt(st, lanes, RATE_WORDS, i);
  }

  lemma XoredIsMixedIn(st: seq<bv64>, lanes: seq<bv64>)
    requires |st| == STATE_WORDS && |lanes| == RATE_WORDS
    ensures Xored(st, lanes, RATE_WORDS) == MixedIn(st, lanes)
  {
    var xored := Xored(st, lanes, RATE_WORDS);
    forall i | 0 <= i < STATE_WORDS ensures xored[i] == MixedWord(st, lanes, i) {
      XoredWord(st, lanes, i);
    }
  }

  /** `after` is the permuted state `before` with one block mixed in. */
  ghost predicate Absorbs(f: Permutation, before: seq<bv64>, lanes: seq<bv64>, after: seq<bv64>) {
    |before| == STATE_WORDS && |lanes| == RATE_WORDS && after == f(MixedIn(before, lanes))
  }

  /** The states of a sponge that absorbs the blocks one after the other, from `first` on. */
  ghost predicate IsTrace(f: Permutation, first: seq<bv64>, blocks: seq<seq<bv64>>, states: seq<seq<bv64>>) {
    && |states| == |blocks| + 1 && states[0] == first
    && forall b :: 0 <= b < |blocks| ==> Absorbs(f, states[b], blocks[b], states[b + 1])
  }

  lemma TraceCons(f: Permutation, first: seq<bv64>, next: seq<bv64>, block: seq<bv64>, blocks: seq<seq<bv64>>,
                  states: seq<seq<bv64>>)
    requires Absorbs(f, first, block, next) && IsTrace(f, next, blocks, states)
    ensures IsTrace(f, first, [block] + blocks, [first] + states)
  {
    var bs, ss := [block] + blocks, [first] + states;
    forall b | 0 <= b < |bs| ensures Absorbs(f, ss[b], bs[b], ss[b + 1]) {
      if b > 0 { assert Absorbs(f, states[b - 1], blocks[b - 1], states[b]); }
    }
  }

  lemma {:induction false} AbsorbTrace(f: Permutation, st: seq<bv64>, padded: seq<bv8>) returns (states: seq<seq<bv64>>)
    requires KeepsLength(f) && |st| == STATE_WORDS && |padded| % RATE == 0
    ensures IsTrace(f, st, AllLanes(padded), states) && states[|states| - 1] == Absorb(f, st, padded)
    decreases |padded|
  {
    if padded == [] {
      states := [st];
    } else {
      var lanes := BlockLanes(padded[..RATE]);
      var next := f(Xored(st, lanes, RATE_WORDS));
      XoredIsMixedIn(st, lanes);
      var rest := AbsorbTrace(f, next, padded[RATE..]);
      TraceCons(f, st, next, lanes, AllLanes(padded[RATE..]), rest);
      states := [st] + rest;
    }
  }

  ghost predicate AllZero(st: seq<bv64>) {
    |st| == 25 && forall i :: 0 <= i < |st| ==> st[i] == 0
  }

  /** The digest of a message, told without the functions that compute it: from 25 zero words on, each block of
  lanes of the padded message is mixed into the first 17 words and the whole permuted; the digest is the
  first four words of the last state. */
  ghost predicate IsDigest(f: Permutation, msg: seq<bv8>, digest: seq<bv8>) {
    |digest| == 32 && exists first: seq<bv64>, states: seq<seq<bv64>> ::
      AllZero(first) && IsTrace(f, first, AllLanes(Pad(msg)), states) && FirstWords(states[|states| - 1], digest)
  }

  ghost predicate FirstWords(st: seq<bv64>, digest: seq<bv8>) {
    |st| >= 4 && forall i :: 0 <= i < 4 ==> IsDigestWord(digest, st[i], i)
  }

  lemma DigestTrace(f: Permutation, msg: seq<bv8>)
    requires KeepsLength(f)
    ensures IsDigest(f, msg, Digest(f, msg))
  {
    var st := Absorb(f, ZeroState(), Pad(msg));
    var states := AbsorbTrace(f, ZeroState(), Pad(msg));
    forall i | 0 <= i < 4 ensures IsDigestWord(Digest(f, msg), st[i], i) {
      DigestWord(st, i);
    }
    assert AllZero(ZeroState()) && FirstWords(states[|states| - 1], Digest(f, msg));
  }

  // ----- in place -----

  /** Packs lane `i` of a block, byte by byte. */
  method PackLane(block: seq<bv8>, i: nat) returns (lane: bv64)
    requires |block| == RATE && i < RATE_WORDS
    ensures lane == LaneAt(block, i)
  {
    lane := 0;
    ghost var b := block[8 * i..8 * i + 8];
    for j := 0 to 8
      invariant lane == Lane(b, j)
    {
      assert b[j] == block[i * 8 + j];
      lane := lane | Placed(block[i * 8 + j], j);
    }
  }

  /** Xors a block into the state, lane by lane. */
  method XorBlock(st: array<bv64>, block: seq<bv8>)
    requires st.Length == STATE_WORDS && |block| == RATE
    modifies st
    ensures st[..] == Xored(old(st[..]), BlockLanes(block), RATE_WORDS)
  {
    ghost var lanes := BlockLanes(block);
    for i := 0 to RATE_WORDS
      invariant st[..] == Xored(old(st[..]), lanes, i)
    {
      var lane := PackLane(block, i);
      st[i] := st[i] ^ lane;
    }
  }

  /** Xoring touches each of the first words once, with its own lane of the block, and no other word. */
  lemma {:induction false} XoredAt(st: seq<bv64>, lanes: seq<bv64>, n: nat, k: nat)
    requires |st| == STATE_WORDS && |lanes| == RATE_WORDS && n <= RATE_WORDS && k < STATE_WORDS
    ensures Xored(st, lanes, n)[k] == if k < n then st[k] ^ lanes[k] else st[k]
  {
    if n > 0 { XoredAt(st, lanes, n - 1, k); }
  }

  method Permute(f: Permutation, st: array<bv64>)
    requires KeepsLength(f) && st.Length == STATE_WORDS
    modifies st
    ensures st[..] == f(old(st[..]))
  {
    var next := f(st[..]);
    forall i | 0 <= i < STATE_WORDS {
      st[i] := next[i];
    }
  }

  /** The last block: what is left of the message, the delimiter, zeros, and the final bit. */
  method LastBlock(rest: seq<bv8>) returns (temp: array<bv8>)
    requires |rest| < RATE
    ensures fresh(temp) && temp[..] == Pad(rest)
  {
    temp := new bv8[RATE](_ => 0);
    for k := 0 to |rest|
      invariant forall j :: 0 <= j < RATE ==> temp[j] == if j < k then rest[j] else 0
    {
      temp[k] := rest[k];
    }
    temp[|rest|] := 0x06;
    temp[RATE - 1] := temp[RATE - 1] | 0x80;
    assert Missing(|rest|) == RATE - |rest|;
  }

  /** Absorbs the whole blocks of a message and returns what is left of it. */
  method AbsorbBlocks(f: Permutation, st: array<bv64>, msg: seq<bv8>) returns (rest: seq<bv8>)
    requires KeepsLength(f) && st.Length == STATE_WORDS
    modifies st
    ensures |rest| < RATE
    ensures Absorb(f, st[..], Pad(rest)) == Absorb(f, old(st[..]), Pad(msg))
  {
    rest := msg;
    while |rest| >= RATE
      invariant Absorb(f, st[..], Pad(rest)) == Absorb(f, old(st[..]), Pad(msg))
    {
      PadFront(rest);
      XorBlock(st, rest[..RATE]);
      Permute(f, st);
      rest := rest[RATE..];
    }
  }

  /** The absorbing phase: the state after the whole padded message. */
  method AbsorbMessage(f: Permutation, msg: seq<bv8>) returns (st: array<bv64>)
    requires KeepsLength(f)
    ensures fresh(st) && st.Length == STATE_WORDS && st[..] == Absorb(f, ZeroState(), Pad(msg))
  {
    st := new bv64[STATE_WORDS](_ => 0);
    assert st[..] == ZeroState();
    var rest := AbsorbBlocks(f, st, msg);
    AbsorbLast(f, st, rest);
  }

  /** Absorbs the padded last block. */
  method AbsorbLast(f: Permutation, st: array<bv64>, rest: seq<bv8>)
    requires KeepsLength(f) && st.Length == STATE_WORDS && |rest| < RATE
    modifies st
    ensures st[..] == Absorb(f, old(st[..]), Pad(rest))
  {
    var temp := LastBlock(rest);
    LastAbsorb(f, st[..], Pad(rest));
    XorBlock(st, temp[..]);
    Permute(f, st);
  }

  method Sha3Of256(f: Permutation, msg: seq<bv8>, hash: array<bv8>)
    requires KeepsLength(f) && hash.Length >= DIGEST
    modifies hash
    ensures hash[..] == Digest(f, msg) + old(hash[..])[DIGEST..]
    ensures IsDigest(f, msg, hash[..32]) && hash[32..] == old(hash[32..])
  {
    var st := AbsorbMessage(f, msg);
    ghost var digest := Squeeze(st[..], DIGEST);
    forall i | 0 <= i < DIGEST / 8 ensures IsDigestWord(digest, st[..][i], i) {
      DigestWord(st[..], i);
    }
    WriteDigest(st[..], hash, digest);
    assert hash[..] == digest + old(hash[..])[DIGEST..];
    DigestTrace(f, msg);
    assert hash[..32] == digest;
  }

  lemma LastAbsorb(f: Permutation, st: seq<bv64>, block: seq<bv8>)
    requires KeepsLength(f) && |st| == STATE_WORDS && |block| == RATE
    ensures Absorb(f, st, block) == f(Xored(st, BlockLanes(block), RATE_WORDS))
  {
    assert block[..RATE] == block && block[RATE..] == [];
  }

  lemma {:induction false} SqueezeAt(st: seq<bv64>, n: nat, k: nat)
    requires k < n <= 8 * |st|
    ensures Squeeze(st, n)[k] == StateByte(st, k)
  {
    if k < n - 1 { SqueezeAt(st, n - 1, k); }
  }

  /** Word `i` of the state makes the eight bytes of the digest from `8 * i` on. */
  ghost predicate IsDigestWord(digest: seq<bv8>, word: bv64, i: nat) {
    8 * i + 8 <= |digest| && forall k :: 8 * i <= k < 8 * i + 8 ==> digest[k] == ByteOf(word, k - 8 * i)
  }

  lemma DigestWord(st: seq<bv64>, i: nat)
    requires |st| == STATE_WORDS && i < DIGEST / 8
    ensures IsDigestWord(Squeeze(st, DIGEST), st[i], i)
  {
    var digest := Squeeze(st, DIGEST);
    forall k | 8 * i <= k < 8 * i + 8 ensures digest[k] == ByteOf(st[i], k - 8 * i) {
      WordOf(i, k);
      SqueezeAt(st, DIGEST, k);
    }
  }

  lemma WordOf(i: nat, k: nat)
    requires 8 * i <= k < 8 * i + 8
    ensures k / 8 == i && k % 8 == k - 8 * i
  {
  }

  /** Writes the eight bytes of one word; `digest` is what the buffer is to hold. */
  method WriteWord(word: bv64, i: nat, hash: array<bv8>, ghost digest: seq<bv8>)
    requires |digest| <= hash.Length && IsDigestWord(digest, word, i)
    modifies hash
    ensures forall k :: 0 <= k < hash.Length ==> hash[k] == if 8 * i <= k < 8 * i + 8 then digest[k] else old(hash[k])
  {
    for j := 0 to 8
      invariant forall k :: 0 <= k < hash.Length ==>
        hash[k] == if 8 * i <= k < 8 * i + j then digest[k] else old(hash[k])
    {
      hash[i * 8 + j] := ByteOf(word, j);
    }
  }

  /** Writes the squeezed bytes, word by word. */
  method WriteDigest(st: seq<bv64>, hash: array<bv8>, ghost digest: seq<bv8>)
    requires |st| == STATE_WORDS && hash.Length >= |digest| == DIGEST
    requires forall i :: 0 <= i < DIGEST / 8 ==> IsDigestWord(digest, st[i], i)
    modifies hash
    ensures forall k :: 0 <= k < hash.Length ==> hash[k] == if k < DIGEST then digest[k] else old(hash[k])
  {
    for i := 0 to DIGEST / 8
      invariant forall k :: 0 <= k < hash.Length ==> hash[k] == if k < 8 * i then digest[k] else old(hash[k])
    {
      WriteWord(st[i], i, hash, digest);
    }
  }
}
