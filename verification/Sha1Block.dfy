/** The SHA-1 block transform (section 6.1.2 of FIPS 180-4): the standard's eighty rounds over a schedule of
    eighty words, and the unrolled rounds over sixteen words that are replaced as they are used. */
module Sha1Block {
  import opened Bytes
  import opened Sequences
  import Sha1

  // ----- the standard

  function Rotl1(x: bv32): bv32 {
    (x << 1) | (x >> 31)
  }

  function Rotl5(x: bv32): bv32 {
    (x << 5) | (x >> 27)
  }

  function Rotl30(x: bv32): bv32 {
    (x << 30) | (x >> 2)
  }

  /** The message schedule W. */
  function Schedule(m: seq<bv32>, t: nat): bv32
    requires |m| == 16
  {
    if t < 16 then m[t]
    else Rotl1(Schedule(m, t - 3) ^ Schedule(m, t - 8) ^ Schedule(m, t - 14) ^ Schedule(m, t - 16))
  }

  function Ch(x: bv32, y: bv32, z: bv32): bv32 {
    (x & y) ^ (!x & z)
  }

  function Parity(x: bv32, y: bv32, z: bv32): bv32 {
    x ^ y ^ z
  }

  function Maj(x: bv32, y: bv32, z: bv32): bv32 {
    (x & y) ^ (x & z) ^ (y & z)
  }

  function Mix(t: nat, x: bv32, y: bv32, z: bv32): bv32 {
    if t < 20 then Ch(x, y, z) else if 40 <= t < 60 then Maj(x, y, z) else Parity(x, y, z)
  }

  function Constant(t: nat): bv32 {
    if t < 20 then 0x5A827999 else if t < 40 then 0x6ED9EBA1 else if t < 60 then 0x8F1BBCDC else 0xCA62C1D6
  }

  datatype Working = Working(a: bv32, b: bv32, c: bv32, d: bv32, e: bv32)

  function Sum(p: bv32, q: bv32, r: bv32, s: bv32, t: bv32): bv32 {
    p + q + r + s + t
  }

  function Round(t: nat, r: Working, w: bv32): Working {
    Working(Sum(Rotl5(r.a), Mix(t, r.b, r.c, r.d), r.e, Constant(t), w), r.a, Rotl30(r.b), r.c, r.d)
  }

  /** The working variables after t rounds. */
  function Rounds(r: Working, m: seq<bv32>, t: nat): Working
    requires |m| == 16
  {
    if t == 0 then r else Round(t - 1, Rounds(r, m, t - 1), Schedule(m, t - 1))
  }

  type Words = s: seq<bv32> | |s| == 5 witness [0, 0, 0, 0, 0]

  function Start(h: Words): Working {
    Working(h[0], h[1], h[2], h[3], h[4])
  }

  function Plus(x: bv32, y: bv32): bv32 {
    x + y
  }

  function Added(h: Words, r: Working): Words {
    [Plus(h[0], r.a), Plus(h[1], r.b), Plus(h[2], r.c), Plus(h[3], r.d), Plus(h[4], r.e)]
  }

  function Compress(h: Words, m: seq<bv32>): Words
    requires |m| == 16
  {
    Added(h, Rounds(Start(h), m, 80))
  }

  /** Four octets as a word, the most significant first. */
  function WordOf(s: seq<bv8>, i: nat): bv32
    requires 4 * i + 4 <= |s|
  {
    ((s[4 * i] as bv32) << 24) | ((s[4 * i + 1] as bv32) << 16) | ((s[4 * i + 2] as bv32) << 8) | s[4 * i + 3] as bv32
  }

  function WordsOf(s: seq<bv8>): (m: seq<bv32>)
    requires |s| == 64
    ensures |m| == 16
  {
    seq(16, i requires 0 <= i < 16 => WordOf(s, i))
  }

  // ----- the rounds as they are written

  /** As memory on a little-endian machine gives it. */
  function Loaded(s: seq<bv8>, i: nat): bv32
    requires 4 * i + 4 <= |s|
  {
    s[4 * i] as bv32 | ((s[4 * i + 1] as bv32) << 8) | ((s[4 * i + 2] as bv32) << 16) | ((s[4 * i + 3] as bv32) << 24)
  }

  /** blk0 */
  function Swapped(x: bv32): bv32 {
    (((x << 24) | (x >> 8)) & 0xFF00FF00) | (((x << 8) | (x >> 24)) & 0x00FF00FF)
  }

  lemma SwapIsWord(s: seq<bv8>, i: nat)
    requires 4 * i + 4 <= |s|
    ensures Swapped(Loaded(s, i)) == WordOf(s, i)
  {
    SwapOctets(s[4 * i], s[4 * i + 1], s[4 * i + 2], s[4 * i + 3]);
  }

  lemma SwapOctets(p: bv8, q: bv8, r: bv8, s: bv8)
    ensures Swapped(p as bv32 | ((q as bv32) << 8) | ((r as bv32) << 16) | ((s as bv32) << 24))
            == ((p as bv32) << 24) | ((q as bv32) << 16) | ((r as bv32) << 8) | s as bv32
  {
  }

  lemma ChIs(w: bv32, x: bv32, y: bv32)
    ensures (w & (x ^ y)) ^ y == Ch(w, x, y)
  {
  }

  lemma MajIs(w: bv32, x: bv32, y: bv32)
    ensures ((w | x) & y) | (w & x) == Maj(w, x, y)
  {
  }

  /** Before round i the sixteen words hold the last sixteen of the schedule, each at its number modulo 16,
      and behind them what was loaded. */
  ghost predicate Window(block: seq<bv32>, s: seq<bv8>, i: nat)
    requires |s| == 64
  {
    |block| == 16
    && (forall t :: 0 <= t < i <= t + 16 ==> block[t % 16] == Schedule(WordsOf(s), t))
    && (forall t :: i <= t < 16 ==> block[t] == Loaded(s, t))
  }

  lemma Residues(i: nat)
    requires i >= 16
    ensures (i + 13) % 16 == (i - 3) % 16 && (i + 8) % 16 == (i - 8) % 16 && (i + 2) % 16 == (i - 14) % 16
    ensures i % 16 == (i - 16) % 16
  {
  }

  lemma Apart(i: nat, t: nat)
    requires t < i < t + 16
    ensures t % 16 != i % 16
  {
  }

  /** The word of round i is written over the one that is needed no longer. */
  lemma WindowMoves(block: seq<bv32>, s: seq<bv8>, i: nat, w: bv32)
    requires |s| == 64 && Window(block, s, i) && w == Schedule(WordsOf(s), i)
    ensures Window(block[i % 16 := w], s, i + 1)
  {
    hide Schedule, Loaded;
    var next := block[i % 16 := w];
    forall t | 0 <= t < i + 1 <= t + 16 ensures next[t % 16] == Schedule(WordsOf(s), t) {
      if t < i {
        Apart(i, t);
      }
    }
  }

  lemma ScheduleIs(m: seq<bv32>, t: nat)
    requires |m| == 16
    ensures t < 16 ==> Schedule(m, t) == m[t]
    ensures t >= 16 ==>
      Schedule(m, t) == Rotl1(Schedule(m, t - 3) ^ Schedule(m, t - 8) ^ Schedule(m, t - 14) ^ Schedule(m, t - 16))
  {
    hide Rotl1;
  }

  /** What blk computes is the next word of the schedule. */
  lemma NextIs(block: seq<bv32>, s: seq<bv8>, i: nat)
    requires |s| == 64 && Window(block, s, i) && i >= 16
    ensures Rotl1(block[(i + 13) % 16] ^ block[(i + 8) % 16] ^ block[(i + 2) % 16] ^ block[i % 16]) == Schedule(WordsOf(s), i)
  {
    hide Rotl1, Schedule, Loaded, WordsOf;
    var m := WordsOf(s);
    Residues(i);
    WordIs(block, s, i, i - 3);
    WordIs(block, s, i, i - 8);
    WordIs(block, s, i, i - 14);
    WordIs(block, s, i, i - 16);
    ScheduleIs(m, i);
  }

  lemma WordIs(block: seq<bv32>, s: seq<bv8>, i: nat, t: nat)
    requires |s| == 64 && Window(block, s, i) && t < i <= t + 16
    ensures block[t % 16] == Schedule(WordsOf(s), t)
  {
  }

  lemma FirstIs(block: seq<bv32>, s: seq<bv8>, i: nat)
    requires |s| == 64 && Window(block, s, i) && i < 16
    ensures Swapped(block[i]) == Schedule(WordsOf(s), i)
  {
    hide Swapped, Loaded, WordOf;
    SwapIsWord(s, i);
  }

  /** blk0 and blk: the word of round i, stored where it is read again. */
  method NextWord(block: array<bv32>, ghost s: seq<bv8>, i: nat) returns (w: bv32)
    requires |s| == 64 && block.Length == 16 && Window(block[..], s, i)
    modifies block
    ensures w == Schedule(WordsOf(s), i) && Window(block[..], s, i + 1)
  {
    hide *;
    ghost var was := block[..];
    if i < 16 {
      FirstIs(was, s, i);
      w := Swapped(block[i]);
    } else {
      NextIs(was, s, i);
      w := Rotl1(block[(i + 13) % 16] ^ block[(i + 8) % 16] ^ block[(i + 2) % 16] ^ block[i % 16]);
    }
    block[i % 16] := w;
    WindowMoves(was, s, i, w);
    assert block[..] == was[i % 16 := w];
  }

  /** The expressions of the macros R0 to R4. */
  function Mixed(i: nat, w: bv32, x: bv32, y: bv32): bv32 {
    if i < 20 then (w & (x ^ y)) ^ y
    else if i < 40 then w ^ x ^ y
    else if i < 60 then ((w | x) & y) | (w & x)
    else w ^ x ^ y
  }

  function Increased(z: bv32, mixed: bv32, word: bv32, constant: bv32, rotated: bv32): bv32 {
    z + (mixed + word + constant + rotated)
  }

  lemma MixIs(i: nat, w: bv32, x: bv32, y: bv32)
    ensures Mixed(i, w, x, y) == Mix(i, w, x, y)
  {
    hide Ch, Maj;
    ChIs(w, x, y);
    MajIs(w, x, y);
  }

  lemma SumIs(z: bv32, f: bv32, w: bv32, k: bv32, r: bv32)
    ensures Increased(z, f, w, k, r) == Sum(r, f, z, k, w)
  {
  }

  /** The macros R0 to R4: z and w are updated. */
  method Step(block: array<bv32>, ghost s: seq<bv8>, v: bv32, w: bv32, x: bv32, y: bv32, z: bv32, i: nat)
    returns (z': bv32, w': bv32)
    requires |s| == 64 && block.Length == 16 && Window(block[..], s, i)
    modifies block
    ensures Window(block[..], s, i + 1)
    ensures Working(z', v, w', x, y) == Round(i, Working(v, w, x, y, z), Schedule(WordsOf(s), i))
  {
    hide *;
    var word := NextWord(block, s, i);
    z' := Increased(z, Mixed(i, w, x, y), word, Constant(i), Rotl5(v));
    w' := Rotl30(w);
    MixIs(i, w, x, y);
    SumIs(z, Mixed(i, w, x, y), word, Constant(i), Rotl5(v));
    RoundIs(i, Working(v, w, x, y, z), word);
  }

  lemma RoundIs(t: nat, r: Working, w: bv32)
    ensures Round(t, r, w) == Working(Sum(Rotl5(r.a), Mix(t, r.b, r.c, r.d), r.e, Constant(t), w), r.a, Rotl30(r.b), r.c, r.d)
  {
    hide Sum, Rotl5, Rotl30, Mix, Constant;
  }

  /** Five rounds, after which the variables are back in their places. */
  method FiveSteps(block: array<bv32>, ghost s: seq<bv8>, ghost start: Working, r: Working, i: nat) returns (r': Working)
    requires |s| == 64 && block.Length == 16 && Window(block[..], s, i) && r == Rounds(start, WordsOf(s), i)
    modifies block
    ensures Window(block[..], s, i + 5) && r' == Rounds(start, WordsOf(s), i + 5)
  {
    hide *;
    var a, b, c, d, e := r.a, r.b, r.c, r.d, r.e;
    e, b := Step(block, s, a, b, c, d, e, i);
    RoundsIs(start, WordsOf(s), i + 1);
    d, a := Step(block, s, e, a, b, c, d, i + 1);
    RoundsIs(start, WordsOf(s), i + 2);
    c, e := Step(block, s, d, e, a, b, c, i + 2);
    RoundsIs(start, WordsOf(s), i + 3);
    b, d := Step(block, s, c, d, e, a, b, i + 3);
    RoundsIs(start, WordsOf(s), i + 4);
    a, c := Step(block, s, b, c, d, e, a, i + 4);
    RoundsIs(start, WordsOf(s), i + 5);
    r' := Working(a, b, c, d, e);
  }

  lemma RoundsIs(r: Working, m: seq<bv32>, t: nat)
    requires |m| == 16 && t > 0
    ensures Rounds(r, m, t) == Round(t - 1, Rounds(r, m, t - 1), Schedule(m, t - 1))
  {
  }

  lemma FirstWindow(block: seq<bv32>, s: seq<bv8>)
    requires |s| == 64 && |block| == 16 && forall i :: 0 <= i < 16 ==> block[i] == Loaded(s, i)
    ensures Window(block, s, 0)
  {
    hide Loaded, Schedule;
  }

  lemma NoRounds(r: Working, m: seq<bv32>)
    requires |m| == 16
    ensures Rounds(r, m, 0) == r
  {
  }

  lemma CompressIs(h: Words, m: seq<bv32>, r: Working)
    requires |m| == 16 && r == Rounds(Start(h), m, 80)
    ensures Compress(h, m) == Added(h, r)
  {
    hide Added, Rounds;
  }

  /** cs_sha1_transform */
  method TransformBlock(state: array<bv32>, buffer: seq<bv8>)
    requires state.Length == 5 && |buffer| == 64
    modifies state
    ensures state[..] == Compress(old(state[..]), WordsOf(buffer))
  {
    hide *;
    ghost var h, m := state[..], WordsOf(buffer);
    var block := new bv32[16](i requires 0 <= i < 16 => Loaded(buffer, i));
    FirstWindow(block[..], buffer);
    var r := Working(state[0], state[1], state[2], state[3], state[4]);
    StartIs(h);
    NoRounds(Start(h), m);
    var i := 0;
    while i < 80
      invariant i <= 80 && i % 5 == 0 && state[..] == h
      invariant Window(block[..], buffer, i) && r == Rounds(Start(h), m, i)
      decreases 80 - i
    {
      r := FiveSteps(block, buffer, Start(h), r, i);
      i := i + 5;
    }
    CompressIs(h, m, r);
    AddTo(state, r);
  }

  lemma StartIs(h: Words)
    ensures Start(h) == Working(h[0], h[1], h[2], h[3], h[4])
  {
  }

  method AddTo(state: array<bv32>, r: Working)
    requires state.Length == 5
    modifies state
    ensures state[..] == Added(old(state[..]), r)
  {
    hide Plus;
    state[0] := Plus(state[0], r.a);
    state[1] := Plus(state[1], r.b);
    state[2] := Plus(state[2], r.c);
    state[3] := Plus(state[3], r.d);
    state[4] := Plus(state[4], r.e);
  }

  // ----- the transform of the streaming hash

  function Ints(h: Words): Sha1.State {
    [h[0] as int, h[1] as int, h[2] as int, h[3] as int, h[4] as int]
  }

  function Bits(s: Sha1.State): Words {
    [s[0] as bv32, s[1] as bv32, s[2] as bv32, s[3] as bv32, s[4] as bv32]
  }

  function Octets(s: seq<bv8>): (r: seq<byte>)
    ensures |r| == |s|
  {
    seq(|s|, i requires 0 <= i < |s| => s[i] as int)
  }

  function OctetBits(s: seq<byte>): (r: seq<bv8>)
    ensures |r| == |s|
  {
    seq(|s|, i requires 0 <= i < |s| => s[i] as bv8)
  }

  function Standard(s: Sha1.State, block: seq<byte>): Sha1.State {
    if |block| == 64 then Ints(Compress(Bits(s), WordsOf(OctetBits(block)))) else s
  }

  lemma BitsOfInts(h: Words)
    ensures Bits(Ints(h)) == h
  {
  }

  lemma BitsOfOctets(s: seq<bv8>)
    ensures OctetBits(Octets(s)) == s
  {
  }

  /** What the transform leaves in the state is what the streaming hash folds over the blocks. */
  lemma TransformIsStandard(h: Words, s: seq<bv8>)
    requires |s| == 64
    ensures Ints(Compress(h, WordsOf(s))) == Standard(Ints(h), Octets(s))
  {
    hide *;
    BitsOfInts(h);
    BitsOfOctets(s);
    StandardIs(Ints(h), Octets(s));
  }

  lemma StandardIs(s: Sha1.State, block: seq<byte>)
    requires |block| == 64
    ensures Standard(s, block) == Ints(Compress(Bits(s), WordsOf(OctetBits(block))))
  {
    hide Ints, Compress, Bits, WordsOf, OctetBits;
  }

  /** mg_hash_sha1_v: SHA-1 of the parts put together. */
  method Hash(msgs: seq<seq<byte>>) returns (digest: array<byte>)
    requires forall k :: 0 <= k < |msgs| ==> |msgs[k]| <= 0x1_0000_0000 - 64
    ensures fresh(digest) && digest[..] == Sha1.Digest(Standard, Concat(msgs))
  {
    digest := Sha1.HashParts(Standard, msgs);
  }
}
