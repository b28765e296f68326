/** Streaming SHA-1 (sections 5.1.1 and 6.1 of FIPS 180-4) over any block transform: padding, the two-word
    bit counter and the block buffer kept between calls. Sha1Block has the transform of the standard. */
module Sha1 {
  import opened Bytes
  import opened Sequences

  type State = s: seq<uint32> | |s| == 5 witness [0, 0, 0, 0, 0]
  type Transform = (State, seq<byte>) -> State

  const INITIAL: State := [0x67452301, 0xEFCDAB89, 0x98BADCFE, 0x10325476, 0xC3D2E1F0]
  const WORD_LIMIT: int := 0x1_0000_0000
  const BLOCK: nat := 64

  // ----- the standard

  /** The transform folded over the complete blocks of msg. */
  function Fold(f: Transform, s: State, msg: seq<byte>): State
    decreases |msg|
  {
    if |msg| < BLOCK then s else Fold(f, f(s, msg[..BLOCK]), msg[BLOCK..])
  }

  function Be64(n: int): (r: seq<byte>)
    requires 0 <= n < SIZE_LIMIT
    ensures |r| == 8
  {
    Be32(n / WORD_LIMIT) + Be32(n % WORD_LIMIT)
  }

  function PadLength(n: nat): (k: nat)
    ensures k < BLOCK && (n + 1 + k) % BLOCK == 56
  {
    (BLOCK + 55 - n % BLOCK) % BLOCK
  }

  lemma BlockUnique(x: nat, q: nat, r: nat)
    requires x == q * BLOCK + r && r < BLOCK
    ensures x / BLOCK == q && x % BLOCK == r
  {
  }

  /** msg, a one bit, zero bits, and the bit length as the 64-bit counter holds it. */
  function Pad(msg: seq<byte>): seq<byte> {
    msg + [0x80] + Zeros(PadLength(|msg|)) + Be64(8 * |msg| % SIZE_LIMIT)
  }

  function WordBytes(s: seq<uint32>): (r: seq<byte>)
    ensures |r| == 4 * |s|
  {
    if s == [] then [] else Be32(s[0]) + WordBytes(s[1..])
  }

  function Digest(f: Transform, msg: seq<byte>): (r: seq<byte>)
    ensures |r| == 20
  {
    WordBytes(Fold(f, INITIAL, Pad(msg)))
  }

  lemma PadFillsBlocks(msg: seq<byte>)
    ensures |Pad(msg)| % BLOCK == 0
  {
    hide Be64;
    var m := |msg| + 1 + PadLength(|msg|);
    assert |Pad(msg)| == m + 8;
    BlockUnique(m + 8, m / BLOCK + 1, 0);
  }

  /** The layout of section 5.1.1 of FIPS 180-4: the message, the octet 0x80, as few zeros as fill the
      blocks, and the length in bits in the last eight octets, most significant first. */
  lemma PadLayout(msg: seq<byte>)
    ensures var p, n := Pad(msg), |msg|;
            && |p| % 64 == 0 && n + 9 <= |p| < n + 9 + 64 && p[..n] == msg && p[n] == 128
            && (forall k :: n < k < |p| - 8 ==> p[k] == 0) && Number(p[|p| - 8..]) == 8 * n % SIZE_LIMIT
  {
    hide Be64, Number;
    PadFillsBlocks(msg);
    var p, n := Pad(msg), 8 * |msg| % SIZE_LIMIT;
    assert p[|p| - 8..] == Be64(n);
    Be64IsNumber(n);
  }

  lemma Be64IsNumber(n: int)
    requires 0 <= n < SIZE_LIMIT
    ensures Number(Be64(n)) == n
  {
    hide Number, Be32;
    var x := Be64(n);
    assert x[..4] == Be32(n / WORD_LIMIT) && x[4..] == Be32(n % WORD_LIMIT);
    BigEndian64(x);
    BigEndian32(n / WORD_LIMIT, [0, 0, 0, 0]);
    BigEndian32(n % WORD_LIMIT, [0, 0, 0, 0]);
  }

  /** The digest is the five words of the state, each most significant octet first. */
  lemma DigestLayout(f: Transform, msg: seq<byte>, k: nat)
    requires k < 5
    ensures |Digest(f, msg)| == 20 && Number(Digest(f, msg)[4 * k..4 * k + 4]) == Fold(f, INITIAL, Pad(msg))[k]
  {
    hide Number, Fold, Pad;
    WordAt(Fold(f, INITIAL, Pad(msg)), k);
  }

  lemma {:induction false} WordAt(s: seq<uint32>, k: nat)
    requires k < |s|
    ensures Number(WordBytes(s)[4 * k..4 * k + 4]) == s[k]
  {
    hide Number, Be32, WordBytes;
    WordBytesSplit(s);
    if k == 0 {
      BigEndian32(s[0], [0, 0, 0, 0]);
    } else {
      WordAt(s[1..], k - 1);
      SliceBehind(Be32(s[0]), WordBytes(s[1..]), 4 * (k - 1));
    }
  }

  lemma WordBytesSplit(s: seq<uint32>)
    requires s != []
    ensures WordBytes(s) == Be32(s[0]) + WordBytes(s[1..]) && WordBytes(s)[0..4] == Be32(s[0])
  {
    hide Be32;
  }

  lemma SliceBehind(x: seq<byte>, y: seq<byte>, i: nat)
    requires i + 4 <= |y| && |x| == 4
    ensures (x + y)[i + 4..i + 8] == y[i..i + 4]
  {
  }

  /** The initial state of section 5.3.1: hexadecimal digits up and down, least significant octet first. */
  lemma InitialState()
    ensures Be32(INITIAL[0]) == [0x67, 0x45, 0x23, 0x01] && Be32(INITIAL[1]) == [0xEF, 0xCD, 0xAB, 0x89]
    ensures Be32(INITIAL[2]) == [0x98, 0xBA, 0xDC, 0xFE] && Be32(INITIAL[3]) == [0x10, 0x32, 0x54, 0x76]
    ensures Be32(INITIAL[4]) == [0xC3, 0xD2, 0xE1, 0xF0]
  {
  }

  lemma Be64Injective(m: int, n: int)
    requires 0 <= m < SIZE_LIMIT && 0 <= n < SIZE_LIMIT && Be64(m) == Be64(n)
    ensures m == n
  {
    var x, y := Be64(m), Be64(n);
    assert x[..4] == Be32(m / WORD_LIMIT) && x[4..] == Be32(m % WORD_LIMIT);
    assert y[..4] == Be32(n / WORD_LIMIT) && y[4..] == Be32(n % WORD_LIMIT);
    Be32RoundTrip(m / WORD_LIMIT);
    Be32RoundTrip(m % WORD_LIMIT);
    Be32RoundTrip(n / WORD_LIMIT);
    Be32RoundTrip(n % WORD_LIMIT);
  }

  /** Within the length FIPS 180-4 allows, padding loses nothing. */
  lemma PadInjective(x: seq<byte>, y: seq<byte>)
    requires 8 * |x| < SIZE_LIMIT && 8 * |y| < SIZE_LIMIT && Pad(x) == Pad(y)
    ensures x == y
  {
    hide Be64, Zeros, PadLength;
    var n := |Pad(x)| - 8;
    assert Pad(x)[n..] == Be64(8 * |x|) && Pad(y)[n..] == Be64(8 * |y|);
    Be64Injective(8 * |x|, 8 * |y|);
    assert Pad(x)[..|x|] == x && Pad(y)[..|y|] == y;
  }

  lemma {:induction false} FoldAppend(f: Transform, s: State, x: seq<byte>, y: seq<byte>)
    requires |x| % BLOCK == 0
    ensures Fold(f, s, x + y) == Fold(f, Fold(f, s, x), y)
    decreases |x|
  {
    if |x| < BLOCK {
      assert x + y == y;
    } else {
      assert (x + y)[..BLOCK] == x[..BLOCK] && (x + y)[BLOCK..] == x[BLOCK..] + y;
      FoldAppend(f, f(s, x[..BLOCK]), x[BLOCK..], y);
    }
  }

  lemma FoldBlock(f: Transform, s: State, x: seq<byte>, b: seq<byte>)
    requires |x| % BLOCK == 0 && |b| == BLOCK
    ensures Fold(f, s, x + b) == f(Fold(f, s, x), b)
  {
    FoldAppend(f, s, x, b);
    assert b[..BLOCK] == b && b[BLOCK..] == [];
  }

  // ----- the counter

  /** The two 32-bit words of a bit count, low word first. */
  predicate Counts(n: nat, low: uint32, high: uint32) {
    low == 8 * n % WORD_LIMIT && high == 8 * n / WORD_LIMIT % WORD_LIMIT
  }

  lemma CountStep(n: nat, low: uint32, high: uint32, len: uint32)
    requires Counts(n, low, high)
    ensures var low' := (low + len * 8 % WORD_LIMIT) % WORD_LIMIT;
            var carry := if low' < low then 1 else 0;
            Counts(n + len, low', ((high + carry) % WORD_LIMIT + len / 0x2000_0000) % WORD_LIMIT)
  {
    var q := 8 * n / WORD_LIMIT;
    var add, over := len * 8 % WORD_LIMIT, len / 0x2000_0000;
    assert len * 8 == over * WORD_LIMIT + add;
    var low' := (low + add) % WORD_LIMIT;
    var carry := if low' < low then 1 else 0;
    assert low + add == carry * WORD_LIMIT + low';
    assert 8 * (n + len) == (q + carry + over) * WORD_LIMIT + low';
    assert 8 * (n + len) / WORD_LIMIT == q + carry + over;
    ModAdd(q, carry, over);
  }

  lemma ModAdd(q: nat, a: nat, b: nat)
    ensures ((q % WORD_LIMIT + a) % WORD_LIMIT + b) % WORD_LIMIT == (q + a + b) % WORD_LIMIT
  {
    ModShift(q % WORD_LIMIT + a, q / WORD_LIMIT);
    var t := q + a;
    ModShift(t % WORD_LIMIT + b, t / WORD_LIMIT);
  }

  lemma ModShift(a: nat, k: nat)
    ensures (a + k * WORD_LIMIT) % WORD_LIMIT == a % WORD_LIMIT
  {
    assert a + k * WORD_LIMIT == (a / WORD_LIMIT + k) * WORD_LIMIT + a % WORD_LIMIT;
  }

  lemma CountPosition(n: nat, low: uint32, high: uint32)
    requires Counts(n, low, high)
    ensures low / 8 % BLOCK == n % BLOCK
  {
    var q := 8 * n / WORD_LIMIT;
    var r := n - q * 0x2000_0000;
    assert low == 8 * r;
    BlockUnique(n, r / BLOCK + q * 0x80_0000, r % BLOCK);
  }

  lemma CountBytes(n: nat, low: uint32, high: uint32)
    requires Counts(n, low, high)
    ensures Be32(high) + Be32(low) == Be64(8 * n % SIZE_LIMIT)
  {
    hide Be32;
    var t, q := 8 * n, 8 * n / WORD_LIMIT;
    var a, pair := q / WORD_LIMIT, high * WORD_LIMIT + low;
    assert t == q * WORD_LIMIT + low;
    assert q == a * WORD_LIMIT + high;
    Remainder(t, a, pair);
    assert pair / WORD_LIMIT == high && pair % WORD_LIMIT == low;
  }

  lemma Remainder(t: nat, a: nat, r: nat)
    requires t == a * SIZE_LIMIT + r && r < SIZE_LIMIT
    ensures t % SIZE_LIMIT == r
  {
  }

  /** (w >> ((3 - k) * 8)) & 255 */
  function Octet(w: uint32, k: nat): byte
    requires k < 4
  {
    if k == 0 then w / 0x100_0000
    else if k == 1 then w / 0x1_0000 % 0x100
    else if k == 2 then w / 0x100 % 0x100
    else w % 0x100
  }

  lemma OctetIs(w: uint32, k: nat)
    requires k < 4
    ensures Octet(w, k) == Be32(w)[k]
  {
    var h, l := w / 0x1_0000, w % 0x1_0000;
    var a, b, c, d := h / 0x100, h % 0x100, l / 0x100, l % 0x100;
    assert h == 0x100 * a + b && l == 0x100 * c + d && w == 0x1_0000 * h + l;
    TopOctet(w, a, 0x1_0000 * b + l);
    LowOctet(w, 0x100 * h + c, d);
    LowOctet(0x100 * h + c, h, c);
  }

  lemma TopOctet(x: nat, q: nat, r: nat)
    requires x == 0x100_0000 * q + r && r < 0x100_0000
    ensures x / 0x100_0000 == q
  {
  }

  lemma LowOctet(x: nat, q: nat, r: nat)
    requires x == 0x100 * q + r && r < 0x100
    ensures x / 0x100 == q && x % 0x100 == r
  {
  }

  lemma {:induction false} WordBytesAt(s: seq<uint32>, w: nat, k: nat)
    requires w < |s| && k < 4
    ensures WordBytes(s)[4 * w + k] == Octet(s[w], k)
  {
    hide Octet, Be32;
    assert WordBytes(s) == Be32(s[0]) + WordBytes(s[1..]);
    if w == 0 {
      OctetIs(s[0], k);
    } else {
      WordBytesAt(s[1..], w - 1, k);
      assert WordBytes(s)[4 * w + k] == WordBytes(s[1..])[4 * (w - 1) + k];
    }
  }

  // ----- the implementation

  class Context {
    const transform: Transform
    var state: State
    var count0: uint32
    var count1: uint32
    const buffer: array<byte>
    ghost var msg: seq<byte>  // everything absorbed so far

    ghost predicate Valid()
      reads this, buffer
    {
      buffer.Length == BLOCK && Counts(|msg|, count0, count1) && Absorbed()
    }

    /** Complete blocks have gone into the state, the rest of the message is in the buffer. */
    ghost predicate Absorbed()
      requires buffer.Length == BLOCK
      reads this`state, this`msg, buffer
    {
      var tail := |msg| % BLOCK;
      state == Fold(transform, INITIAL, msg[..|msg| - tail]) && buffer[..tail] == msg[|msg| - tail..]
    }

    constructor (f: Transform)
      ensures Valid() && fresh(buffer) && msg == [] && transform == f
    {
      transform := f;
      state := INITIAL;
      count0, count1, msg := 0, 0, [];
      buffer := new byte[BLOCK];
    }

    /** cs_sha1_update; the bound keeps j + len and i + 63 within 32 bits. */
    method Update(data: seq<byte>)
      requires Valid() && |data| <= WORD_LIMIT - BLOCK
      modifies this, buffer
      ensures Valid() && msg == old(msg) + data
    {
      hide Fold, Counts, Absorbed;
      var len: uint32 := |data|;
      CountStep(|msg|, count0, count1, len);
      CountPosition(|msg|, count0, count1);
      var j := AddToCount(len);
      Absorb(j / 8 % BLOCK, data);
    }

    /** Fills the buffer up, transforms every complete block, and buffers the remainder. */
    method Absorb(pos: nat, data: seq<byte>)
      requires buffer.Length == BLOCK && Absorbed() && pos == |msg| % BLOCK
      requires |data| <= WORD_LIMIT - BLOCK
      modifies this`state, this`msg, buffer
      ensures Absorbed() && msg == old(msg) + data
    {
      hide Fold;
      ghost var m, all := msg, msg + data;
      var i, j := AbsorbBlocks(pos, data);
      LastBlock(m, data, i, j);
      FillBuffer(j, data[i..]);
      msg := all;
      assert |m| - j + i == |all| - |all| % BLOCK;
    }

    /** Every block that data completes: i is what was taken of data, j what is left in the buffer. */
    method AbsorbBlocks(pos: nat, data: seq<byte>) returns (i: nat, j: nat)
      requires buffer.Length == BLOCK && Absorbed() && pos == |msg| % BLOCK
      requires |data| <= WORD_LIMIT - BLOCK
      modifies this`state, buffer
      ensures i <= |data| && j + |data| - i < BLOCK
      ensures if pos + |data| < BLOCK then i == 0 && j == pos else j == 0 && (|msg| + i) % BLOCK == 0
      ensures state == Fold(transform, INITIAL, (msg + data)[..|msg| - j + i]) && buffer[..j] == msg[|msg| - j..]
    {
      hide Fold;
      i, j := 0, pos;
      if j + |data| > 63 {
        i := BLOCK - j;
        AbsorbFirst(transform, msg, data);
        FillBuffer(j, data[..i]);
        assert buffer[..j + i] == buffer[..];
        state := transform(state, buffer[..]);
        i := TransformBlocks(i, data, msg);
        j := 0;
      } else {
        assert (msg + data)[..|msg| - j] == msg[..|msg| - j];
      }
    }

    /** The loop over the blocks that lie entirely inside data, from offset i on. */
    method TransformBlocks(start: nat, data: seq<byte>, ghost m: seq<byte>) returns (i: nat)
      requires start <= |data| <= WORD_LIMIT - BLOCK && (|m| + start) % BLOCK == 0
      requires state == Fold(transform, INITIAL, (m + data)[..|m| + start])
      modifies this`state
      ensures start <= i <= |data| < i + BLOCK && (|m| + i) % BLOCK == 0
      ensures state == Fold(transform, INITIAL, (m + data)[..|m| + i])
    {
      hide Fold;
      i := start;
      while i + 63 < |data|
        invariant start <= i <= |data| && (|m| + i) % BLOCK == 0
        invariant state == Fold(transform, INITIAL, (m + data)[..|m| + i])
      {
        AbsorbBlock(transform, m, data, i);
        state := transform(state, data[i..i + BLOCK]);
        i := i + BLOCK;
      }
    }

    method AddToCount(len: uint32) returns (j: uint32)
      modifies this`count0, this`count1
      ensures j == old(count0)
      ensures count0 == (old(count0) + len * 8 % WORD_LIMIT) % WORD_LIMIT
      ensures var carry := if count0 < old(count0) then 1 else 0;
              count1 == ((old(count1) + carry) % WORD_LIMIT + len / 0x2000_0000) % WORD_LIMIT
    {
      j := count0;
      count0 := (count0 + len * 8 % WORD_LIMIT) % WORD_LIMIT;
      if count0 < j {
        count1 := (count1 + 1) % WORD_LIMIT;
      }
      count1 := (count1 + len / 0x2000_0000) % WORD_LIMIT;
    }

    method FillBuffer(j: nat, data: seq<byte>)
      requires buffer.Length == BLOCK && j + |data| <= BLOCK
      modifies buffer
      ensures buffer[..j + |data|] == old(buffer[..j]) + data
    {
      hide Placed;
      ghost var m := buffer[..];
      CopyInto(buffer, j, data);
      PlacedOutside(m, j, data, 0, j);
      PlacedInside(m, j, data);
      assert buffer[..j + |data|] == buffer[..j] + buffer[j..j + |data|];
    }

    /** cs_sha1_final: the digest of everything absorbed; the context is wiped. */
    method Final() returns (digest: array<byte>)
      requires Valid()
      modifies this, buffer
      ensures fresh(digest) && digest[..] == Digest(transform, old(msg))
      ensures state == [0, 0, 0, 0, 0] && count0 == count1 == 0 && buffer[..] == Zeros(BLOCK)
    {
      hide Fold, Counts, Pad, PadLength, Octet, Be64, Zeros, Digest;
      ghost var m := msg;
      var finalCount := FinalCount();
      AppendPadding();
      Update(finalCount);
      PadIs(m, msg);
      StateIs();
      digest := new byte[20];
      for i := 0 to 20
        modifies digest
        invariant forall k :: 0 <= k < i ==> digest[k] == Octet(state[k / 4], k % 4)
      {
        digest[i] := Octet(state[i / 4], i % 4);
      }
      DigestIs(digest[..], transform, m, state);
      Wipe();
    }

    /** The one bit and the zero bits, one octet at a time. */
    method AppendPadding()
      requires Valid()
      modifies this, buffer
      ensures Valid() && msg == old(msg) + [0x80] + Zeros(PadLength(|old(msg)|))
    {
      hide Valid, Fold, PadLength, Zeros;
      ghost var m := msg;
      var c: seq<byte> := [0x80];
      Update(c);
      ghost var zeros: nat := 0;
      assert m + [0x80] + Zeros(0) == m + [0x80];
      Position();
      while count0 / 8 % BLOCK * 8 != 448  // (count[0] & 504) != 448
        invariant Valid() && zeros <= PadLength(|m|)
        invariant msg == m + [0x80] + Zeros(zeros)
        invariant count0 / 8 % BLOCK == (|m| + 1 + zeros) % BLOCK
        decreases PadLength(|m|) - zeros
      {
        PadPosition(|m|, zeros);
        c := [0];
        OneMoreZero(m + [0x80], zeros);
        Update(c);
        zeros := zeros + 1;
        Position();
      }
      PadPosition(|m|, zeros);
    }

    lemma Position()
      requires Valid()
      ensures count0 / 8 % BLOCK == |msg| % BLOCK
    {
      CountPosition(|msg|, count0, count1);
    }

    lemma StateIs()
      requires Valid()
      ensures state == Fold(transform, INITIAL, msg[..|msg| - |msg| % BLOCK])
    {
    }

    /** memset of the context. */
    method Wipe()
      requires buffer.Length == BLOCK
      modifies this, buffer
      ensures state == [0, 0, 0, 0, 0] && count0 == count1 == 0 && buffer[..] == Zeros(BLOCK)
    {
      hide Zeros;
      state, count0, count1, msg := [0, 0, 0, 0, 0], 0, 0, [];
      ClearRange(buffer, 0, BLOCK);
      PlacedInside(old(buffer[..]), 0, Zeros(BLOCK));
      assert buffer[..] == buffer[0..BLOCK];
    }

    method FinalCount() returns (finalCount: seq<byte>)
      requires Valid()
      ensures finalCount == Be64(8 * |msg| % SIZE_LIMIT)
    {
      hide Fold, Counts, Octet, Be64;
      finalCount := [];
      for i := 0 to 8
        invariant |finalCount| == i
        invariant forall k :: 0 <= k < i ==> finalCount[k] == Octet(if k >= 4 then count0 else count1, k % 4)
      {
        finalCount := finalCount + [Octet(if i >= 4 then count0 else count1, i % 4)];
      }
      FinalCountIs(finalCount, |msg|, count0, count1);
    }
  }

  lemma AbsorbFirst(f: Transform, m: seq<byte>, data: seq<byte>)
    requires |m| % BLOCK + |data| >= BLOCK
    ensures var j := |m| % BLOCK;
            var i := BLOCK - j;
            (|m| + i) % BLOCK == 0 &&
            f(Fold(f, INITIAL, m[..|m| - j]), m[|m| - j..] + data[..i]) == Fold(f, INITIAL, (m + data)[..|m| + i])
  {
    hide Fold;
    var j := |m| % BLOCK;
    FoldBlock(f, INITIAL, m[..|m| - j], m[|m| - j..] + data[..BLOCK - j]);
    assert (m + data)[..|m| + BLOCK - j] == m[..|m| - j] + (m[|m| - j..] + data[..BLOCK - j]);
  }

  lemma AbsorbBlock(f: Transform, m: seq<byte>, data: seq<byte>, i: nat)
    requires i + BLOCK <= |data| && (|m| + i) % BLOCK == 0
    ensures var all, b := m + data, data[i..i + BLOCK];
            f(Fold(f, INITIAL, all[..|m| + i]), b) == Fold(f, INITIAL, all[..|m| + i + BLOCK])
  {
    hide Fold;
    var all, b := m + data, data[i..i + BLOCK];
    FoldBlock(f, INITIAL, all[..|m| + i], b);
    assert all[..|m| + i + BLOCK] == all[..|m| + i] + b;
  }

  /** What stays in the buffer when the blocks up to offset i of data have been transformed. */
  lemma LastBlock(m: seq<byte>, data: seq<byte>, i: nat, j: nat)
    requires i <= |data|
    requires (i == 0 && j == |m| % BLOCK && j + |data| < BLOCK)
          || (j == 0 && (|m| + i) % BLOCK == 0 && |data| < i + BLOCK)
    ensures var all := m + data;
            var tail := |all| % BLOCK;
            tail == j + |data| - i && all[|all| - tail..] == m[|m| - j..] + data[i..]
  {
    var r := j + |data| - i;
    if j > 0 {
      WholeBlocks(|m|);
    }
    Residue(|m| + i - j, r);
    assert |m + data| == (|m| + i - j) + r;
    EndOf(m, data, i, j);
  }

  lemma WholeBlocks(n: nat)
    ensures (n - n % BLOCK) % BLOCK == 0 && n % BLOCK <= n
  {
  }

  lemma EndOf(m: seq<byte>, data: seq<byte>, i: nat, j: nat)
    requires i <= |data| && j <= |m| && (i == 0 || j == 0)
    ensures (m + data)[|m| + i - j..] == m[|m| - j..] + data[i..]
  {
  }

  lemma Residue(a: nat, r: nat)
    requires a % BLOCK == 0 && r < BLOCK
    ensures (a + r) % BLOCK == r
  {
    BlockUnique(a + r, a / BLOCK, r);
  }

  lemma OneMoreZero(s: seq<byte>, n: nat)
    ensures s + Zeros(n) + [0] == s + Zeros(n + 1)
  {
  }

  lemma PadPosition(n: nat, zeros: nat)
    requires zeros <= PadLength(n)
    ensures (n + 1 + zeros) % BLOCK == 56 <==> zeros == PadLength(n)
  {
    hide PadLength;
    var gap := PadLength(n) - zeros;
    var x := n + 1 + zeros;
    if x % BLOCK == 56 && gap > 0 {
      PositionMoves(x, gap);
    }
  }

  lemma PositionMoves(x: nat, gap: nat)
    requires x % BLOCK == 56 && 0 < gap < BLOCK
    ensures (x + gap) % BLOCK != 56
  {
    if gap < 8 {
      BlockUnique(x + gap, x / BLOCK, 56 + gap);
    } else {
      BlockUnique(x + gap, x / BLOCK + 1, gap - 8);
    }
  }

  lemma PadIs(m: seq<byte>, p: seq<byte>)
    requires p == m + [0x80] + Zeros(PadLength(|m|)) + Be64(8 * |m| % SIZE_LIMIT)
    ensures p == Pad(m) && p[..|p| - |p| % BLOCK] == p
  {
    PadFillsBlocks(m);
  }

  lemma DigestIs(s: seq<byte>, f: Transform, m: seq<byte>, st: State)
    requires |s| == 20 && forall k :: 0 <= k < 20 ==> s[k] == Octet(st[k / 4], k % 4)
    requires st == Fold(f, INITIAL, Pad(m))
    ensures s == Digest(f, m)
  {
    hide Octet, Fold, Pad, WordBytes;
    var r := Digest(f, m);
    forall k | 0 <= k < 20 ensures s[k] == r[k] {
      WordBytesAt(st, k / 4, k % 4);
    }
  }

  lemma FinalCountIs(s: seq<byte>, n: nat, low: uint32, high: uint32)
    requires |s| == 8 && forall k :: 0 <= k < 8 ==> s[k] == Octet(if k >= 4 then low else high, k % 4)
    requires Counts(n, low, high)
    ensures s == Be64(8 * n % SIZE_LIMIT)
  {
    hide Octet, Be32;
    CountBytes(n, low, high);
    forall k | 0 <= k < 8 ensures s[k] == (Be32(high) + Be32(low))[k] {
      OctetIs(if k >= 4 then low else high, k % 4);
    }
  }

  /** mg_hash_sha1_v: however a message is cut into parts, the digest is that of the whole. */
  method HashParts(f: Transform, msgs: seq<seq<byte>>) returns (digest: array<byte>)
    requires forall k :: 0 <= k < |msgs| ==> |msgs[k]| <= WORD_LIMIT - BLOCK
    ensures fresh(digest) && digest[..] == Digest(f, Concat(msgs))
  {
    assert msgs[..0] == [] && Concat<byte>([]) == [];
    hide *;
    var ctx := new Context(f);
    for i := 0 to |msgs|
      invariant ctx.Valid() && ctx.transform == f && fresh(ctx) && fresh(ctx.buffer)
      invariant ctx.msg == Concat(msgs[..i])
    {
      assert msgs[..i + 1] == msgs[..i] + [msgs[i]];
      ConcatAppend(msgs[..i], msgs[i]);
      ctx.Update(msgs[i]);
    }
    assert msgs[..|msgs|] == msgs;
    digest := ctx.Final();
  }
}
