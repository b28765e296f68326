/** Octets, network byte order, and the library block moves the codecs rely on. */
module Bytes {

  type byte = b: int | 0 <= b < 0x100
  type uint16 = n: int | 0 <= n < 0x1_0000
  type uint32 = n: int | 0 <= n < 0x1_0000_0000

  /** One past the largest size_t of the 64-bit target. */
  const SIZE_LIMIT: int := 0x1_0000_0000_0000_0000

  function Be16(n: uint16): (r: seq<byte>)
    ensures |r| == 2
  {
    [n / 0x100, n % 0x100]
  }

  function Get16(hi: byte, lo: byte): uint16 {
    hi * 0x100 + lo
  }

  function Be32(n: uint32): (r: seq<byte>)
    ensures |r| == 4
  {
    Be16(n / 0x1_0000) + Be16(n % 0x1_0000)
  }

  function Get32(s: seq<byte>): uint32
    requires |s| == 4
  {
    Get16(s[0], s[1]) * 0x1_0000 + Get16(s[2], s[3])
  }

  /** The number that octets stand for in network byte order: the most significant first. */
  function Number(s: seq<byte>): nat {
    if s == [] then 0 else Number(s[..|s| - 1]) * 0x100 + s[|s| - 1]
  }

  lemma Number2(s: seq<byte>)
    requires |s| == 2
    ensures Number(s) == (s[0] as int) * 0x100 + s[1]
  {
    assert s[..1][..0] == [] && Number(s[..1]) == Number(s[..1][..0]) * 0x100 + s[0];
  }

  /** Two octets and their number. */
  lemma BigEndian16(n: uint16, hi: byte, lo: byte)
    ensures Number(Be16(n)) == n && Number([hi, lo]) == Get16(hi, lo)
  {
    Number2(Be16(n));
    Number2([hi, lo]);
  }

  /** And four. */
  lemma BigEndian32(n: uint32, s: seq<byte>)
    requires |s| == 4
    ensures Number(Be32(n)) == n && Number(s) == Get32(s)
  {
    Number4(Be32(n));
    Number4(s);
  }

  lemma Number4(s: seq<byte>)
    requires |s| == 4
    ensures Number(s) == ((s[0] as int) * 0x100 + s[1]) * 0x1_0000 + (s[2] as int) * 0x100 + s[3]
  {
    hide Number;
    Number2(s[..2]);
    NumberStep(s[..3]);
    NumberStep(s);
    assert s[..3][..2] == s[..2] && s[..4] == s;
  }

  lemma NumberStep(s: seq<byte>)
    requires s != []
    ensures Number(s) == Number(s[..|s| - 1]) * 0x100 + s[|s| - 1]
  {
  }

  /** Eight octets are four and four. */
  lemma BigEndian64(s: seq<byte>)
    requires |s| == 8
    ensures Number(s) == Number(s[..4]) * 0x1_0000_0000 + Number(s[4..])
  {
    hide Number;
    var y := s[4..];
    Number4(y);
    NumberStep(s);
    NumberStep(s[..7]);
    NumberStep(s[..6]);
    NumberStep(s[..5]);
    assert s[..7][..6] == s[..6] && s[..6][..5] == s[..5] && s[..5][..4] == s[..4];
  }

  lemma Be16RoundTrip(n: uint16)
    ensures Get16(Be16(n)[0], Be16(n)[1]) == n
  {
  }

  lemma Get16RoundTrip(hi: byte, lo: byte)
    ensures Be16(Get16(hi, lo)) == [hi, lo]
  {
  }

  lemma Be32RoundTrip(n: uint32)
    ensures Get32(Be32(n)) == n
  {
  }

  lemma SliceOfSlice<T>(s: seq<T>, lo: nat, hi: nat, i: nat, j: nat)
    requires i <= j && lo + j <= hi <= |s|
    ensures s[lo..hi][i..j] == s[lo + i..lo + j]
  {
    var x, y := s[lo..hi][i..j], s[lo + i..lo + j];
    assert |x| == |y|;
    forall k | 0 <= k < |x| ensures x[k] == y[k] {
      assert x[k] == s[lo..hi][i + k] == s[lo + (i + k)];
    }
  }

  lemma Regroup<T>(a: seq<T>, b: seq<T>, c: seq<T>, d: seq<T>)
    ensures a + b + c + d == a + (b + (c + d))
  {
  }

  lemma Sections<T>(s: seq<T>, i: nat, j: nat, k: nat)
    requires i <= j <= k <= |s|
    ensures s[..i] + s[i..j] + s[j..k] == s[..k]
  {
  }

  // ----- memory after a block has been stored

  /** m with data stored at dst. */
  function Placed<T>(m: seq<T>, dst: nat, data: seq<T>): (r: seq<T>)
    requires dst + |data| <= |m|
    ensures |r| == |m|
  {
    m[..dst] + data + m[dst + |data|..]
  }

  lemma PlacedInside<T>(m: seq<T>, dst: nat, data: seq<T>)
    requires dst + |data| <= |m|
    ensures Placed(m, dst, data)[dst..dst + |data|] == data
  {
  }

  lemma PlacedOutside<T>(m: seq<T>, dst: nat, data: seq<T>, i: nat, j: nat)
    requires dst + |data| <= |m| && i <= j <= |m|
    requires j <= dst || dst + |data| <= i
    ensures Placed(m, dst, data)[i..j] == m[i..j]
  {
    var r := Placed(m, dst, data);
    forall k | i <= k < j ensures r[k] == m[k] {
      if k >= dst + |data| {
        assert r[k] == m[dst + |data|..][k - (dst + |data|)];
      }
    }
    assert |r[i..j]| == |m[i..j]|;
    forall k | 0 <= k < j - i ensures r[i..j][k] == m[i..j][k] {
      assert r[i + k] == m[i + k];
    }
  }

  /** memmove inside one array: the target gets the bytes the source held before the call. */
  method MoveWithin<T>(a: array<T>, dst: nat, src: nat, n: nat)
    requires dst + n <= a.Length && src + n <= a.Length
    modifies a
    ensures a[..] == Placed(old(a[..]), dst, old(a[src..src + n]))
  {
    forall k | 0 <= k < n {
      a[dst + k] := a[src + k];
    }
  }

  /** memcpy of a block of bytes into an array. */
  method CopyInto<T>(a: array<T>, dst: nat, data: seq<T>)
    requires dst + |data| <= a.Length
    modifies a
    ensures a[..] == Placed(old(a[..]), dst, data)
  {
    forall k | 0 <= k < |data| {
      a[dst + k] := data[k];
    }
  }

  function Zeros(n: nat): (r: seq<byte>)
    ensures |r| == n
  {
    seq(n, _ => 0)
  }

  /** memset to zero. */
  method ClearRange(a: array<byte>, from: nat, n: nat)
    requires from + n <= a.Length
    modifies a
    ensures a[..] == Placed(old(a[..]), from, Zeros(n))
  {
    forall k | 0 <= k < n {
      a[from + k] := 0;
    }
  }

  /** Stores data at a cursor and moves the cursor behind it. */
  method Put<T>(a: array<T>, ptr: nat, data: seq<T>) returns (next: nat)
    requires ptr + |data| <= a.Length
    modifies a
    ensures next == ptr + |data| && a[..next] == old(a[..ptr]) + data
  {
    hide Placed;
    ghost var m := a[..];
    CopyInto(a, ptr, data);
    PlacedOutside(m, ptr, data, 0, ptr);
    PlacedInside(m, ptr, data);
    next := ptr + |data|;
    assert a[..next] == a[..ptr] + a[ptr..next];
  }
}
