/** The growable byte buffer every codec reads from or appends to. */
module MbufModel {
  import opened Bytes

  /** realloc: the first n bytes survive the move. */
  method CopyPrefix(p: array<byte>, a: array<byte>, n: nat)
    requires p != a && n <= p.Length && n <= a.Length
    modifies p
    ensures p[..n] == a[..n]
  {
    forall k | 0 <= k < n {
      p[k] := a[k];
    }
  }

  class Mbuf {
    var buf: array<byte>
    var len: nat

    ghost predicate Valid()
      reads this
    {
      len <= buf.Length
    }

    /** The bytes in use; capacity beyond len is not observable. */
    ghost function Contents(): (s: seq<byte>)
      requires Valid()
      reads this, buf
    {
      buf[..len]
    }

    constructor (initialSize: nat)
      ensures Valid() && fresh(buf) && len == 0 && buf.Length == initialSize
    {
      buf := new byte[initialSize];
      len := 0;
    }

    /** Reallocates unless that would drop bytes in use. */
    method Resize(newSize: nat)
      requires Valid()
      modifies this
      ensures Valid() && (buf == old(buf) || fresh(buf)) && len == old(len)
      ensures Contents() == old(Contents())
      ensures buf.Length == if newSize >= len then newSize else old(buf.Length)
    {
      if newSize > buf.Length || (newSize < buf.Length && newSize >= len) {
        var p := new byte[newSize];
        CopyPrefix(p, buf, len);
        buf := p;
      }
    }

    /** Makes room for n more bytes, by half more than needed when it has to reallocate. */
    method Reserve(n: nat)
      requires Valid()
      modifies this
      ensures (buf == old(buf) || fresh(buf)) && len == old(len) && len + n <= buf.Length
      ensures buf[..len] == old(buf[..len])
    {
      if len + n > buf.Length {
        var p := new byte[(len + n) * 3 / 2];
        CopyPrefix(p, buf, len);
        buf := p;
      }
    }

    /** Opens a gap of n bytes at off; what the gap holds is unspecified. */
    method InsertGap(off: nat, n: nat)
      requires Valid() && off <= len
      modifies this, buf
      ensures Valid() && (buf == old(buf) || fresh(buf))
      ensures len == old(len) + n
      ensures buf[..off] == old(buf[..off]) && buf[off + n..len] == old(buf[off..len])
    {
      hide Placed;
      ghost var was := buf[..len];
      Reserve(n);
      ghost var m := buf[..];
      SliceOfSlice(m, 0, len, 0, off);
      SliceOfSlice(m, 0, len, off, len);
      MoveWithin(buf, off + n, off, len - off);
      PlacedInside(m, off + n, m[off..len]);
      PlacedOutside(m, off + n, m[off..len], 0, off);
      len := len + n;
    }

    method Insert(off: nat, data: seq<byte>)
      requires Valid() && off <= len
      modifies this, buf
      ensures Valid() && (buf == old(buf) || fresh(buf))
      ensures Contents() == old(Contents()[..off]) + data + old(Contents()[off..])
    {
      hide Placed;
      ghost var head, tail := Contents()[..off], Contents()[off..];
      SliceOfSlice(buf[..], 0, len, 0, off);
      SliceOfSlice(buf[..], 0, len, off, len);
      InsertGap(off, |data|);
      ghost var m, mid := buf[..], off + |data|;
      assert m[..off] == head && m[mid..len] == tail;
      CopyInto(buf, off, data);
      PlacedInside(m, off, data);
      PlacedOutside(m, off, data, 0, off);
      PlacedOutside(m, off, data, mid, len);
      Sections(buf[..], off, mid, len);
    }

    method Append(data: seq<byte>)
      requires Valid()
      modifies this, buf
      ensures Valid() && (buf == old(buf) || fresh(buf))
      ensures Contents() == old(Contents()) + data
    {
      ghost var was := Contents();
      Insert(len, data);
      assert was[..|was|] == was && was[|was|..] == [];
      assert was + data + [] == was + data;
    }

    /** Drops n bytes from the front; asking for more than there are does nothing. */
    method Remove(n: nat)
      requires Valid()
      modifies this, buf
      ensures Valid() && buf == old(buf)
      ensures Contents() == if n <= old(len) then old(Contents())[n..] else old(Contents())
    {
      hide Placed;
      if n > 0 && n <= len {
        ghost var m := buf[..];
        SliceOfSlice(m, 0, len, n, len);
        MoveWithin(buf, 0, n, len - n);
        PlacedInside(m, 0, m[n..len]);
        len := len - n;
      }
    }
  }
}
