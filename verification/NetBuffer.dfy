/**
 The network buffer (net/Buffer.h, net/Buffer.cc): an array with a read and a write index, 8 spare bytes in front.
 Every operation is proved against the byte sequence between the indexes.
 */
module NetBuffer {
  import opened Bytes
  import opened Endian

  const CHEAP_PREPEND: nat := 8
  const INITIAL_SIZE: nat := 1024
  const EXTRA: nat := 65536

  class Buffer {
    var data: array<byte>
    var readerIndex: nat
    var writerIndex: nat

    ghost predicate Valid()
      reads this
    {
      readerIndex <= writerIndex <= data.Length && CHEAP_PREPEND <= data.Length
    }

    /** The readable bytes. */
    ghost function Contents(): (s: bytes)
      requires Valid()
      reads this, data
    {
      data[readerIndex..writerIndex]
    }

    constructor (initialSize: nat)
      ensures Valid() && Contents() == [] && fresh(data)
      ensures readerIndex == CHEAP_PREPEND && data.Length - writerIndex == initialSize
    {
      data := new byte[CHEAP_PREPEND + initialSize](_ => 0);
      readerIndex, writerIndex := CHEAP_PREPEND, CHEAP_PREPEND;
    }

    method ReadableBytes() returns (n: nat)
      requires Valid()
      ensures n == |Contents()|
    {
      n := writerIndex - readerIndex;
    }

    /** Bytes read through peek(). */
    method Peek(offset: nat, len: nat) returns (s: bytes)
      requires Valid() && offset + len <= |Contents()|
      ensures s == Contents()[offset..offset + len]
    {
      s := data[readerIndex + offset..readerIndex + offset + len];
      ghost var c := Contents();
      assert forall i :: 0 <= i < len ==> s[i] == c[offset + i];
    }

    method RetrieveAll()
      requires Valid()
      modifies this`readerIndex, this`writerIndex
      ensures Valid() && Contents() == []
      ensures readerIndex == CHEAP_PREPEND == writerIndex
    {
      readerIndex, writerIndex := CHEAP_PREPEND, CHEAP_PREPEND;
    }

    /** retrieve: drops bytes from the front; an emptied buffer starts over. */
    method Retrieve(len: nat)
      requires Valid() && len <= |Contents()|
      modifies this`readerIndex, this`writerIndex
      ensures Valid() && Contents() == old(Contents())[len..]
      ensures len == |old(Contents())| ==> readerIndex == CHEAP_PREPEND
    {
      if len < writerIndex - readerIndex {
        readerIndex := readerIndex + len;
      } else {
        RetrieveAll();
      }
    }

    method RetrieveAsString(len: nat) returns (s: bytes)
      requires Valid() && len <= |Contents()|
      modifies this`readerIndex, this`writerIndex
      ensures Valid() && s == old(Contents())[..len] && Contents() == old(Contents())[len..]
    {
      s := Peek(0, len);
      Retrieve(len);
    }

    method Unwrite(len: nat)
      requires Valid() && len <= |Contents()|
      modifies this`writerIndex
      ensures Valid() && Contents() == old(Contents())[..|old(Contents())| - len]
    {
      writerIndex := writerIndex - len;
    }

    /** vector::resize to a larger size */
    method Resize(size: nat)
      requires Valid() && data.Length <= size
      modifies this`data
      ensures Valid() && fresh(data) && data.Length == size && Contents() == old(Contents())
    {
      var old_ := data;
      var bigger := new byte[size](_ => 0);
      var i := 0;
      while i < old_.Length
        invariant 0 <= i <= old_.Length && data == old_
        invariant bigger[..i] == old_[..i]
      {
        bigger[i] := old_[i];
        i := i + 1;
      }
      assert forall k :: 0 <= k < old_.Length ==> bigger[k] == bigger[..old_.Length][k] == old_[k];
      assert bigger[readerIndex..writerIndex] == old_[readerIndex..writerIndex];
      data := bigger;
    }

    /** The overlapping forward copy of makeSpace: the target lies before the source. */
    method MoveToFront()
      requires Valid() && CHEAP_PREPEND < readerIndex
      modifies this`readerIndex, this`writerIndex, data
      ensures Valid() && Contents() == old(Contents()) && readerIndex == CHEAP_PREPEND
    {
      ghost var was := Contents();
      var readable := writerIndex - readerIndex;
      var i := 0;
      while i < readable
        invariant 0 <= i <= readable
        invariant readerIndex == old(readerIndex) && writerIndex == old(writerIndex)
        invariant forall k :: CHEAP_PREPEND <= k < CHEAP_PREPEND + i ==> data[k] == was[k - CHEAP_PREPEND]
        invariant forall k :: readerIndex + i <= k < writerIndex ==> data[k] == was[k - readerIndex]
      {
        data[CHEAP_PREPEND + i] := data[readerIndex + i];
        i := i + 1;
      }
      readerIndex := CHEAP_PREPEND;
      writerIndex := readerIndex + readable;
    }

    /** makeSpace; the assertion that the bytes move forward holds. */
    method MakeSpace(len: nat)
      requires Valid() && data.Length - writerIndex < len
      modifies this, data
      ensures Valid() && Contents() == old(Contents()) && data.Length - writerIndex >= len
      ensures old(data.Length - writerIndex + readerIndex) >= len + CHEAP_PREPEND ==> data == old(data)
      ensures data == old(data) || fresh(data)
      ensures data.Length >= old(data.Length)
    {
      if data.Length - writerIndex + readerIndex < len + CHEAP_PREPEND {
        Resize(writerIndex + len);
      } else {
        assert CHEAP_PREPEND < readerIndex;
        MoveToFront();
      }
    }

    method EnsureWritableBytes(len: nat)
      requires Valid()
      modifies this, data
      ensures Valid() && Contents() == old(Contents()) && data.Length - writerIndex >= len
      ensures data == old(data) || fresh(data)
      ensures data.Length >= old(data.Length)
      ensures old(data.Length - writerIndex) >= len ==> data == old(data) && writerIndex == old(writerIndex)
    {
      if data.Length - writerIndex < len {
        MakeSpace(len);
      }
    }

    /** A copy into the writable part followed by hasWritten. */
    method WriteTail(input: bytes)
      requires Valid() && |input| <= data.Length - writerIndex
      modifies this`writerIndex, data
      ensures Valid() && Contents() == old(Contents()) + input && writerIndex == old(writerIndex) + |input|
    {
      ghost var all := data[..];
      CopyIn(data, writerIndex, input);
      assert data[readerIndex..writerIndex + |input|] == data[..][readerIndex..writerIndex + |input|];
      assert data[..][readerIndex..writerIndex + |input|] == all[readerIndex..writerIndex] + input;
      writerIndex := writerIndex + |input|;
    }

    method Append(input: bytes)
      requires Valid()
      modifies this, data
      ensures Valid() && Contents() == old(Contents()) + input
      ensures data == old(data) || fresh(data)
      ensures data.Length >= old(data.Length)
      ensures old(data.Length - writerIndex) >= |input| ==>
        data == old(data) && writerIndex == old(writerIndex) + |input|
    {
      EnsureWritableBytes(|input|);
      WriteTail(input);
    }

    method Prepend(input: bytes)
      requires Valid() && |input| <= readerIndex
      modifies this`readerIndex, data
      ensures Valid() && Contents() == input + old(Contents())
    {
      ghost var all := data[..];
      readerIndex := readerIndex - |input|;
      CopyIn(data, readerIndex, input);
      assert data[readerIndex..writerIndex] == data[..][readerIndex..writerIndex];
      assert data[..][readerIndex..writerIndex] == input + all[readerIndex + |input|..writerIndex];
    }

    /**
     readFd: the kernel fills the writable part first, then the extra buffer, which is appended.
     `incoming` is what readv delivered, None when it failed.
     */
    method ReadFd(incoming: Option<bytes>) returns (n: int)
      requires Valid()
      requires incoming.Some? ==>
        |incoming.value| <= data.Length - writerIndex + (if data.Length - writerIndex < EXTRA then EXTRA else 0)
      modifies this, data
      ensures Valid() && Contents() == old(Contents()) + (if incoming.Some? then incoming.value else [])
      ensures n == if incoming.Some? then |incoming.value| else -1
      ensures data == old(data) || fresh(data)
    {
      if incoming.None? { return -1; }
      var input := incoming.value;
      var writable := data.Length - writerIndex;
      if |input| <= writable {
        WriteTail(input);
      } else {
        WriteTail(input[..writable]);
        Append(input[writable..]);
        assert input == input[..writable] + input[writable..];
      }
      n := |input|;
    }

    /**
     shrink: a fresh buffer with room for the reserve receives the contents, whose length passes through an int; a
     negative one fails in the fresh buffer and leaves this one alone.
     */
    method Shrink(reserve: nat) returns (ok: bool)
      requires Valid()
      modifies this
      ensures Valid() && ok == (Wrap32(|old(Contents())|) >= 0)
      ensures ok ==> Contents() == old(Contents())[..Wrap32(|old(Contents())|)] && fresh(data)
      ensures ok ==> data.Length - writerIndex >= reserve
      ensures !ok ==> data == old(data) && readerIndex == old(readerIndex) && writerIndex == old(writerIndex)
      ensures |old(Contents())| < 0x8000_0000 ==> ok && Contents() == old(Contents())
    {
      var readable := writerIndex - readerIndex;
      var length := Wrap32(readable);
      if length < 0 { return false; }
      assert length <= readable;
      var s := Peek(0, length);
      var other := new Buffer(INITIAL_SIZE);
      other.EnsureWritableBytes(readable + reserve);
      other.Append(s);
      data, readerIndex, writerIndex := other.data, other.readerIndex, other.writerIndex;
      ok := true;
    }

    /** appendInt8 .. appendInt64: network order */
    method AppendInt(x: int, w: nat)
      requires Valid() && FitsSigned(x, w)
      modifies this, data
      ensures Valid() && Contents() == old(Contents()) + Big(ToUnsigned(x, w), w)
      ensures data == old(data) || fresh(data)
    {
      Append(Big(ToUnsigned(x, w), w));
    }

    method PrependInt(x: int, w: nat)
      requires Valid() && FitsSigned(x, w) && w <= readerIndex
      modifies this`readerIndex, data
      ensures Valid() && Contents() == Big(ToUnsigned(x, w), w) + old(Contents())
    {
      Prepend(Big(ToUnsigned(x, w), w));
    }

    /** peekInt8 .. peekInt64 */
    method PeekInt(w: nat) returns (x: int)
      requires Valid() && w <= |Contents()|
      ensures x == ToSigned(BigValue(Contents()[..w]), w)
    {
      var s := Peek(0, w);
      x := ToSigned(BigValue(s), w);
    }

    method ReadInt(w: nat) returns (x: int)
      requires Valid() && w <= |Contents()|
      modifies this`readerIndex, this`writerIndex
      ensures Valid() && x == ToSigned(BigValue(old(Contents())[..w]), w) && Contents() == old(Contents())[w..]
    {
      x := PeekInt(w);
      Retrieve(w);
    }
  }

  /** An integer put at the front or the back is read back, whatever its width and sign. */
  lemma IntReadsBack(x: int, w: nat, rest: bytes)
    requires FitsSigned(x, w)
    ensures var s := Big(ToUnsigned(x, w), w) + rest; ToSigned(BigValue(s[..w]), w) == x && s[w..] == rest
  {
    var s := Big(ToUnsigned(x, w), w) + rest;
    assert s[..w] == Big(ToUnsigned(x, w), w);
    BigValueOfBig(ToUnsigned(x, w), w);
    SignedOfUnsigned(x, w);
  }
}
