/**
  The auto-expandable byte buffer: one array and two cursors. Bytes are modelled as
  characters. The bytes between the cursors are readable; those after the writing cursor are
  writable; those before the reading cursor are reclaimed by moving the readable ones to the front.
 */
module Buffers {

  const CRLF: string := "\r\n"

  lemma TwoParts(before: string, data: string, n: nat)
    requires n <= |data|
    ensures before + data[..n] + data[n..] == before + data
  {
    assert data == data[..n] + data[n..];
  }

  class Buffer {
    var buf: array<char>
    var readPos: nat
    var writePos: nat

    // Everything that has ever been written to the buffer and retrieved from it.
    ghost var written: string
    ghost var retrieved: string

    ghost predicate Valid()
      reads this, buf
    {
      readPos <= writePos <= buf.Length && written == retrieved + buf[readPos..writePos]
    }

    ghost function Contents(): string
      reads this, buf
      requires Valid()
    {
      buf[readPos..writePos]
    }

    constructor (size: nat)
      ensures Valid() && fresh(buf) && Contents() == [] && buf.Length == size
    {
      buf := new char[size](_ => '\0');
      readPos, writePos := 0, 0;
      written, retrieved := [], [];
    }

    constructor FromString(str: string)
      ensures Valid() && fresh(buf) && Contents() == str
    {
      buf := new char[0];
      readPos, writePos := 0, 0;
      written, retrieved := [], [];
      new;
      Append(str);
    }

    function WritableSize(): nat
      reads this, buf
      requires Valid()
    {
      buf.Length - writePos
    }

    function ReadableSize(): nat
      reads this, buf
      requires Valid()
    {
      writePos - readPos
    }

    function PrependableSize(): nat
      reads this
    {
      readPos
    }

    predicate Empty()
      reads this, buf
      requires Valid()
    {
      ReadableSize() == 0
    }

    // Grow the array, or move the readable bytes to its front, to have `size` writable bytes.
    method MakeSpace(size: nat)
      requires Valid() && WritableSize() < size
      modifies this, buf
      ensures Valid() && (buf == old(buf) || fresh(buf))
      ensures WritableSize() >= size
      ensures Contents() == old(Contents())
      ensures written == old(written) && retrieved == old(retrieved)
    {
      if WritableSize() + PrependableSize() < size {
        var oldBuf := buf;
        buf := new char[writePos + size](i requires 0 <= i reads this, oldBuf =>
          if i < oldBuf.Length then oldBuf[i] else '\0');
        assert buf[..oldBuf.Length] == oldBuf[..];
        assert buf[readPos..writePos] == oldBuf[readPos..writePos];
      } else {
        var readableSize := ReadableSize();
        CopyForward(readableSize);
        readPos := 0;
        writePos := readableSize;
      }
    }

    // The overlapping copy of the readable bytes to the front; ascending order is sound as the target comes first.
    method CopyForward(size: nat)
      requires readPos + size <= buf.Length && readPos > 0
      modifies buf
      ensures buf[..size] == old(buf[readPos..readPos + size])
    {
      for i := 0 to size
        invariant forall k :: 0 <= k < i ==> buf[k] == old(buf[readPos + k])
        invariant forall k :: i <= k < buf.Length ==> buf[k] == old(buf[k])
      {
        buf[i] := buf[readPos + i];
      }
    }

    method EnsureWriteableSize(size: nat)
      requires Valid()
      modifies this, buf
      ensures Valid() && (buf == old(buf) || fresh(buf))
      ensures WritableSize() >= size
      ensures Contents() == old(Contents())
      ensures written == old(written) && retrieved == old(retrieved)
    {
      if WritableSize() < size {
        MakeSpace(size);
      }
    }

    // The bytes just after the writing cursor become readable.
    method HasWritten(size: nat)
      requires Valid() && size <= WritableSize()
      modifies this
      ensures Valid() && buf == old(buf)
      ensures Contents() == old(Contents()) + old(buf[writePos..writePos + size])
      ensures written == old(written) + old(buf[writePos..writePos + size]) && retrieved == old(retrieved)
    {
      written := written + buf[writePos..writePos + size];
      assert buf[readPos..writePos + size] == buf[readPos..writePos] + buf[writePos..writePos + size];
      writePos := writePos + size;
    }

    method Append(data: string)
      requires Valid()
      modifies this, buf
      ensures Valid() && (buf == old(buf) || fresh(buf))
      ensures Contents() == old(Contents()) + data
      ensures written == old(written) + data && retrieved == old(retrieved)
    {
      if data == [] {
        return;
      }
      EnsureWriteableSize(|data|);
      Store(data);
      HasWritten(|data|);
    }

    // The copy into the writable space.
    method Store(data: string)
      requires Valid() && |data| <= WritableSize()
      modifies buf
      ensures buf[..writePos] == old(buf[..writePos])
      ensures buf[writePos..writePos + |data|] == data
    {
      for i := 0 to |data|
        invariant buf[..writePos] == old(buf[..writePos])
        invariant forall k :: 0 <= k < i ==> buf[writePos + k] == data[k]
      {
        buf[writePos + i] := data[i];
      }
    }

    method AppendLine(data: string)
      requires Valid()
      modifies this, buf
      ensures Valid() && (buf == old(buf) || fresh(buf))
      ensures Contents() == old(Contents()) + data + CRLF
      ensures written == old(written) + data + CRLF && retrieved == old(retrieved)
    {
      Append(data + CRLF);
      assert old(Contents()) + (data + CRLF) == old(Contents()) + data + CRLF;
      assert old(written) + (data + CRLF) == old(written) + data + CRLF;
    }

    method Retrieve(size: nat)
      requires Valid() && size <= ReadableSize()
      modifies this
      ensures Valid() && buf == old(buf)
      ensures Contents() == old(Contents())[size..]
      ensures written == old(written) && retrieved == old(retrieved) + old(Contents())[..size]
    {
      assert buf[readPos..writePos] == buf[readPos..readPos + size] + buf[readPos + size..writePos];
      retrieved := retrieved + buf[readPos..readPos + size];
      readPos := readPos + size;
    }

    method ReadableString() returns (str: string)
      requires Valid()
      ensures str == Contents()
    {
      str := buf[readPos..writePos];
    }

    method Clear()
      requires Valid()
      modifies this
      ensures Valid() && buf == old(buf) && Contents() == []
      ensures written == old(written) && retrieved == old(written)
    {
      retrieved := written;
      readPos, writePos := 0, 0;
    }

    method RetrieveAllToString() returns (str: string)
      requires Valid()
      modifies this
      ensures Valid() && buf == old(buf) && Contents() == []
      ensures str == old(Contents())
      ensures written == old(written) && retrieved == old(retrieved) + str
    {
      str := ReadableString();
      Clear();
    }
  }
}
