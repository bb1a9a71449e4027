/**
  Input and output of a non-blocking socket: the scatter read and the short write of
  `io::FileDescriptor`, and the loops of a connection around them.
 */
module Sockets {
  import opened Buffers
  import opened Wrappers

  datatype Error = WouldBlock | Broken

  function Min(a: int, b: int): int {
    if a < b then a else b
  }

  function Flatten(chunks: seq<string>): string {
    if chunks == [] then [] else chunks[0] + Flatten(chunks[1..])
  }

  ghost predicate NoneEmpty(chunks: seq<string>) {
    forall i :: 0 <= i < |chunks| ==> chunks[i] != []
  }

  /** The kernel's side of a socket. `incoming` holds the portions in which the received stream becomes
      available; when they are used up, reading fails with `ending`. `quotas` bounds each write in turn
      (negative: the write fails); when they are used up, everything is accepted. */
  class Socket {
    var incoming: seq<string>
    var ending: Error
    var quotas: seq<int>
    var outgoing: string

    constructor (incoming: seq<string>, ending: Error, quotas: seq<int>)
      ensures this.incoming == incoming && this.ending == ending && this.quotas == quotas && outgoing == []
    {
      this.incoming, this.ending, this.quotas, outgoing := incoming, ending, quotas, [];
    }

    // `readv`: fill `dst` from position `lo` on, then `ext`, from the next portion; none on failure.
    method ReadV(dst: array<char>, lo: nat, ext: array<char>) returns (size: Option<nat>)
      requires lo <= dst.Length && dst != ext
      modifies this`incoming, dst, ext
      ensures size.None? <==> old(incoming) == []
      ensures size.None? ==> incoming == old(incoming)
      ensures size.Some? ==> ReadResult(old(incoming), incoming, size.value, dst.Length - lo + ext.Length)
      ensures dst[..lo] == old(dst[..lo])
      ensures size.Some? ==> (dst[lo..] + ext[..])[..size.value] == old(incoming)[0][..size.value]
    {
      if incoming == [] {
        return None;
      }
      var chunk := incoming[0];
      var n: nat := Min(|chunk|, dst.Length - lo + ext.Length);
      var first: nat := Min(n, dst.Length - lo);
      forall i | 0 <= i < first {
        dst[lo + i] := chunk[i];
      }
      forall i | 0 <= i < n - first {
        ext[i] := chunk[first + i];
      }
      incoming := Left(incoming, n);
      LeftAfterRead(old(incoming), n, dst.Length - lo + ext.Length);
      Scattered(dst[lo..], ext[..], chunk, first, n);
      return Some(n);
    }

    // `write`: send the beginning of the data; none on failure.
    method Write(data: string) returns (size: Option<nat>)
      modifies this`quotas, this`outgoing
      ensures quotas == if old(quotas) == [] then [] else old(quotas)[1..]
      ensures size.None? <==> old(quotas) != [] && old(quotas)[0] < 0
      ensures size.None? ==> outgoing == old(outgoing)
      ensures size.Some? ==>
                && size.value == (if old(quotas) == [] then |data| else Min(old(quotas)[0], |data|))
                && outgoing == old(outgoing) + data[..size.value]
    {
      if quotas == [] {
        outgoing := outgoing + data;
        return Some(|data|);
      }
      var quota := quotas[0];
      quotas := quotas[1..];
      if quota < 0 {
        return None;
      }
      var n: nat := Min(quota, |data|);
      outgoing := outgoing + data[..n];
      return Some(n);
    }
  }

  // The portions that are left after `n` bytes of the first one.
  function Left(chunks: seq<string>, n: nat): seq<string>
    requires chunks != [] && n <= |chunks[0]|
  {
    if n == |chunks[0]| then chunks[1..] else [chunks[0][n..]] + chunks[1..]
  }

  lemma LeftAfterRead(chunks: seq<string>, n: nat, capacity: nat)
    requires chunks != [] && n == Min(|chunks[0]|, capacity)
    ensures ReadResult(chunks, Left(chunks, n), n, capacity)
  {
    var chunk, rest := chunks[0], chunks[1..];
    assert chunk == chunk[..n] + chunk[n..];
    if n == |chunk| {
      assert chunk[..n] == chunk;
    } else {
      assert ([chunk[n..]] + rest)[1..] == rest;
      assert chunk[..n] + (chunk[n..] + Flatten(rest)) == chunk + Flatten(rest);
    }
  }

  // The beginning of a portion, in two parts.
  lemma Scattered(a: string, b: string, chunk: string, first: nat, n: nat)
    requires first <= n <= |chunk| && first <= |a| && n - first <= |b| && (first < n ==> first == |a|)
    requires forall i :: 0 <= i < first ==> a[i] == chunk[i]
    requires forall i :: 0 <= i < n - first ==> b[i] == chunk[first + i]
    ensures (a + b)[..n] == chunk[..n]
  {
    forall i | 0 <= i < n
      ensures (a + b)[i] == chunk[i]
    {
      if i >= first {
        assert (a + b)[i] == b[i - first];
      }
    }
  }

  // One read of `size` bytes takes the beginning of the stream, and fails to make progress only on an empty portion.
  ghost predicate ReadResult(before: seq<string>, after: seq<string>, size: nat, capacity: nat) {
    && before != [] && size == Min(|before[0]|, capacity)
    && Flatten(before) == before[0][..size] + Flatten(after)
    && (NoneEmpty(before) ==> NoneEmpty(after))
  }

  // The array on the stack that takes what does not fit into the writable space.
  const EXTENSION: nat := 0x10000

  /** `FileDescriptor::WriteTo`: one scatter read into the buffer's writable space and an extension, which
      is then appended. */
  method ReadInto(socket: Socket, buffer: Buffer) returns (size: Option<nat>)
    requires buffer.Valid()
    modifies socket`incoming, buffer, buffer.buf
    ensures buffer.Valid() && (buffer.buf == old(buffer.buf) || fresh(buffer.buf))
    ensures size.None? <==> old(socket.incoming) == []
    ensures size.None? ==> socket.incoming == [] && buffer.Contents() == old(buffer.Contents())
    ensures size.Some? ==>
              && buffer.Contents() + Flatten(socket.incoming) == old(buffer.Contents()) + Flatten(old(socket.incoming))
              && |Flatten(socket.incoming)| + size.value == |Flatten(old(socket.incoming))|
              && (NoneEmpty(old(socket.incoming)) ==> size.value > 0 && NoneEmpty(socket.incoming))
  {
    var ext := new char[EXTENSION];
    ghost var before := buffer.Contents();
    size := socket.ReadV(buffer.buf, buffer.writePos, ext);
    assert buffer.buf[buffer.readPos..buffer.writePos] == buffer.buf[..buffer.writePos][buffer.readPos..];
    assert buffer.Valid() && buffer.Contents() == before;
    if size.Some? {
      Absorb(buffer, ext, size.value);
      ghost var data := old(socket.incoming)[0][..size.value];
      assert before + data + Flatten(socket.incoming) == before + (data + Flatten(socket.incoming));
    }
  }

  // What the scatter read has put into the writable space and the extension becomes readable.
  method Absorb(buffer: Buffer, ext: array<char>, size: nat)
    requires buffer.Valid() && ext != buffer.buf && size <= buffer.WritableSize() + ext.Length
    modifies buffer, buffer.buf
    ensures buffer.Valid() && (buffer.buf == old(buffer.buf) || fresh(buffer.buf))
    ensures buffer.Contents() == old(buffer.Contents()) + old((buffer.buf[buffer.writePos..] + ext[..])[..size])
  {
    var writable := buffer.WritableSize();
    ghost var space := buffer.buf[buffer.writePos..];
    if size <= writable {
      assert (space + ext[..])[..size] == buffer.buf[buffer.writePos..buffer.writePos + size];
      buffer.HasWritten(size);
    } else {
      var rest := ext[..size - writable];
      assert (space + ext[..])[..size] == space + rest;
      assert space == buffer.buf[buffer.writePos..buffer.writePos + writable];
      buffer.HasWritten(writable);
      buffer.Append(rest);
      assert old(buffer.Contents()) + space + rest == old(buffer.Contents()) + (space + rest);
    }
  }

  // `FileDescriptor::ReadFrom`: one write of the readable bytes, of which the sent ones are retrieved.
  method WriteFrom(socket: Socket, buffer: Buffer) returns (size: Option<nat>)
    requires buffer.Valid()
    modifies socket`quotas, socket`outgoing, buffer
    ensures buffer.Valid() && buffer.buf == old(buffer.buf)
    ensures socket.quotas == if old(socket.quotas) == [] then [] else old(socket.quotas)[1..]
    ensures size.None? <==> old(socket.quotas) != [] && old(socket.quotas)[0] < 0
    ensures size.None? ==> socket.outgoing == old(socket.outgoing) && buffer.Contents() == old(buffer.Contents())
    ensures size.Some? ==>
              && size.value == (if old(socket.quotas) == [] then |old(buffer.Contents())|
                                else Min(old(socket.quotas)[0], |old(buffer.Contents())|))
              && socket.outgoing + buffer.Contents() == old(socket.outgoing) + old(buffer.Contents())
              && |buffer.Contents()| + size.value == |old(buffer.Contents())|
  {
    var bytes := buffer.ReadableString();
    size := socket.Write(bytes);
    if size.Some? {
      buffer.Retrieve(size.value);
      TwoParts(old(socket.outgoing), bytes, size.value);
    }
  }

  // How many bytes of `size` ones get out when writing is repeated until it is done or fails, and the quotas after that.
  function Writes(quotas: seq<int>, size: nat): (r: (nat, seq<int>))
    ensures r.0 <= size
    decreases |quotas|
  {
    if size == 0 then (0, quotas)
    else if quotas == [] then (size, [])
    else if quotas[0] < 0 then (0, quotas[1..])
    else
      var n := Min(quotas[0], size);
      var r := Writes(quotas[1..], size - n);
      (n + r.0, r.1)
  }

  // The first write decides how it goes on.
  lemma WritesOnce(quotas: seq<int>, size: nat)
    requires size > 0
    ensures quotas == [] ==> Writes(quotas, size) == (size, [])
    ensures quotas != [] && quotas[0] < 0 ==> Writes(quotas, size) == (0, quotas[1..])
    ensures quotas != [] && quotas[0] >= 0 ==>
              var n := Min(quotas[0], size);
              var r := Writes(quotas[1..], size - n);
              Writes(quotas, size) == (n + r.0, r.1)
  {
  }

  // The border between what was sent and what was not.
  lemma CutBetween(outgoing: string, rest: string, before: string, all: string)
    requires outgoing + rest == before + all && |rest| <= |all|
    ensures outgoing == before + all[..|all| - |rest|] && rest == all[|all| - |rest|..]
  {
    assert outgoing == (outgoing + rest)[..|outgoing|] && rest == (outgoing + rest)[|outgoing|..];
  }

  lemma NextPart(before: string, all: string, n: nat, m: nat)
    requires n + m <= |all|
    ensures before + all[..n] + all[n..][..m] == before + all[..n + m]
  {
  }

  // How many bytes of a header and of a file after it get out.
  function SentBytes(quotas: seq<int>, header: nat, file: nat): (n: nat)
    ensures n <= header + file
  {
    var r := Writes(quotas, header);
    if r.0 < header then r.0 else header + Writes(r.1, file).0
  }

  lemma {:induction false} QuotasAreUsedUp(quotas: seq<int>, size: nat)
    ensures forall q :: q in Writes(quotas, size).1 ==> q in quotas
    decreases |quotas|
  {
    if size > 0 && quotas != [] && quotas[0] >= 0 {
      QuotasAreUsedUp(quotas[1..], size - Min(quotas[0], size));
    }
  }

  lemma {:induction false} WritesEverything(quotas: seq<int>, size: nat)
    requires forall q :: q in quotas ==> q >= 0
    ensures Writes(quotas, size).0 == size && forall q :: q in Writes(quotas, size).1 ==> q >= 0
    decreases |quotas|
  {
    if size > 0 && quotas != [] {
      assert quotas[0] in quotas && forall q :: q in quotas[1..] ==> q in quotas;
      WritesEverything(quotas[1..], size - Min(quotas[0], size));
    }
  }

  /** Only a failing write keeps bytes from being sent. */
  lemma EverythingIsSent(quotas: seq<int>, header: nat, file: nat)
    requires forall q :: q in quotas ==> q >= 0
    ensures SentBytes(quotas, header, file) == header + file
  {
    WritesEverything(quotas, header);
    WritesEverything(Writes(quotas, header).1, file);
  }

  /** A connection: the bytes received but not parsed, the bytes to be sent, and the bytes of the requested
      file (none when no file is mapped). */
  class Connection {
    const socket: Socket
    const readBuf: Buffer
    const writeBuf: Buffer
    var file: string
    var keepAlive: bool

    ghost predicate Valid()
      reads this, readBuf, readBuf.buf, writeBuf, writeBuf.buf
    {
      readBuf != writeBuf && readBuf.buf != writeBuf.buf && readBuf.Valid() && writeBuf.Valid()
    }

    constructor (socket: Socket)
      ensures Valid() && this.socket == socket && file == [] && !keepAlive
      ensures fresh(readBuf) && fresh(readBuf.buf) && fresh(writeBuf) && fresh(writeBuf.buf)
      ensures readBuf.Contents() == [] && writeBuf.Contents() == []
    {
      this.socket := socket;
      readBuf := new Buffer(1000);
      writeBuf := new Buffer(1000);
      file, keepAlive := [], false;
    }

    /** However the stream is cut into portions, all of it is appended to the reading buffer and counted. */
    method ReceiveAll() returns (size: Result<nat, Error>)
      requires Valid() && NoneEmpty(socket.incoming)
      modifies socket`incoming, readBuf, readBuf.buf
      ensures Valid() && socket.incoming == []
      ensures readBuf.Contents() == old(readBuf.Contents()) + Flatten(old(socket.incoming))
      ensures size == if socket.ending.WouldBlock? then Ok(|Flatten(old(socket.incoming))|) else Err(Broken)
    {
      var total := 0;
      while true
        invariant Valid() && NoneEmpty(socket.incoming)
        invariant readBuf.buf == old(readBuf.buf) || fresh(readBuf.buf)
        invariant readBuf.Contents() + Flatten(socket.incoming)
               == old(readBuf.Contents()) + Flatten(old(socket.incoming))
        invariant total + |Flatten(socket.incoming)| == |Flatten(old(socket.incoming))|
        decreases |Flatten(socket.incoming)|
      {
        var n := ReadInto(socket, readBuf);
        if n.None? {
          break;
        }
        total := total + n.value;
      }
      return if socket.ending.WouldBlock? then Ok(total) else Err(Broken);
    }

    // The first loop of `Send`: write the buffer until it is empty.
    method SendHeader() returns (headerSize: nat, ok: bool)
      requires Valid()
      modifies socket`quotas, socket`outgoing, writeBuf
      ensures Valid() && writeBuf.buf == old(writeBuf.buf)
      ensures (headerSize, socket.quotas) == Writes(old(socket.quotas), |old(writeBuf.Contents())|)
      ensures ok == (headerSize == |old(writeBuf.Contents())|)
      ensures socket.outgoing + writeBuf.Contents() == old(socket.outgoing) + old(writeBuf.Contents())
      ensures headerSize + |writeBuf.Contents()| == |old(writeBuf.Contents())|
    {
      headerSize := 0;
      while !writeBuf.Empty()
        invariant Valid() && writeBuf.buf == old(writeBuf.buf)
        invariant socket.outgoing + writeBuf.Contents() == old(socket.outgoing) + old(writeBuf.Contents())
        invariant headerSize + |writeBuf.Contents()| == |old(writeBuf.Contents())|
        invariant var r := Writes(socket.quotas, |writeBuf.Contents()|);
                  Writes(old(socket.quotas), |old(writeBuf.Contents())|) == (headerSize + r.0, r.1)
        decreases |socket.quotas|, |writeBuf.Contents()|
      {
        var n := WriteFrom(socket, writeBuf);
        if n.None? {
          return headerSize, false;
        }
        headerSize := headerSize + n.value;
      }
      ok := true;
    }

    // The second loop of `Send`: write the file.
    method SendFile() returns (fileSize: nat, ok: bool)
      modifies socket`quotas, socket`outgoing
      ensures (fileSize, socket.quotas) == Writes(old(socket.quotas), |file|)
      ensures ok == (fileSize == |file|)
      ensures socket.outgoing == old(socket.outgoing) + file[..fileSize]
    {
      fileSize := 0;
      ghost var quotas := socket.quotas;
      while fileSize < |file|
        invariant fileSize <= |file|
        invariant socket.outgoing == old(socket.outgoing) + file[..fileSize]
        invariant var r := Writes(socket.quotas, |file| - fileSize);
                  Writes(quotas, |file|) == (fileSize + r.0, r.1)
        decreases |socket.quotas|, |file| - fileSize
      {
        var n := WriteFile(fileSize);
        if n.None? {
          return fileSize, false;
        }
        NextPart(old(socket.outgoing), file, fileSize, n.value);
        fileSize := fileSize + n.value;
      }
      ok := true;
    }

    // One write of what is left of the file.
    method WriteFile(from: nat) returns (size: Option<nat>)
      requires from < |file|
      modifies socket`quotas, socket`outgoing
      ensures size.Some? ==>
                && size.value <= |file| - from
                && socket.outgoing == old(socket.outgoing) + file[from..][..size.value]
                && (|socket.quotas| < |old(socket.quotas)| || size.value == |file| - from)
                && Writes(old(socket.quotas), |file| - from)
                   == (size.value + Writes(socket.quotas, |file| - from - size.value).0,
                       Writes(socket.quotas, |file| - from - size.value).1)
      ensures size.None? ==>
                socket.outgoing == old(socket.outgoing)
                && Writes(old(socket.quotas), |file| - from) == (0, socket.quotas)
      ensures |socket.quotas| <= |old(socket.quotas)|
    {
      WritesOnce(socket.quotas, |file| - from);
      size := socket.Write(file[from..]);
    }

    /** However the kernel cuts the writes, exactly the header bytes and then the file bytes are sent; when a
        write fails, what was sent is a beginning of that and the unsent header bytes stay in the buffer. */
    method SendAll() returns (size: Result<nat, Error>)
      requires Valid()
      modifies socket`quotas, socket`outgoing, writeBuf
      ensures Valid() && writeBuf.buf == old(writeBuf.buf)
      ensures var header := old(writeBuf.Contents());
              var n := SentBytes(old(socket.quotas), |header|, |file|);
              && socket.outgoing == old(socket.outgoing) + (header + file)[..n]
              && writeBuf.Contents() == header[Min(n, |header|)..]
              && size == if n == |header| + |file| then Ok(n) else Err(Broken)
      ensures forall q :: q in socket.quotas ==> q in old(socket.quotas)
    {
      ghost var header := writeBuf.Contents();
      QuotasAreUsedUp(socket.quotas, |header|);
      var headerSize, ok := SendHeader();
      CutBetween(socket.outgoing, writeBuf.Contents(), old(socket.outgoing), header);
      if !ok {
        assert (header + file)[..headerSize] == header[..headerSize];
        return Err(Broken);
      }
      QuotasAreUsedUp(socket.quotas, |file|);
      var fileSize;
      fileSize, ok := SendFile();
      assert (header + file)[..headerSize + fileSize] == header + file[..fileSize];
      return if ok then Ok(headerSize + fileSize) else Err(Broken);
    }
  }
}
