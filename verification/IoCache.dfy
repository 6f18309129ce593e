/**
 The buffered file cache: the inline fast paths of IO_CACHE, against a plain byte stream.

 The inline functions touch only the buffers; when these do not suffice they call functions that the
 headers merely declare. `ReadSlow`, `GetSlow`, `WriteSlow` and `Flush` stand in for those, with the
 simplest bodies that do what the declarations' comments say: use up the buffer, then move data
 between the file and the caller or the buffer at `posInFile`. Reading and writing may hit a hard error.
 Pointers are offsets into one piece of memory, in which the buffers lie anywhere.
 */
module IoCache {
  import opened ByteOrder

  datatype CacheType = ReadCache | WriteCache

  /** The result of reading a byte past the end. */
  const EOF: int := -0x8000_0000

  /** `memcpy(dst + to, src + from, n)` between different arrays. */
  method Memcpy(dst: array<byte>, to: nat, src: array<byte>, from: nat, n: nat)
    requires dst != src && to + n <= dst.Length && from + n <= src.Length
    modifies dst
    ensures dst[..] == old(dst[..to]) + src[from..from + n] + old(dst[to + n..])
  {
    for i := 0 to n
      invariant forall j | 0 <= j < dst.Length ::
        dst[j] == if to <= j < to + i then src[from + j - to] else old(dst[j])
    {
      dst[to + i] := src[from + i];
    }
  }

  /** The same from a file, at offset `from`. */
  method ReadFile(dst: array<byte>, to: nat, file: seq<byte>, from: nat, n: nat)
    requires to + n <= dst.Length && from + n <= |file|
    modifies dst
    ensures dst[..] == old(dst[..to]) + file[from..from + n] + old(dst[to + n..])
  {
    for i := 0 to n
      invariant forall j | 0 <= j < dst.Length ::
        dst[j] == if to <= j < to + i then file[from + j - to] else old(dst[j])
    {
      dst[to + i] := file[from + i];
    }
  }

  function Min(a: nat, b: nat): nat {
    if a < b then a else b
  }

  /** The part of `n` bytes that fills whole buffers. */
  function WholeBuffers(n: nat, size: nat): (k: nat)
    ensures k <= n && n - k <= size
  {
    if size == 0 then n else n - n % size
  }

  /** Inside a buffer that mirrors the file, every part mirrors its part of the file. */
  lemma Mirror(m: seq<byte>, base: nat, file: seq<byte>, pos: nat, end: nat, from: nat, to: nat)
    requires from <= to <= end && base + end <= |m| && pos + end <= |file|
    requires m[base..base + end] == file[pos..pos + end]
    ensures m[base + from..base + to] == file[pos + from..pos + to]
  {
    var part, whole := m[base + from..base + to], m[base..base + end];
    var part', whole' := file[pos + from..pos + to], file[pos..pos + end];
    forall j | 0 <= j < |part| ensures part[j] == part'[j] {
      assert whole[from + j] == whole'[from + j];
    }
  }

  /** The `n` bytes of `m` from `base` on are those of the file from `pos` on. */
  predicate Mirrors(m: seq<byte>, base: nat, n: nat, file: seq<byte>, pos: nat) {
    base + n <= |m| && pos + n <= |file| && m[base..base + n] == file[pos..pos + n]
  }

  /** Two adjacent pieces of the file, copied one after the other, are one piece. */
  lemma JoinSlices(file: seq<byte>, start: nat, m: nat, n: nat, before: seq<byte>, mid: seq<byte>, after: seq<byte>)
    requires start + m + n <= |file| && m + n <= |before|
    requires mid == file[start..start + m] + before[m..]
    requires after == mid[..m] + file[start + m..start + m + n] + mid[m + n..]
    ensures after == file[start..start + m + n] + before[m + n..]
  {
    assert mid[..m] == file[start..start + m];
    assert mid[m + n..] == before[m + n..];
    assert file[start..start + m] + file[start + m..start + m + n] == file[start..start + m + n];
  }

  /** Two adjacent pieces of data, added one after the other, are one piece. */
  lemma AddPieces(was: seq<byte>, data: seq<byte>, m: nat, n: nat)
    requires m <= n <= |data|
    ensures was + data[0..m] + data[m..n] == was + data[..n] && was + data[0..m] == was + data[..m]
  {
    assert data[..n] == data[0..m] + data[m..n];
  }

  /** What a reading call at position `start` does to its destination and the position: give the next
      bytes, as many of `count` as there are; if the disk refused, fail hard with nothing given. */
  predicate Gives(file: seq<byte>, start: nat, count: nat, before: seq<byte>, refused: bool,
                  after: seq<byte>, end: int, status: int, error: int)
    requires start <= |file| && count <= |before|
  {
    if refused then
      after == before && end == start && status == 1 && error == -1
    else
      var n := Min(count, |file| - start);
      && after == file[start..start + n] + before[n..] && end == start + n
      && (if n == count then status == 0 else status == 1 && error == n)
  }

  lemma GivesNext(file: seq<byte>, start: nat, count: nat, n: nat, before: seq<byte>, after: seq<byte>,
                  status: int, error: int)
    requires start <= |file| && count <= |before| && n == Min(count, |file| - start)
    requires after == file[start..start + n] + before[n..]
    requires if n == count then status == 0 else status == 1 && error == n
    ensures Gives(file, start, count, before, false, after, start + n, status, error)
  {
  }

  /** The same for a single byte: give it, report the end, or fail hard. */
  predicate GivesByte(file: seq<byte>, start: nat, refused: bool, c: int, end: int, error: int)
    requires start <= |file|
  {
    if refused then c == EOF && end == start && error == -1
    else if start < |file| then c == file[start] as int && end == start + 1
    else c == EOF && end == start && error == 0
  }

  /** The accesses numbered `from` to `to` are all granted. */
  predicate Granted(refuses: nat -> bool, from: nat, to: nat) {
    forall i | from <= i < to :: !refuses(i)
  }

  /** `refuses` says which accesses to the disk fail, counted from the start; `accesses` counts them. */
  class Cache {
    const cacheType: CacheType
    const refuses: nat -> bool
    const memory: array<byte>
    const size: nat
    var file: seq<byte>
    var posInFile: nat
    var buffer: nat
    var requestPos: nat
    var readPos: nat
    var readEnd: nat
    var writeBuffer: nat
    var writePos: nat
    var writeEnd: nat
    var error: int
    var accesses: nat

    /** A cache over `size` bytes of memory from `at` on. */
    constructor (cacheType: CacheType, file: seq<byte>, start: nat, at: nat, size: nat, refuses: nat -> bool)
      requires start <= |file| && (cacheType.WriteCache? ==> start == |file|)
      ensures this.cacheType == cacheType && this.file == file && fresh(memory) && this.size == size && error == 0
      ensures this.refuses == refuses && accesses == 0
      ensures cacheType.ReadCache? ==> Readable()
      ensures cacheType.WriteCache? ==> Writable() && Contents() == file
      ensures Tell() == start
    {
      this.cacheType, this.file, posInFile, this.size := cacheType, file, start, size;
      memory := new byte[at + size];
      buffer, requestPos, writeBuffer := at, at, at;
      readPos, readEnd, writePos, writeEnd, error := at, at, at, at + size, 0;
      this.refuses, accesses := refuses, 0;
    }

    // -------------------------------------------------------------- accessors

    /** `my_b_tell` */
    function Tell(): int
      reads this
    {
      if cacheType.WriteCache? then posInFile + (writePos - requestPos) else posInFile + (readPos - requestPos)
    }

    /** `my_b_write_tell` */
    function WriteTell(): int
      reads this
    {
      posInFile + (writePos - writeBuffer)
    }

    /** `my_b_bytes_in_cache` */
    function BytesInCache(): int
      reads this
    {
      if cacheType.WriteCache? then writeEnd - writePos else readEnd - readPos
    }

    /** A read buffer holds the file bytes from `posInFile` on, and that is where requests are counted from. */
    ghost predicate Readable()
      reads this, memory
    {
      && cacheType.ReadCache?
      && requestPos == buffer <= readPos <= readEnd <= buffer + size <= memory.Length
      && Mirrors(memory[..], buffer, readEnd - buffer, file, posInFile)
    }

    /** The unread bytes in the buffer are the next bytes of the file. */
    lemma Ahead(n: nat)
      requires Readable() && n <= readEnd - readPos
      ensures 0 <= Tell() && Tell() + n <= |file| && memory[readPos..readPos + n] == file[Tell()..Tell() + n]
    {
      Mirror(memory[..], buffer, file, posInFile, readEnd - buffer, readPos - buffer, readPos - buffer + n);
    }

    /** A write buffer holds the bytes to come after the end of the file, counted from the same place. */
    ghost predicate Writable()
      reads this
    {
      && cacheType.WriteCache?
      && requestPos == writeBuffer <= writePos <= writeEnd <= writeBuffer + size <= memory.Length
      && posInFile == |file|
    }

    /** The stream a writer has produced: the file and then the pending bytes. Both tell functions give
        its length. */
    ghost function Contents(): (s: seq<byte>)
      requires Writable()
      reads this, memory
      ensures |s| == Tell() == WriteTell()
    {
      file + memory[writeBuffer..writePos]
    }

    // -------------------------------------------------------------- reading

    /** Fetch `count` bytes that are not all in the buffer (stand-in for the read function): hand out what
        is buffered, take the rest from the file, then refill the buffer. */
    method ReadSlow(dest: array<byte>, count: nat) returns (status: int)
      requires Readable() && dest != memory && count <= dest.Length && readEnd - readPos <= count
      modifies this, dest, memory
      ensures Readable() && file == old(file) && buffer == old(buffer) && accesses == old(accesses) + 1
      ensures Gives(file, old(Tell()), count, old(dest[..]), refuses(old(accesses)), dest[..], Tell(), status, error)
      ensures status == 0 ==> error == 0 && readPos == buffer && readEnd == buffer + Min(size, |file| - posInFile)
      ensures error == -1 ==> posInFile == old(posInFile) && readPos == old(readPos) && readEnd == old(readEnd)
    {
      var refused := Access();
      if refused {
        return 1;
      }
      ghost var start, before := Tell(), dest[..];
      var n := Supply(dest, count);
      status := if n < count then 1 else 0;
      GivesNext(file, start, count, n, before, dest[..], status, error);
    }

    /** Turn to the disk. If it refuses, that is a hard error, and nothing moves. */
    method Access() returns (refused: bool)
      modifies this`error, this`accesses
      ensures accesses == old(accesses) + 1 && refused == refuses(old(accesses))
      ensures error == if refused then -1 else old(error)
      ensures old(Readable()) ==> Readable()
      ensures old(Writable()) ==> Writable() && Contents() == old(Contents())
    {
      refused := refuses(accesses);
      accesses := accesses + 1;
      if refused {
        error := -1;
      }
    }

    /** Up to `count` bytes, and then a full buffer if there were as many. */
    method Supply(dest: array<byte>, count: nat) returns (n: nat)
      requires Readable() && dest != memory && count <= dest.Length && readEnd - readPos <= count
      modifies this`posInFile, this`readPos, this`readEnd, this`error, dest, memory
      ensures Readable() && readPos == buffer && posInFile == old(Tell()) + n
      ensures n == Min(count, |file| - old(Tell())) && error == if n < count then n else 0
      ensures n == count ==> readEnd == buffer + Min(size, |file| - posInFile)
      ensures dest[..] == file[old(Tell())..old(Tell()) + n] + old(dest[..])[n..]
    {
      n := Take(dest, count);
      if n < count {
        error := n;
      } else {
        error := 0;
        Refill();
      }
    }

    /** Up to `count` bytes, first those in the buffer and then straight from the file. */
    method Take(dest: array<byte>, count: nat) returns (n: nat)
      requires Readable() && dest != memory && count <= dest.Length && readEnd - readPos <= count
      modifies this`posInFile, this`readPos, this`readEnd, dest
      ensures Readable() && readPos == readEnd == buffer && posInFile == old(Tell()) + n
      ensures n == Min(count, |file| - old(Tell()))
      ensures dest[..] == file[old(Tell())..old(Tell()) + n] + old(dest[..])[n..]
    {
      ghost var start := Tell();
      ghost var before := dest[..];
      var left := HandOut(dest);
      ghost var mid := dest[..];
      var direct := Min(count - left, |file| - posInFile);
      ReadFile(dest, left, file, posInFile, direct);
      posInFile := posInFile + direct;
      n := left + direct;
      JoinSlices(file, start, left, direct, before, mid, dest[..]);
    }

    /** Copy bytes that are in the buffer. */
    method CopyOut(dest: array<byte>, n: nat)
      requires Readable() && dest != memory && n <= readEnd - readPos && n <= dest.Length
      modifies this`readPos, dest
      ensures Readable() && readPos == old(readPos) + n
      ensures dest[..] == file[old(Tell())..old(Tell()) + n] + old(dest[..])[n..]
    {
      Ahead(n);
      Memcpy(dest, 0, memory, readPos, n);
      readPos := readPos + n;
    }

    /** Hand out what is buffered; the buffer is then empty and stands right after it in the file. */
    method HandOut(dest: array<byte>) returns (left: nat)
      requires Readable() && dest != memory && readEnd - readPos <= dest.Length
      modifies this`posInFile, this`readPos, this`readEnd, dest
      ensures Readable() && readPos == readEnd == buffer && posInFile == old(Tell()) + left
      ensures left == old(readEnd) - old(readPos)
      ensures dest[..] == file[old(Tell())..old(Tell()) + left] + old(dest[..])[left..]
    {
      left := readEnd - readPos;
      CopyOut(dest, left);
      posInFile := posInFile + (readEnd - buffer);
      readPos, readEnd := buffer, buffer;
    }

    /** Load the buffer with the file bytes at `posInFile`. */
    method Refill()
      requires Readable() && readPos == readEnd == buffer
      modifies this`readPos, this`readEnd, memory
      ensures Readable() && readPos == buffer && readEnd == buffer + Min(size, |file| - posInFile)
    {
      var n := Min(size, |file| - posInFile);
      ReadFile(memory, buffer, file, posInFile, n);
      readPos, readEnd := buffer, buffer + n;
    }

    /** `my_b_read`: the next `count` bytes of the file, as many as there are; what is in the buffer is
        always given. */
    method Read(dest: array<byte>, count: nat) returns (status: int)
      requires Readable() && dest != memory && count <= dest.Length
      modifies this, dest, memory
      ensures Readable() && file == old(file)
      ensures accesses == old(accesses) + (if count <= old(BytesInCache()) then 0 else 1)
      ensures Gives(file, old(Tell()), count, old(dest[..]), !Granted(refuses, old(accesses), accesses),
                    dest[..], Tell(), status, error)
    {
      ghost var start, before := Tell(), dest[..];
      if readPos + count <= readEnd {
        CopyOut(dest, count);
        GivesNext(file, start, count, count, before, dest[..], 0, error);
        return 0;
      }
      status := ReadSlow(dest, count);
    }

    /** Stand-in for `_my_b_get`: one byte through the read function. */
    method GetSlow() returns (c: int)
      requires Readable() && readPos == readEnd
      modifies this, memory
      ensures Readable() && file == old(file) && accesses == old(accesses) + 1
      ensures GivesByte(file, old(Tell()), refuses(old(accesses)), c, Tell(), error)
    {
      var one := new byte[1];
      var status := ReadSlow(one, 1);
      c := if status != 0 then EOF else one[0];
      assert status == 0 ==> one[..] == file[old(Tell())..old(Tell()) + 1];
    }

    /** `my_b_get`: the next byte of the file, or EOF at its end and on a hard error. */
    method Get() returns (c: int)
      requires Readable()
      modifies this, memory
      ensures Readable() && file == old(file)
      ensures accesses == old(accesses) + (if 1 <= old(BytesInCache()) then 0 else 1)
      ensures GivesByte(file, old(Tell()), !Granted(refuses, old(accesses), accesses), c, Tell(), error)
    {
      if readPos != readEnd {
        Ahead(1);
        assert memory[readPos..readPos + 1][0] == memory[readPos];
        readPos := readPos + 1;
        c := memory[readPos - 1];
        return;
      }
      c := GetSlow();
    }

    /** `my_b_fill`: give up what is left in the buffer and load the bytes after it; zero at the end of the
        file and on a hard error, which only the second records. */
    method Fill() returns (n: int)
      requires Readable()
      modifies this, memory
      ensures Readable() && file == old(file) && buffer == old(buffer) && accesses == old(accesses) + 1
      ensures Tell() == old(posInFile + (readEnd - buffer)) && n == readEnd - readPos
      ensures if refuses(old(accesses)) then n == 0 && error == -1
              else error == 0 && readPos == buffer && n == Min(size, |file| - posInFile)
    {
      readPos := readEnd;
      var none := new byte[0];
      var status := ReadSlow(none, 0);
      n := if status != 0 then 0 else readEnd - readPos;
    }

    // -------------------------------------------------------------- writing

    /** Stand-in for `my_b_flush_io_cache`: append the pending bytes to the file. The disk may refuse. */
    method Flush() returns (status: int)
      requires Writable()
      modifies this
      ensures Writable() && Contents() == old(Contents()) && writeBuffer == old(writeBuffer)
      ensures accesses == old(accesses) + 1 && status == if refuses(old(accesses)) then 1 else 0
      ensures status == 0 ==> writePos == writeBuffer && writeEnd == writeBuffer + size && file == Contents()
      ensures status != 0 ==> error == -1 && writePos == old(writePos) && file == old(file)
    {
      var refused := Access();
      if refused {
        return 1;
      }
      file := file + memory[writeBuffer..writePos];
      posInFile := posInFile + (writePos - writeBuffer);
      writePos, writeEnd := writeBuffer, writeBuffer + size;
      status := 0;
    }

    /** Put `n` bytes at the write position. */
    method Stash(src: array<byte>, from: nat, n: nat)
      requires Writable() && src != memory && from + n <= src.Length && writePos + n <= writeEnd
      modifies this`writePos, memory
      ensures Writable() && Contents() == old(Contents()) + src[from..from + n] && writePos == old(writePos) + n
    {
      Memcpy(memory, writePos, src, from, n);
      writePos := writePos + n;
    }

    /** Stand-in for `_my_b_write`: fill up the buffer, flush it, append whole buffers directly and keep
        the rest. If the disk refuses, what fitted into the buffer is all that was taken. */
    method WriteSlow(src: array<byte>, count: nat) returns (status: int)
      requires Writable() && src != memory && count <= src.Length && writeEnd - writePos < count
      modifies this, memory
      ensures Writable() && Answers(old(accesses), status) && old(accesses) < accesses <= old(accesses) + 2
      ensures status == 0 ==> Contents() == old(Contents()) + src[..count]
      ensures status != 0 ==> error == -1 && Contents() == old(Contents()) + src[..old(BytesInCache())]
    {
      var fits := writeEnd - writePos;
      ghost var was := Contents();
      Stash(src, 0, fits);
      AddPieces(was, src[..], fits, count);
      status := Flush();
      if status == 0 {
        status := WriteThrough(src, fits, count - fits);
      }
    }

    /** The status of a writing call: zero if and only if every access it made was granted; it stops at the
        first that is not. */
    predicate Answers(before: nat, status: int)
      reads this
    {
      && before <= accesses && status == (if Granted(refuses, before, accesses) then 0 else 1)
      && (status != 0 ==> Granted(refuses, before, accesses - 1))
    }

    /** With an empty buffer: append whole buffers of data to the file, if there are any, and keep the rest. */
    method WriteThrough(src: array<byte>, from: nat, rest: nat) returns (status: int)
      requires Writable() && writePos == writeBuffer && writeEnd == writeBuffer + size
      requires src != memory && from + rest <= src.Length
      modifies this, memory
      ensures Writable() && Answers(old(accesses), status) && accesses <= old(accesses) + 1
      ensures status == 0 ==> Contents() == old(Contents()) + src[from..from + rest]
      ensures status != 0 ==> error == -1 && Contents() == old(Contents())
    {
      var blocks := WholeBuffers(rest, size);
      ghost var was, data := Contents(), src[from..from + rest];
      assert src[from..from + blocks] == data[0..blocks] && src[from + blocks..from + rest] == data[blocks..rest];
      AddPieces(was, data, blocks, rest);
      status := Append(src[from..from + blocks]);
      if status == 0 {
        Stash(src, from + blocks, rest - blocks);
        assert data[..rest] == data;
      }
    }

    /** Write data, if there is any, straight to the file, past an empty buffer. */
    method Append(data: seq<byte>) returns (status: int)
      requires Writable() && writePos == writeBuffer
      modifies this`file, this`posInFile, this`error, this`accesses
      ensures Writable() && Answers(old(accesses), status) && accesses <= old(accesses) + 1
      ensures Contents() == old(Contents()) + if status == 0 then data else []
      ensures status != 0 ==> error == -1
    {
      if data != [] {
        var refused := Access();
        if refused {
          return 1;
        }
      }
      file := file + data;
      posInFile := posInFile + |data|;
      status := 0;
    }

    /** `my_b_write` */
    method Write(src: array<byte>, count: nat) returns (status: int)
      requires Writable() && src != memory && count <= src.Length
      modifies this, memory
      ensures Writable() && Answers(old(accesses), status) && accesses <= old(accesses) + 2
      ensures status == 0 ==> Contents() == old(Contents()) + src[..count]
      ensures status != 0 ==> Contents() == old(Contents()) + src[..Min(count, old(BytesInCache()))]
      ensures count <= old(BytesInCache()) <==> accesses == old(accesses)
    {
      if writePos + count <= writeEnd {
        Stash(src, 0, count);
        return 0;
      }
      status := WriteSlow(src, count);
    }

    /** `my_b_write_byte` */
    method WriteByte(chr: byte) returns (status: int)
      requires Writable() && size > 0
      modifies this, memory
      ensures Writable() && Answers(old(accesses), status)
      ensures Contents() == old(Contents()) + if status == 0 then [chr] else []
      ensures accesses == old(accesses) + (if old(BytesInCache()) > 0 then 0 else 1)
    {
      if writePos >= writeEnd {
        status := Flush();
        if status != 0 {
          return;
        }
      }
      memory[writePos] := chr;
      writePos := writePos + 1;
      status := 0;
    }
  }
}
