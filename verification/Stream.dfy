/** A buffered socket and the line reader on top of it. Neither may lose or repeat a byte. */
module Stream {

  const READ_BUFF_SIZE: nat := 4096

  // ---------------------------------------------------------------- specification

  /** What a read of at most `size` bytes does to the bytes still to come. */
  ghost predicate Took(before: string, after: string, got: string, size: nat, n: int) {
    if n > 0 then n <= size && n <= |before| && n <= |got| && got[..n] == before[..n] && after == before[n..]
    else n >= -1 && after == before && (n == 0 ==> before == "")
  }

  /** The end of the first line, its terminator included. */
  function LineEnd(s: string): (i: nat)
    ensures i <= |s| && (s != "" ==> i > 0) && '\n' !in s[..if i > 0 then i - 1 else 0]
    ensures i < |s| ==> s[i - 1] == '\n'
  {
    if s == "" then 0
    else if s[0] == '\n' then 1
    else
      var i := 1 + LineEnd(s[1..]);
      assert i > 1 ==> s[..i - 1] == [s[0]] + s[1..][..i - 2];
      i
  }

  lemma LineEndsAt(s: string, i: nat)
    requires 0 < i <= |s| && '\n' !in s[..i - 1] && (s[i - 1] == '\n' || i == |s|)
    ensures LineEnd(s) == i
  {
    var k := LineEnd(s);
    if k > 0 {
      assert forall j :: 0 <= j < k - 1 ==> s[..k - 1][j] == s[j];
    }
    assert forall j :: 0 <= j < i - 1 ==> s[..i - 1][j] == s[j];
  }

  // ---------------------------------------------------------------- the socket

  class SocketStream {
    const readBuff: array<char>
    var readBuffOff: nat
    var readBuffContentSize: nat

    /** What the peer sends and `recv` has not returned yet; and whether every receive succeeds. */
    var incoming: string
    const reliable: bool

    constructor (incoming: string, reliable: bool)
      ensures Valid() && Pending() == incoming && this.reliable == reliable && fresh(readBuff)
    {
      readBuff := new char[READ_BUFF_SIZE];
      readBuffOff, readBuffContentSize, this.incoming, this.reliable := 0, 0, incoming, reliable;
      new;
      assert readBuff[0..0] + incoming == incoming;
    }

    ghost predicate Valid()
      reads this
    {
      readBuff.Length == READ_BUFF_SIZE && readBuffOff <= readBuffContentSize <= READ_BUFF_SIZE
    }

    /** The bytes still to be read, in order. */
    ghost function Pending(): string
      requires Valid()
      reads this, readBuff
    {
      readBuff[readBuffOff..readBuffContentSize] + incoming
    }

    /** The system call: some of what has come, nothing at the end, or a failure. */
    method Recv(ptr: array<char>, size: nat) returns (n: int)
      requires 0 < size <= ptr.Length
      modifies this`incoming, ptr
      ensures Took(old(incoming), incoming, ptr[..], size, n) && (reliable ==> n >= 0)
    {
      var fails: bool := *;
      if fails && !reliable {
        return -1;
      }
      if incoming == "" {
        return 0;
      }
      var k: nat :| 0 < k <= size && k <= |incoming|;
      forall i | 0 <= i < k {
        ptr[i] := incoming[i];
      }
      assert ptr[..][..k] == incoming[..k];
      incoming := incoming[k..];
      n := k;
    }

    /** `memcpy` from the read buffer. */
    method Copy(ptr: array<char>, size: nat)
      requires ptr != readBuff && size <= ptr.Length && readBuffOff + size <= readBuff.Length
      modifies ptr
      ensures ptr[..size] == readBuff[readBuffOff..readBuffOff + size]
    {
      forall i | 0 <= i < size {
        ptr[i] := readBuff[readBuffOff + i];
      }
    }

    method Read(ptr: array<char>, size: nat) returns (n: int)
      requires Valid() && ptr != readBuff && 0 < size <= ptr.Length
      modifies this, readBuff, ptr
      ensures Valid() && Took(old(Pending()), Pending(), ptr[..], size, n) && (reliable ==> n >= 0)
    {
      if readBuffOff < readBuffContentSize {
        n := ReadBuffered(ptr, size);
        return;
      }
      assert Pending() == incoming;
      var timeout: bool := *;
      if timeout && !reliable {
        return -1;
      }
      readBuffOff, readBuffContentSize := 0, 0;
      if size < READ_BUFF_SIZE {
        n := Refill(ptr, size);
      } else {
        n := Recv(ptr, size);
        assert Pending() == incoming;
      }
    }

    /** From the buffer, as far as it goes. */
    method ReadBuffered(ptr: array<char>, size: nat) returns (n: int)
      requires Valid() && ptr != readBuff && 0 < size <= ptr.Length && readBuffOff < readBuffContentSize
      modifies this`readBuffOff, ptr
      ensures Valid() && Took(old(Pending()), Pending(), ptr[..], size, n) && n > 0
    {
      ghost var before := Pending();
      var remaining := readBuffContentSize - readBuffOff;
      var k := if size <= remaining then size else remaining;
      Copy(ptr, k);
      Advance(k, before);
      assert ptr[..][..k] == before[..k];
      readBuffOff := readBuffOff + k;
      n := k;
    }

    lemma Advance(k: nat, before: string)
      requires Valid() && readBuffOff + k <= readBuffContentSize && before == Pending()
      ensures before[..k] == readBuff[readBuffOff..readBuffOff + k]
      ensures before[k..] == readBuff[readBuffOff + k..readBuffContentSize] + incoming
    {
    }

    /** Into the emptied buffer first, and from there what was asked for. */
    method Refill(ptr: array<char>, size: nat) returns (n: int)
      requires Valid() && ptr != readBuff && 0 < size <= ptr.Length && size < READ_BUFF_SIZE
      requires readBuffOff == readBuffContentSize == 0
      modifies this, readBuff, ptr
      ensures Valid() && Took(old(incoming), Pending(), ptr[..], size, n) && (reliable ==> n >= 0)
    {
      ghost var before := incoming;
      n := Recv(readBuff, READ_BUFF_SIZE);
      if n <= 0 {
        return;
      }
      if n <= size {
        Copy(ptr, n);
        assert ptr[..][..n] == before[..n];
      } else {
        Copy(ptr, size);
        readBuffOff, readBuffContentSize := size, n;
        Kept(size, n, before);
        assert ptr[..][..size] == before[..size];
        n := size;
      }
    }

    lemma Kept(size: nat, n: nat, before: string)
      requires size <= n <= readBuff.Length && n <= |before| && readBuff[..][..n] == before[..n]
      requires incoming == before[n..]
      ensures readBuff[size..n] + incoming == before[size..] && readBuff[..size] == before[..size]
    {
      assert before == before[..n] + before[n..];
      assert readBuff[..n] == readBuff[..][..n];
    }
  }

  // ---------------------------------------------------------------- lines

  class StreamLineReader {
    const strm: SocketStream
    const fixedBuffer: array<char>
    var fixedBufferUsedSize: nat
    var glowableBuffer: string

    constructor (strm: SocketStream, fixedBuffer: array<char>)
      requires strm.Valid() && fixedBuffer != strm.readBuff && fixedBuffer.Length >= 2
      ensures Valid() && this.strm == strm && this.fixedBuffer == fixedBuffer
    {
      this.strm, this.fixedBuffer, fixedBufferUsedSize, glowableBuffer := strm, fixedBuffer, 0, "";
    }

    /** The fixed buffer ends with a null character; once it is full the other one holds the line. */
    ghost predicate Valid()
      reads this, fixedBuffer, strm
    {
      && strm.Valid() && fixedBuffer != strm.readBuff && 2 <= fixedBuffer.Length
      && fixedBufferUsedSize < fixedBuffer.Length
      && (fixedBufferUsedSize > 0 ==> fixedBuffer[fixedBufferUsedSize] == '\0')
      && (glowableBuffer != "" ==> fixedBufferUsedSize == fixedBuffer.Length - 1)
    }

    /** `ptr()` and `size()`. */
    function Line(): string
      requires Valid()
      reads this, fixedBuffer, strm
    {
      if glowableBuffer == "" then fixedBuffer[..fixedBufferUsedSize] else glowableBuffer
    }

    method Append(c: char)
      requires Valid()
      modifies this`fixedBufferUsedSize, this`glowableBuffer, fixedBuffer
      ensures Valid() && Line() == old(Line()) + [c]
    {
      if fixedBufferUsedSize < fixedBuffer.Length - 1 {
        ghost var was := fixedBuffer[..fixedBufferUsedSize];
        fixedBuffer[fixedBufferUsedSize] := c;
        fixedBufferUsedSize := fixedBufferUsedSize + 1;
        fixedBuffer[fixedBufferUsedSize] := '\0';
        assert fixedBuffer[..fixedBufferUsedSize] == was + [c];
      } else {
        if glowableBuffer == "" {
          assert fixedBuffer[fixedBufferUsedSize] == '\0';
          glowableBuffer := fixedBuffer[..fixedBufferUsedSize];
        }
        glowableBuffer := glowableBuffer + [c];
      }
    }

    /** The next line, or false at the end of the stream. */
    method GetLine() returns (ok: bool)
      requires Valid()
      modifies this`fixedBufferUsedSize, this`glowableBuffer, fixedBuffer, strm, strm.readBuff
      ensures Valid() && (ok ==> GotLine(old(strm.Pending()), strm.Pending(), Line()))
      ensures strm.reliable ==> (ok <==> old(strm.Pending()) != "") && (!ok ==> strm.Pending() == "")
    {
      fixedBufferUsedSize := 0;
      glowableBuffer := "";
      var byte := new char[1];
      ghost var all, line := strm.Pending(), "";
      var i := 0;
      while true
        invariant Valid() && fresh(byte) && byte != fixedBuffer && byte != strm.readBuff
        invariant line == Line() && line + strm.Pending() == all && '\n' !in line && i == |line|
        decreases |strm.Pending()|
      {
        ghost var rest := strm.Pending();
        var n := strm.Read(byte, 1);
        assert Line() == line;
        if n < 0 {
          return false;
        } else if n == 0 {
          AtEnd(all, line);
          return i != 0;
        }
        var c := byte[0];
        Append(c);
        NextByte(all, line, rest, c);
        line := line + [c];
        if c == '\n' {
          return true;
        }
        i := i + 1;
      }
    }
  }

  ghost predicate GotLine(before: string, after: string, line: string) {
    before != "" && line == before[..LineEnd(before)] && after == before[LineEnd(before)..]
  }

  lemma AtEnd(all: string, line: string)
    requires line + "" == all && '\n' !in line
    ensures line != "" ==> GotLine(all, "", line)
  {
    assert line == all;
    if line != "" {
      assert all == all[..|all| - 1] + [all[|all| - 1]];
      LineEndsAt(all, |all|);
    }
  }

  lemma NextByte(all: string, line: string, rest: string, c: char)
    requires line + rest == all && '\n' !in line && rest != "" && rest[0] == c
    ensures (line + [c]) + rest[1..] == all
    ensures c == '\n' ==> GotLine(all, rest[1..], line + [c])
  {
    var i := |line| + 1;
    assert all[..i] == line + [c] && all[..i - 1] == line && all[i..] == rest[1..];
    if c == '\n' {
      LineEndsAt(all, i);
    }
  }
}
