/** The buffered readers of httplib.h: `SocketStream::read` over a raw socket, and `stream_line_reader` and
    `read_content_with_length` over `SocketStream`.

    A raw socket is the byte sequence the peer still has to deliver, with arbitrary short receives and
    failures. Each reader is proved against `Unread()`: the bytes it has buffered and those still to come. */
module Streams {
  import opened Bytes

  const SSIZE_MAX: nat := 0x7fff_ffff_ffff_ffff
  const READ_BUFF_SIZE: nat := 4096
  const RECV_BUFSIZ: nat := 4096

  /** A connected socket as seen by `recv`. `broken` records that a receive or a poll has failed. */
  class Socket {
    var incoming: string
    var broken: bool

    constructor (incoming: string)
      ensures this.incoming == incoming && !broken
    {
      this.incoming := incoming;
      broken := false;
    }

    /** `select_read(...) > 0`: the poll may time out. */
    method IsReadable() returns (r: bool)
      modifies `broken
      ensures !r ==> broken
      ensures r ==> broken == old(broken)
    {
      if * { broken := true; return false; }
      return true;
    }

    /** `recv`: any number of bytes up to `max`, none only at the end of the stream, or -1. */
    method Recv(dst: array<char>, max: nat) returns (n: int)
      requires 0 < max <= dst.Length
      modifies this, dst
      ensures -1 <= n <= max
      ensures n < 0 ==> broken && incoming == old(incoming)
      ensures n >= 0 ==> broken == old(broken) && dst[..n] + incoming == old(incoming)
      ensures n == 0 ==> old(incoming) == ""
    {
      if * { broken := true; return -1; }
      if incoming == "" { return 0; }
      var k: nat :| 1 <= k <= max && k <= |incoming|;
      ghost var was := incoming;
      for i := 0 to k
        invariant incoming == was && broken == old(broken)
        invariant dst[..i] == was[..i]
      {
        dst[i] := incoming[i];
      }
      incoming := incoming[k..];
      assert was[..k] + was[k..] == was;
      return k;
    }
  }

  /** `memcpy` of `n` bytes from position `from` of `src` to the start of `dst`. */
  method CopyOut(src: array<char>, from: nat, dst: array<char>, n: nat)
    requires from + n <= src.Length && n <= dst.Length && src != dst
    modifies dst
    ensures dst[..n] == src[from..from + n]
  {
    for i := 0 to n
      invariant dst[..i] == src[from..from + i]
    {
      dst[i] := src[from + i];
    }
  }

  class SocketStream {
    const sock: Socket
    const readBuff: array<char>
    var off: nat
    var contentSize: nat

    ghost predicate Valid()
      reads this
    {
      readBuff.Length == READ_BUFF_SIZE && contentSize <= readBuff.Length
    }

    /** What a reader has yet to see: the buffered window, then the socket. */
    ghost function Unread(): string
      reads this, sock, readBuff
      requires Valid()
    {
      (if off < contentSize then readBuff[off..contentSize] else "") + sock.incoming
    }

    constructor (sock: Socket)
      ensures Valid() && this.sock == sock && Unread() == sock.incoming && fresh(readBuff)
    {
      this.sock := sock;
      readBuff := new char[READ_BUFF_SIZE](_ => '\0');
      off, contentSize := 0, 0;
    }

    /** The part of `read` that serves the request from the window. */
    method TakeFromWindow(dst: array<char>, size: nat) returns (n: nat)
      requires Valid() && off < contentSize && size <= dst.Length && dst != readBuff
      modifies this, dst
      ensures Valid() && n <= size && (n == 0 ==> size == 0)
      ensures dst[..n] + Unread() == old(Unread())
    {
      var remaining := contentSize - off;
      n := if size <= remaining then size else remaining;
      CopyOut(readBuff, off, dst, n);
      ghost var window := readBuff[off..contentSize];
      SliceOfArray(readBuff, off, contentSize, n);
      assert window[..n] + window[n..] == window;
      Regroup(window[..n], window[n..], sock.incoming);
      off := off + n;
    }

    /** The part of `read` that receives into the buffer. */
    method Refill(dst: array<char>, size: nat) returns (n: int)
      requires Valid() && off == contentSize == 0 && size <= dst.Length && dst != readBuff
      modifies this, sock, readBuff, dst
      ensures Valid() && -1 <= n <= size
      ensures n < 0 ==> sock.broken && Unread() == old(Unread())
      ensures n >= 0 ==> sock.broken == old(sock.broken) && dst[..n] + Unread() == old(Unread())
      ensures n == 0 && size > 0 ==> old(Unread()) == ""
    {
      n := sock.Recv(readBuff, READ_BUFF_SIZE);
      if n <= 0 { return n; }
      if n <= size {
        CopyOut(readBuff, 0, dst, n);
      } else {
        CopyOut(readBuff, 0, dst, size);
        off := size;
        contentSize := n;
        assert readBuff[..n] == readBuff[..size] + readBuff[size..n];
        Regroup(readBuff[..size], readBuff[size..n], sock.incoming);
        n := size;
      }
    }

    /** `SocketStream::read`: from the window while it lasts, then one receive, into the buffer if the
        request is smaller than it. Nothing is lost, repeated or reordered. */
    method Read(dst: array<char>, wanted: nat) returns (n: int)
      requires Valid() && wanted <= dst.Length && dst != readBuff
      modifies this, sock, readBuff, dst
      ensures Valid() && -1 <= n <= wanted
      ensures n < 0 ==> sock.broken && Unread() == old(Unread())
      ensures n >= 0 ==> sock.broken == old(sock.broken) && dst[..n] + Unread() == old(Unread())
      ensures n == 0 && wanted > 0 ==> old(Unread()) == ""
    {
      var size := if wanted <= SSIZE_MAX then wanted else SSIZE_MAX;
      if off < contentSize {
        n := TakeFromWindow(dst, size);
        return;
      }
      var readable := sock.IsReadable();
      if !readable { return -1; }
      off, contentSize := 0, 0;
      if size < READ_BUFF_SIZE {
        n := Refill(dst, size);
      } else {
        n := sock.Recv(dst, size);
      }
    }
  }

  /** Any sequence of reads, each of its own size: what came out, followed by what is unread, is what was
      unread before. */
  method ReadMany(stream: SocketStream, sizes: seq<nat>) returns (out: string, ok: bool)
    requires stream.Valid()
    modifies stream, stream.sock, stream.readBuff
    ensures stream.Valid() && out + stream.Unread() == old(stream.Unread())
    ensures !ok ==> stream.sock.broken
  {
    out := "";
    for i := 0 to |sizes|
      invariant stream.Valid() && out + stream.Unread() == old(stream.Unread())
    {
      var dst := new char[sizes[i]](_ => '\0');
      ghost var before := stream.Unread();
      var n := stream.Read(dst, sizes[i]);
      if n < 0 { return out, false; }
      Regroup(out, dst[..n], stream.Unread());
      out := out + dst[..n];
    }
    return out, true;
  }

  lemma {:induction false} SliceOfArray(a: array<char>, lo: nat, hi: nat, k: nat)
    requires lo <= hi <= a.Length && lo + k <= hi
    ensures a[lo..lo + k] == a[lo..hi][..k] && a[lo + k..hi] == a[lo..hi][k..]
  {}

  // ------------------------------------------------------------------- lines

  /** The length of the first line with its newline, or of the whole text if there is no newline. */
  function LineEnd(s: string): (n: nat)
    ensures n <= |s| && (s != "" ==> n > 0)
  {
    var i := Find(s, "\n");
    if i < |s| then i + 1 else i
  }

  class LineReader {
    const stream: SocketStream
    const fixedBuffer: array<char>
    var used: nat
    var glowable: string

    ghost predicate Valid()
      reads this, stream, fixedBuffer
    {
      && stream.Valid() && fixedBuffer.Length >= 2 && fixedBuffer != stream.readBuff
      && used < fixedBuffer.Length
      && (used > 0 ==> fixedBuffer[used] == '\0')
      && (glowable != "" ==> used == fixedBuffer.Length - 1)
    }

    constructor (stream: SocketStream, fixedBuffer: array<char>)
      requires stream.Valid() && fixedBuffer.Length >= 2 && fixedBuffer != stream.readBuff
      ensures Valid() && this.stream == stream && this.fixedBuffer == fixedBuffer
    {
      this.stream := stream;
      this.fixedBuffer := fixedBuffer;
      used, glowable := 0, "";
    }

    /** The bytes `ptr()` and `size()` denote. */
    function Line(): string
      reads this, fixedBuffer
      requires used < fixedBuffer.Length
    {
      if glowable == "" then fixedBuffer[..used] else glowable
    }

    /** `append`: the fixed buffer first; when it is full the line moves to the growing one. */
    method Append(c: char)
      requires Valid()
      modifies this, fixedBuffer
      ensures Valid() && Line() == old(Line()) + [c]
    {
      if used < fixedBuffer.Length - 1 {
        ghost var line := fixedBuffer[..used];
        fixedBuffer[used] := c;
        used := used + 1;
        fixedBuffer[used] := '\0';
        assert fixedBuffer[..used] == line + [c];
      } else {
        if glowable == "" {
          assert fixedBuffer[used] == '\0';
          glowable := fixedBuffer[..used];
        }
        glowable := glowable + [c];
      }
    }

    /** One byte of the stream, which has `all` to deliver from position `i`. */
    method NextByte(ghost all: string, ghost i: nat) returns (n: int, c: char)
      requires Valid() && i <= |all| && stream.Unread() == all[i..]
      modifies stream, stream.sock, stream.readBuff
      ensures Valid() && Line() == old(Line())
      ensures !stream.sock.broken ==> !old(stream.sock.broken)
      ensures n < 0 ==> stream.sock.broken
      ensures n == 0 ==> i == |all| && stream.Unread() == all[i..]
      ensures n > 0 ==> i < |all| && c == all[i] && stream.Unread() == all[i + 1..] && all[..i] + [c] == all[..i + 1]
    {
      var byte := new char[1](_ => '\0');
      n := stream.Read(byte, 1);
      c := byte[0];
      if n > 0 { OneByte(all, i, byte[..1], stream.Unread()); }
    }

    /** `getline`: exactly the bytes through the first newline, or the rest if there is none. It fails at
        the end of the stream, or when the socket does. */
    method GetLine() returns (ok: bool)
      requires Valid()
      modifies this, fixedBuffer, stream, stream.sock, stream.readBuff
      ensures Valid()
      ensures !stream.sock.broken ==> !old(stream.sock.broken)
      ensures ok ==> old(stream.Unread()) != ""
      ensures ok ==> Line() == old(stream.Unread())[..LineEnd(old(stream.Unread()))]
      ensures ok ==> stream.Unread() == old(stream.Unread())[LineEnd(old(stream.Unread()))..]
      ensures !ok ==> stream.sock.broken || (old(stream.Unread()) == "" && stream.Unread() == "")
    {
      ghost var all := stream.Unread();
      used := 0;
      glowable := "";
      var i := 0;
      while true
        invariant Valid() && 0 <= i <= |all|
        invariant !stream.sock.broken ==> !old(stream.sock.broken)
        invariant Line() == all[..i] && stream.Unread() == all[i..]
        invariant forall k :: 0 <= k < i ==> all[k] != '\n'
        decreases |all| - i
      {
        var n, byte := NextByte(all, i);
        if n < 0 { return false; }
        if n == 0 {
          LineEndIs(all, i);
          if i == 0 { return false; }
          break;
        }
        Append(byte);
        i := i + 1;
        if byte == '\n' {
          LineEndIs(all, i);
          break;
        }
      }
      return true;
    }
  }

  lemma {:induction false} OneByte(all: string, i: nat, one: string, rest: string)
    requires i <= |all| && |one| == 1 && one + rest == all[i..]
    ensures i < |all| && all[i] == one[0] && rest == all[i + 1..]
    ensures all[..i] + [one[0]] == all[..i + 1]
  {
    assert all[i..][0] == one[0];
    assert (one + rest)[1..] == rest;
    assert all[i..][1..] == all[i + 1..];
  }

  lemma {:induction false} LineEndIs(all: string, i: nat)
    requires i <= |all|
    requires forall k :: 0 <= k < i - 1 ==> all[k] != '\n'
    requires (i == |all| && forall k :: 0 <= k < i ==> all[k] != '\n') || (i > 0 && all[i - 1] == '\n')
    ensures LineEnd(all) == i
  {
    FindCharAt(all, '\n', if i > 0 && all[i - 1] == '\n' then i - 1 else i);
  }
}
