/** The buffered reader of daemon/connect/Connection.cpp over a socket that delivers octets in arbitrary chunks. */
module Connections {
  import opened Integers

  datatype Status = Connected | Disconnected | Listening | Cancelled | Broken

  const READ_BUFFER_SIZE: nat := 1024

  /** No newline before the last octet. */
  predicate OneLine(line: seq<char>) {
    forall i :: 0 <= i < |line| - 1 ==> line[i] != '\n'
  }

  /** The longest prefix of `s` that has at most `cap` octets and nothing after its first newline. */
  function FirstLine(s: seq<char>, cap: nat): (line: seq<char>)
    ensures |line| <= |s| && |line| <= cap && (s != [] && cap > 0 ==> line != [])
  {
    if cap == 0 || s == [] then []
    else if s[0] == '\n' then [s[0]]
    else [s[0]] + FirstLine(s[1..], cap - 1)
  }

  lemma {:induction false} FirstLineIsOne(s: seq<char>, cap: nat)
    ensures FirstLine(s, cap) <= s && OneLine(FirstLine(s, cap))
    ensures var line := FirstLine(s, cap); |line| == cap || line == s || (line != [] && line[|line| - 1] == '\n')
  {
    if cap > 0 && s != [] && s[0] != '\n' {
      FirstLineIsOne(s[1..], cap - 1);
    }
  }

  /** The properties FirstLine promises leave only one line: a reader that stops there has no other choice. */
  lemma {:induction false} FirstLineIsUnique(s: seq<char>, cap: nat, n: nat)
    requires n <= |s| && n <= cap && OneLine(s[..n])
    requires n == cap || n == |s| || (n > 0 && s[n - 1] == '\n')
    ensures s[..n] == FirstLine(s, cap)
  {
    var line := FirstLine(s, cap);
    FirstLineIsOne(s, cap);
    assert |line| > n || s[..n][..|line|] == line;
  }

  /** The peer: every octet it sends before closing, and how many of them recv has handed out. */
  class Socket {
    const stream: seq<char>
    var taken: nat
    ghost var failed: bool

    constructor (stream: seq<char>)
      ensures Valid() && Remaining() == stream && taken == 0 && !failed
      ensures this.stream == stream
    {
      this.stream, taken, failed := stream, 0, false;
    }

    ghost predicate Valid()
      reads this
    {
      taken <= |stream|
    }

    ghost function Remaining(): seq<char>
      requires Valid()
      reads this
    {
      stream[taken..]
    }

    /** recv: a chunk of any length from 1 to `cap`, 0 once the peer has sent all, or an error at any time. */
    method Receive(buf: array<char>, at: nat, cap: nat) returns (n: int)
      requires Valid() && 0 < cap && at + cap <= buf.Length
      modifies this, buf
      ensures Valid() && n <= cap
      ensures taken == old(taken) + if n > 0 then n else 0
      ensures n < 0 ==> failed
      ensures n == 0 ==> taken == |stream|
      ensures forall k :: at <= k < at + n ==> buf[k] == old(Remaining()[k - at])
      ensures forall k :: 0 <= k < at || at + (if n > 0 then n else 0) <= k < buf.Length ==> buf[k] == old(buf[k])
      ensures n >= 0 ==> failed == old(failed)
    {
      var broken: bool := *;
      if broken {
        failed := true;
        return -1;
      }
      if taken == |stream| {
        return 0;
      }
      var k: nat :| 1 <= k <= cap && taken + k <= |stream|;
      forall i | 0 <= i < k {
        buf[at + i] := stream[taken + i];
      }
      taken, n := taken + k, k;
    }
  }

  class Connection {
    const socket: Socket
    const readBuf: array<char>
    var bufPtr: nat
    var bufAvail: nat
    var status: Status
    var totalBytesRead: nat

    constructor (socket: Socket)
      requires socket.Valid()
      ensures Valid() && fresh(readBuf) && this.socket == socket
      ensures status == Connected && bufAvail == 0 && totalBytesRead == 0
      ensures Pending() == socket.Remaining()
    {
      this.socket, readBuf := socket, new char[READ_BUFFER_SIZE + 1];
      bufPtr, bufAvail, status, totalBytesRead := 0, 0, Connected, 0;
    }

    ghost predicate Valid()
      reads this, socket
    {
      socket.Valid() && readBuf.Length == READ_BUFFER_SIZE + 1 && bufPtr + bufAvail <= readBuf.Length
    }

    ghost function Buffered(): seq<char>
      requires Valid()
      reads this, socket, readBuf
    {
      readBuf[bufPtr..bufPtr + bufAvail]
    }

    /** No receive error so far, and reading still allowed. */
    ghost predicate Clean()
      reads this, socket
    {
      status == Connected && !socket.failed
    }

    /** Every octet the peer has sent or will send that no caller has seen yet, in the peer's order. */
    ghost function Pending(): seq<char>
      requires Valid()
      reads this, socket, readBuf
    {
      Buffered() + socket.Remaining()
    }

    /** Of the octets `all`, the first `n` have been handed out and the rest are pending. */
    ghost predicate ReadTo(all: seq<char>, n: nat)
      reads this, socket, readBuf
    {
      Valid() && n <= |all| && Pending() == all[n..]
    }

    /** memchr over the buffered octets: the index of the first newline, or -1. */
    method FindNewline(from: nat, len: nat) returns (at: int)
      requires from + len <= readBuf.Length
      ensures at < 0 ==> forall k :: from <= k < from + len ==> readBuf[k] != '\n'
      ensures at >= 0 ==> from <= at < from + len && readBuf[at] == '\n'
      ensures at >= 0 ==> forall k :: from <= k < at ==> readBuf[k] != '\n'
    {
      var i := 0;
      while i < len
        invariant 0 <= i <= len
        invariant forall k :: from <= k < from + i ==> readBuf[k] != '\n'
      {
        if readBuf[from + i] == '\n' {
          return from + i;
        }
        i := i + 1;
      }
      at := -1;
    }

    /** The refill step of ReadLine: one recv into the empty buffer. */
    method Refill() returns (n: int)
      requires Valid() && bufAvail == 0
      modifies this`bufPtr, this`bufAvail, this`totalBytesRead, socket, readBuf
      ensures Valid() && Pending() == old(Pending())
      ensures n > 0 <==> bufAvail > 0
      ensures n == 0 ==> Pending() == []
      ensures n < 0 ==> socket.failed
      ensures n >= 0 ==> socket.failed == old(socket.failed)
      ensures totalBytesRead - old(totalBytesRead) == socket.taken - old(socket.taken)
    {
      n := socket.Receive(readBuf, 0, READ_BUFFER_SIZE);
      if n > 0 {
        totalBytesRead, bufPtr, bufAvail := totalBytesRead + n, 0, n;
        readBuf[n] := '\0';
      }
    }

    lemma BufferedAt(all: seq<char>, at: nat, i: nat)
      requires ReadTo(all, at) && i < bufAvail
      ensures at + i < |all| && all[at + i] == readBuf[bufPtr + i]
    {
      assert all[at + i] == Pending()[i] == Buffered()[i];
    }

    lemma BufferedIsNext(all: seq<char>, at: nat)
      requires ReadTo(all, at)
      ensures at + bufAvail <= |all|
      ensures forall k :: at <= k < at + bufAvail ==> all[k] == readBuf[bufPtr + k - at]
    {
      forall k | at <= k < at + bufAvail
        ensures all[k] == readBuf[bufPtr + k - at]
      {
        BufferedAt(all, at, k - at);
      }
    }

    /** memcpy of the first buffered octets into the caller's buffer, and the pointer step past them. */
    method TakeBuffered(buffer: array<char>, offset: nat, len: nat, ghost all: seq<char>, ghost at: nat)
      requires ReadTo(all, at) && buffer != readBuf && offset + len <= buffer.Length && len <= bufAvail
      modifies this`bufPtr, this`bufAvail, buffer
      ensures bufAvail == old(bufAvail) - len && ReadTo(all, at + len)
      ensures forall k :: offset <= k < offset + len ==> buffer[k] == all[at + k - offset]
      ensures forall k :: 0 <= k < offset || offset + len <= k < buffer.Length ==> buffer[k] == old(buffer[k])
    {
      Copy(readBuf, bufPtr, buffer, offset, len);
      forall k | offset <= k < offset + len
        ensures at + k - offset < |all| && buffer[k] == all[at + k - offset]
      {
        BufferedAt(all, at, k - offset);
      }
      ghost var buffered := Buffered();
      bufPtr, bufAvail := bufPtr + len, bufAvail - len;
      assert Buffered() == buffered[len..];
      DropFront(buffered, socket.Remaining(), all, at, len);
    }

    /** One turn of ReadLine over a nonempty buffer: copy up to `left` octets, up to and including a newline. */
    method TakeLinePart(buffer: array<char>, at: nat, left: nat, ghost all: seq<char>) returns (len: nat, found: bool)
      requires ReadTo(all, at) && buffer != readBuf && at + left < buffer.Length && 0 < left && 0 < bufAvail
      modifies this`bufPtr, this`bufAvail, buffer
      ensures 0 < len <= left && ReadTo(all, at + len)
      ensures forall k :: at <= k < at + len ==> buffer[k] == all[k]
      ensures forall k :: 0 <= k < at ==> buffer[k] == old(buffer[k])
      ensures forall k :: at <= k < at + len - 1 ==> all[k] != '\n'
      ensures found ==> len == left || all[at + len - 1] == '\n'
      ensures !found ==> all[at + len - 1] != '\n'
    {
      BufferedIsNext(all, at);
      var p := FindNewline(bufPtr, bufAvail);
      len := if p >= 0 then p - bufPtr + 1 else bufAvail;
      if len > left {
        len := left;
      }
      TakeBuffered(buffer, at, len, all, at);
      found := p >= 0;
    }

    /** One turn of the loop of ReadLine: refill an empty buffer, then take a part of the line. */
    method LineTurn(buffer: array<char>, at: nat, left: nat, ghost all: seq<char>) returns (len: nat, stop: bool)
      requires ReadTo(all, at) && status == Connected && buffer != readBuf && at + left < buffer.Length && 0 < left
      modifies this, socket, readBuf, buffer
      ensures len <= left && ReadTo(all, at + len)
      ensures forall k :: at <= k < at + len ==> buffer[k] == all[k]
      ensures forall k :: 0 <= k < at ==> buffer[k] == old(buffer[k])
      ensures forall k :: at <= k < at + len - 1 ==> all[k] != '\n'
      ensures !stop ==> status == Connected && 0 < len && all[at + len - 1] != '\n'
      ensures stop && status == Connected ==>
        len == left || at + len == |all| || (len > 0 && all[at + len - 1] == '\n')
      ensures status == Connected || (status == Broken && socket.failed && bufAvail == 0 && len == 0)
      ensures status == Connected ==> socket.failed == old(socket.failed)
      ensures totalBytesRead - old(totalBytesRead) == socket.taken - old(socket.taken)
    {
      len, stop := 0, true;
      if bufAvail == 0 {
        var n := Refill();
        if n < 0 {
          status := Broken;
          return;
        } else if n == 0 {
          return;
        }
      }
      len, stop := TakeLinePart(buffer, at, left, all);
    }

    /** The loop of ReadLine: fill at most `size - 1` octets of the caller's buffer. */
    method ReadLineLoop(buffer: array<char>, size: nat, ghost all: seq<char>) returns (bytesRead: nat)
      requires ReadTo(all, 0) && status == Connected && 1 <= size <= buffer.Length && buffer != readBuf
      modifies this, socket, readBuf, buffer
      ensures bytesRead < size && ReadTo(all, bytesRead)
      ensures forall k :: 0 <= k < bytesRead ==> buffer[k] == all[k]
      ensures forall k :: 0 <= k < bytesRead - 1 ==> all[k] != '\n'
      ensures status == Connected || (status == Broken && socket.failed && bufAvail == 0)
      ensures status == Broken ==> bytesRead < size - 1 && forall k :: 0 <= k < bytesRead ==> all[k] != '\n'
      ensures status == Connected ==> socket.failed == old(socket.failed)
      ensures status == Connected ==>
        bytesRead == size - 1 || bytesRead == |all| || (bytesRead > 0 && all[bytesRead - 1] == '\n')
      ensures totalBytesRead - old(totalBytesRead) == socket.taken - old(socket.taken)
    {
      bytesRead := 0;
      var left: nat := size - 1;
      while left > 0
        invariant bytesRead + left == size - 1 && ReadTo(all, bytesRead)
        invariant forall k :: 0 <= k < bytesRead ==> buffer[k] == all[k] && all[k] != '\n'
        invariant status == Connected && socket.failed == old(socket.failed)
        invariant totalBytesRead - old(totalBytesRead) == socket.taken - old(socket.taken)
        decreases left
      {
        var len, stop := LineTurn(buffer, bytesRead, left, all);
        bytesRead, left := bytesRead + len, left - len;
        if stop {
          break;
        }
      }
    }

    method ReadLine(buffer: array<char>, size: nat) returns (ok: bool, bytesRead: nat)
      requires Valid() && 1 <= size <= buffer.Length && buffer != readBuf
      modifies this, socket, readBuf, buffer
      // no octet lost, repeated or reordered
      ensures bytesRead < size && ReadTo(old(Pending()), bytesRead)
      ensures ok <==> bytesRead > 0
      ensures old(status) != Connected ==> bytesRead == 0 && status == old(status) && buffer[..] == old(buffer[..])
      ensures old(status) == Connected ==> buffer[..bytesRead] == old(Pending())[..bytesRead]
      ensures old(status) == Connected ==> buffer[bytesRead] == '\0'
      // without a receive error the line is a function of the stream alone
      ensures old(status) == status == Connected ==>
        buffer[..bytesRead] == FirstLine(old(Pending()), size - 1)
      // a receive error cuts the line short of that, and nothing is left in the buffer
      ensures old(status) == Connected && status != Connected ==>
        status == Broken && socket.failed && bufAvail == 0 && bytesRead < size - 1 && '\n' !in buffer[..bytesRead]
      ensures Clean() ==> old(Clean())
      ensures old(Clean()) && status == Connected ==> Clean()
      ensures totalBytesRead - old(totalBytesRead) == socket.taken - old(socket.taken)
    {
      ok, bytesRead := false, 0;
      ghost var all := Pending();
      assert all[0..] == all;
      if status != Connected {
        return;
      }
      bytesRead := ReadLineLoop(buffer, size, all);
      assert buffer[..bytesRead] == all[..bytesRead];
      if status == Connected {
        FirstLineIsUnique(all, size - 1, bytesRead);
      }
      ghost var line := buffer[..bytesRead];
      buffer[bytesRead] := '\0';
      assert buffer[..bytesRead] == line;
      ok := bytesRead > 0;
    }

    /** A receive straight from the socket; octets still in the read buffer are passed over. */
    method TryRecv(buffer: array<char>, size: nat) returns (received: int)
      requires Valid() && 0 < size <= buffer.Length && buffer != readBuf
      modifies this`totalBytesRead, socket, buffer
      ensures Valid() && received <= size
      ensures received <= 0 ==> Pending() == old(Pending())
      ensures received < 0 ==> socket.failed
      ensures received == 0 ==> socket.Remaining() == []
      ensures received > 0 ==> received <= |old(socket.Remaining())|
      ensures received > 0 ==> buffer[..received] == old(socket.Remaining())[..received]
      ensures received > 0 ==> Buffered() == old(Buffered())
      ensures received > 0 ==> socket.Remaining() == old(socket.Remaining())[received..]
      ensures received >= 0 ==> socket.failed == old(socket.failed)
      ensures Clean() ==> old(Clean())
      ensures totalBytesRead - old(totalBytesRead) == socket.taken - old(socket.taken)
    {
      forall i | 0 <= i < size {
        buffer[i] := '\0';
      }
      received := socket.Receive(buffer, 0, size);
      if received >= 0 {
        totalBytesRead := totalBytesRead + received;
      }
    }

    /** One receive of Recv, straight into the caller's buffer. */
    method RecvPart(buffer: array<char>, at: nat, size: nat, ghost all: seq<char>) returns (received: int)
      requires at < size <= buffer.Length && buffer != readBuf && bufAvail == 0 && ReadTo(all, at)
      modifies this`totalBytesRead, socket, buffer
      ensures received <= size - at && ReadTo(all, at + if received > 0 then received else 0)
      ensures received < 0 ==> socket.failed
      ensures received == 0 ==> at == |all|
      ensures received >= 0 ==> socket.failed == old(socket.failed)
      ensures Clean() ==> old(Clean())
      ensures forall k :: at <= k < at + received ==> buffer[k] == all[k]
      ensures forall k :: 0 <= k < at || at + (if received > 0 then received else 0) <= k < buffer.Length ==>
        buffer[k] == old(buffer[k])
      ensures totalBytesRead - old(totalBytesRead) == socket.taken - old(socket.taken)
    {
      ghost var rest := socket.Remaining();
      assert Buffered() == [] && rest == all[at..];
      received := socket.Receive(buffer, at, size - at);
      if received > 0 {
        DropFront(rest, [], all, at, received);
        assert socket.Remaining() == rest[received..];
        totalBytesRead := totalBytesRead + received;
      }
    }

    /** The loop of Recv: fill buffer[at..size] from the socket. */
    method RecvRest(buffer: array<char>, at: nat, size: nat, ghost all: seq<char>) returns (ok: bool, filled: nat)
      requires at <= size <= buffer.Length && buffer != readBuf
      requires bufAvail == 0 || at == size
      requires ReadTo(all, at)
      modifies this`totalBytesRead, socket, buffer
      ensures at <= filled <= size && ReadTo(all, filled)
      ensures ok <==> filled == size
      ensures !ok ==> socket.failed || filled == |all|
      ensures Clean() ==> old(Clean())
      ensures forall k :: at <= k < filled ==> buffer[k] == all[k]
      ensures forall k :: 0 <= k < at || filled <= k < buffer.Length ==> buffer[k] == old(buffer[k])
      ensures totalBytesRead - old(totalBytesRead) == socket.taken - old(socket.taken)
    {
      var got := at;
      while got < size
        invariant at <= got <= size && ReadTo(all, got) && socket.failed == old(socket.failed)
        invariant forall k :: at <= k < got ==> buffer[k] == all[k]
        invariant forall k :: 0 <= k < at || got <= k < buffer.Length ==> buffer[k] == old(buffer[k])
        invariant totalBytesRead - old(totalBytesRead) == socket.taken - old(socket.taken)
      {
        var received := RecvPart(buffer, got, size, all);
        if received <= 0 {
          return false, got;
        }
        got := got + received;
      }
      ok, filled := true, got;
    }

    /** Receive exactly `size` octets, or report failure after delivering the `filled` octets that did arrive. */
    method Recv(buffer: array<char>, size: nat) returns (ok: bool, filled: nat)
      requires Valid() && size <= buffer.Length && buffer != readBuf
      modifies this, socket, buffer
      ensures Valid() && status == old(status) && filled <= size && filled <= |old(Pending())|
      ensures ok <==> filled == size
      ensures !ok ==> socket.failed || filled == |old(Pending())|
      ensures Clean() ==> old(Clean())
      ensures buffer[..filled] == old(Pending())[..filled] && Pending() == old(Pending())[filled..]
      ensures forall k :: filled <= k < size ==> buffer[k] == '\0'
      ensures totalBytesRead - old(totalBytesRead) == socket.taken - old(socket.taken)
    {
      ghost var all := Pending();
      forall i | 0 <= i < size {
        buffer[i] := '\0';
      }
      var at := 0;
      if bufAvail > 0 {
        at := if size > bufAvail then bufAvail else size;
        TakeBuffered(buffer, 0, at, all, 0);
      }
      ok, filled := RecvRest(buffer, at, size, all);
    }

    /** Hands out whatever is buffered, as a slice of the read buffer, without touching the socket. */
    method ReadBuffer() returns (ptr: nat, len: nat)
      requires Valid()
      modifies this`bufAvail
      ensures Valid() && ptr + len <= readBuf.Length && len == old(bufAvail)
      ensures readBuf[ptr..ptr + len] == old(Pending())[..len] && Pending() == old(Pending())[len..]
      ensures bufAvail == 0
    {
      len, ptr := bufAvail, bufPtr;
      bufAvail := 0;
    }
  }

  /** memcpy */
  method Copy(src: array<char>, from: nat, dst: array<char>, to: nat, len: nat)
    requires src != dst && from + len <= src.Length && to + len <= dst.Length
    modifies dst
    ensures forall k :: to <= k < to + len ==> dst[k] == src[from + k - to]
    ensures forall k :: 0 <= k < to || to + len <= k < dst.Length ==> dst[k] == old(dst[k])
  {
    forall i | 0 <= i < len {
      dst[to + i] := src[from + i];
    }
  }

  lemma DropFront(front: seq<char>, back: seq<char>, all: seq<char>, at: nat, len: nat)
    requires at <= |all| && front + back == all[at..] && len <= |front|
    ensures front[len..] + back == all[at + len..]
  {
    assert front[len..] + back == (front + back)[len..];
  }

  /** What a client may ask of a connection, with the size of the buffer it passes. */
  datatype Call =
    | LineCall(size: nat)
    | RecvCall(size: nat)
    | BodyCall(size: nat)  // ReadBuffer, then TryRecv when nothing was buffered

  /** How many octets of `s` one error-free LineCall or RecvCall delivers. */
  function Portion(s: seq<char>, call: Call): (n: nat)
    ensures n <= |s|
  {
    if call.LineCall? then |FirstLine(s, if call.size == 0 then 0 else call.size - 1)| else Min(call.size, |s|)
  }

  /** How many octets of `s` a run of error-free LineCalls and RecvCalls delivers. */
  function Portions(s: seq<char>, calls: seq<Call>): (n: nat)
    ensures n <= |s|
  {
    if calls == [] then 0
    else var n := Portion(s, calls[0]); n + Portions(s[n..], calls[1..])
  }

  lemma Chain(all: seq<char>, a: nat, b: nat)
    requires a + b <= |all|
    ensures all[..a] + all[a..][..b] == all[..a + b]
    ensures all[a..][b..] == all[a + b..]
  {
  }

  method Perform(c: Connection, call: Call) returns (out: seq<char>)
    requires c.Valid() && call.size > 0
    modifies c, c.socket, c.readBuf
    ensures c.Valid() && |out| <= |old(c.Pending())|
    ensures out == old(c.Pending())[..|out|] && c.Pending() == old(c.Pending())[|out|..]
    ensures c.Clean() ==> old(c.Clean())
    ensures c.Clean() && !call.BodyCall? ==> |out| == Portion(old(c.Pending()), call)
  {
    var buffer := new char[call.size];
    match call {
      case LineCall(size) =>
        out := PerformLine(c, buffer);
      case RecvCall(size) =>
        var _, k := c.Recv(buffer, size);
        out := buffer[..k];
      case BodyCall(size) =>
        var k;
        out, k := ReadBody(c, buffer);
    }
  }

  method PerformLine(c: Connection, buffer: array<char>) returns (out: seq<char>)
    requires c.Valid() && 0 < buffer.Length && buffer != c.readBuf
    modifies c, c.socket, c.readBuf, buffer
    ensures c.Valid() && |out| <= |old(c.Pending())|
    ensures out == old(c.Pending())[..|out|] && c.Pending() == old(c.Pending())[|out|..]
    ensures c.Clean() ==> old(c.Clean()) && out == FirstLine(old(c.Pending()), buffer.Length - 1)
  {
    var ok, k := c.ReadLine(buffer, buffer.Length);
    out := if ok then buffer[..k] else [];
    assert |out| == k;
  }

  /** The read of a body loop: what is still buffered first, otherwise straight from the socket. */
  method ReadBody(c: Connection, buffer: array<char>) returns (out: seq<char>, len: int)
    requires c.Valid() && 0 < buffer.Length && buffer != c.readBuf
    modifies c`bufAvail, c`totalBytesRead, c.socket, buffer
    ensures c.Valid() && |out| == (if len > 0 then len else 0) <= |old(c.Pending())|
    ensures out == old(c.Pending())[..|out|] && c.Pending() == old(c.Pending())[|out|..]
    ensures len == 0 ==> c.Pending() == []
    ensures len < 0 ==> c.socket.failed
    ensures c.Clean() ==> old(c.Clean())
  {
    var ptr;
    ptr, len := c.ReadBuffer();
    out := c.readBuf[ptr..ptr + len];
    if len == 0 {
      len := c.TryRecv(buffer, buffer.Length);
      out := if len > 0 then buffer[..len] else [];
    }
  }

  /** Any mix of calls, over any chunking and any receive errors, hands out the stream: nothing lost, repeated or
      reordered. Without BodyCalls and errors even the number of octets is a function of the stream. */
  method Deliver(c: Connection, calls: seq<Call>) returns (out: seq<char>)
    requires c.Valid() && forall i :: 0 <= i < |calls| ==> calls[i].size > 0
    modifies c, c.socket, c.readBuf
    ensures c.Valid() && |out| <= |old(c.Pending())|
    ensures out == old(c.Pending())[..|out|] && c.Pending() == old(c.Pending())[|out|..]
    ensures c.Clean() ==> old(c.Clean())
    ensures c.Clean() && (forall i :: 0 <= i < |calls| ==> !calls[i].BodyCall?) ==>
      |out| == Portions(old(c.Pending()), calls)
  {
    if calls == [] {
      return [];
    }
    ghost var all := c.Pending();
    var first := Perform(c, calls[0]);
    ghost var k, mid := |first|, c.Pending();
    assert mid == all[k..];
    var rest := Deliver(c, calls[1..]);
    Chain(all, k, |rest|);
    out := first + rest;
  }
}
