/** The downloader of daemon/connect/WebDownloader.cpp: one request, its redirects, and the retry loop around them. */
module WebDownloads {
  import opened Wrappers
  import opened Connections
  import opened HttpHeaders
  import opened HeadReading

  predicate EndsHead(status: EStatus) {
    status.adRunning? || status.adFailed? || status.adNotFound? || status.adRedirect? || status.adConnectError?
  }

  predicate EndsRequest(status: EStatus) {
    !status.adUndefined? && !status.adRunning? && !status.adRetry?
  }

  /** The requests since `before`: redirects, and the last one, whose status is kept unless it is a redirect too. */
  predicate Followed(before: seq<EStatus>, statuses: seq<EStatus>, maxRedirects: int, status: EStatus) {
    && |statuses| > |before| && statuses[..|before|] == before
    && (forall i :: |before| <= i < |statuses| - 1 ==> statuses[i] == adRedirect)
    && var last := statuses[|statuses| - 1];
       if last == adRedirect then status == adFailed && |statuses| - |before| == maxRedirects + 1 else status == last
  }

  /** The attempts since `before` that were charged to the tries: `d` failed downloads and `c` failed connections. */
  predicate Charged(before: seq<EStatus>, ends: seq<EStatus>, d: nat, c: nat) {
    && |before| + d + c <= |ends| && ends[..|before|] == before
    && var tries := multiset(ends[|before|..][..d + c]);
       tries[adFailed] == d && tries[adConnectError] == c
  }

  class WebDownloader {
    var contentLen: int
    var confirmedLength: bool
    var gzip: bool
    var redirecting: bool
    var redirected: bool
    var stopped: bool
    var outActive: bool
    var outFile: Option<seq<char>>  // the file at the output path
    var notified: seq<EStatus>      // every status the observers were told
    var requests: nat
    var paused: bool                // downloads were paused when Run last looked
    const force: bool
    const retry: bool
    ghost var statuses: seq<EStatus>  // how every request ended
    ghost var ends: seq<EStatus>      // how every attempt ended, its redirects followed
    // what the last request met
    ghost var connected: bool
    ghost var answer: seq<char>     // all that the peer sends before it closes
    ghost var bodyStart: nat        // after how many octets of it the head was taken to end
    ghost var deliveries: seq<Delivery>  // the chunks of its body, and what the disk took of each
    ghost var intact: bool          // no receive error while its head was read
    ghost var undisturbed: bool     // no receive or write error and no stop at all
    ghost var diskFailed: bool      // the file could not be created, or took less than it was given

    function CurrentHead(): Head
      reads this
    {
      Head(contentLen, confirmedLength, gzip, redirecting, redirected)
    }

    /** Another thread may call Stop, which also cancels the connection, between any two steps. */
    method IsStopped(c: Connection) returns (b: bool)
      modifies this`stopped, c`status
      ensures b == stopped && (old(stopped) ==> stopped)
      ensures c.status == old(c.status) || (stopped && c.status == Cancelled)
    {
      var cancelNow: bool := *;
      if cancelNow {
        stopped, c.status := true, Cancelled;
      }
      b := stopped;
    }

    method ProcessHeader(line: seq<char>)
      modifies this`contentLen, this`confirmedLength, this`gzip, this`redirected
      ensures CurrentHead() == AddHeader(old(CurrentHead()), line)
    {
      if HasName(line, "Content-Length: ") {
        contentLen, confirmedLength := Atoi(line[16..]), true;
      } else if HasName(line, "Content-Encoding: gzip") {
        gzip := true;
      } else if HasName(line, "Content-Disposition: ") {
        // the original file name is not part of this model
      } else if redirecting && HasName(line, "Location: ") {
        redirected := true;
      }
    }

    /** ReadLine into the line buffer, and the C string that the buffer then holds. A line cut by a receive error is the
        line that the octets so far would make. */
    method ReadCString(c: Connection, lineBuf: array<char>) returns (ok: bool, line: seq<char>, ghost k: nat)
      requires c.Valid() && lineBuf.Length == LINE_BUFFER_SIZE && lineBuf != c.readBuf
      modifies c, c.socket, c.readBuf, lineBuf
      ensures c.ReadTo(old(c.Pending()), k)
      ensures (c.Clean() ==> old(c.Clean())) && (old(c.Clean()) && c.status == Connected ==> c.Clean())
      ensures c.status == old(c.status) || (c.status == Broken && old(c.status) == Connected)
      ensures (ok <==> k > 0) && (ok ==> lineBuf[0] == old(c.Pending())[0])
      ensures var rest := old(c.Pending());
        if old(c.status) != Connected then k == 0
        else NextLine(rest[..CameTo(rest, k, c.status)]) == rest[..k] && line == CString(rest[..k])
      ensures old(c.status) == Connected != c.status ==>
        k < LINE_BUFFER_SIZE - 1 && '\n' !in old(c.Pending())[..k]
    {
      ghost var rest := c.Pending();
      var n;
      ok, n := c.ReadLine(lineBuf, LINE_BUFFER_SIZE);
      k := n;
      line := CString(lineBuf[..]);
      if old(c.status) == Connected {
        CStringEndsAtNul(lineBuf[..], k);
        assert lineBuf[..][..k] == lineBuf[..k] == rest[..k];
        ReadIsNext(rest, k, c.status == Connected);
      }
      assert ok ==> lineBuf[..k][0] == rest[..k][0];
    }

    /** The next line of the stream `all`, read up to `at`. */
    method ReadHeaderLine(c: Connection, lineBuf: array<char>, ghost all: seq<char>, ghost at: nat)
      returns (ok: bool, line: seq<char>, ghost n: nat)
      requires c.ReadTo(all, at) && lineBuf.Length == LINE_BUFFER_SIZE && lineBuf != c.readBuf
      modifies c, c.socket, c.readBuf, lineBuf
      ensures at <= n && c.ReadTo(all, n)
      ensures (c.Clean() ==> old(c.Clean())) && (old(c.Clean()) && c.status == Connected ==> c.Clean())
      ensures IsReading(all, at, n, old(c.status), c.status, ok, line, lineBuf[0])
    {
      ghost var k;
      ok, line, k := ReadCString(c, lineBuf);
      n := at + k;
      assert all[at..][k..] == all[n..];
      ReadingOf(all, at, k, old(c.status), c.status, ok, line, lineBuf[0]);
    }

    method CheckResponse(response: seq<char>) returns (status: EStatus)
      modifies this`redirecting
      ensures status == ResponseStatus(response)
      ensures redirecting == (old(redirecting) || IsRedirection(response))
      ensures IsRedirection(response) ==> status == adRunning
    {
      if !IsHttp(response) {
        return adFailed;
      }
      var code := AfterSpace(response);
      assert IsRedirection(response) ==> code[0] == '3';
      if StartsWith(code, "400") || StartsWith(code, "499") {
        return adConnectError;
      } else if StartsWith(code, "404") {
        return adNotFound;
      } else if StartsWith(code, "301") || StartsWith(code, "302") || StartsWith(code, "303") ||
                StartsWith(code, "307") || StartsWith(code, "308") {
        redirecting := true;
        return adRunning;
      } else if StartsWith(code, "200") {
        return adRunning;
      }
      status := adFailed;
    }

    predicate FreshHead()
      reads this
    {
      CurrentHead() == Head(-1, false, false, false, false)
    }

    /** What the loop of DownloadHeaders does with a line it read, up to its `break` when `done`. */
    method HandleLine(ok: bool, line: seq<char>, lead: char, firstLine: bool) returns (status: EStatus, done: bool)
      requires firstLine ==> FreshHead()
      modifies this`contentLen, this`confirmedLength, this`gzip, this`redirecting, this`redirected
      ensures Turn(status, done, CurrentHead()) == HandledLine(old(CurrentHead()), ok, line, lead, firstLine)
    {
      status, done := adRunning, true;
      if firstLine {
        status := CheckResponse(line);
        if status != adRunning {
          return;
        }
      }
      if !ok {
        status := adFailed;
        return;
      }
      if lead == '\r' || lead == '\n' {
        return;
      }
      ProcessHeader(TrimRight(line));
      if redirected {
        status := adRedirect;
        return;
      }
      done := false;
    }

    /** One turn of the loop of DownloadHeaders. */
    method HeaderTurn(c: Connection, lineBuf: array<char>, firstLine: bool,
                      ghost all: seq<char>, ghost at: nat, ghost sure: bool)
      returns (status: EStatus, done: bool, ghost n: nat)
      requires c.ReadTo(all, at) && lineBuf.Length == LINE_BUFFER_SIZE && lineBuf != c.readBuf
      requires firstLine ==> at == 0 && FreshHead()
      requires sure ==> GoesOn(all, at, c.status, firstLine, false, adRunning, CurrentHead())
      modifies this`contentLen, this`confirmedLength, this`gzip, this`redirecting, this`redirected
      modifies c, c.socket, c.readBuf, lineBuf
      ensures at <= n && c.ReadTo(all, n)
      ensures c.status == old(c.status) || c.status == Broken
      ensures (c.Clean() ==> old(c.Clean())) && (old(c.Clean()) && c.status == Connected ==> c.Clean())
      ensures EndsHead(status) && (!done ==> at < n && status == adRunning)
      ensures old(c.status) != Connected ==> done && status != adRunning
      ensures sure ==> GoesOn(all, n, c.status, false, done, status, CurrentHead())
    {
      ghost var before, h := c.status, CurrentHead();
      var ok, line;
      ok, line, n := ReadHeaderLine(c, lineBuf, all, at);
      if sure {
        TurnGoesOn(all, at, n, before, c.status, ok, line, lineBuf[0], firstLine, h);
      }
      status, done := HandleLine(ok, line, lineBuf[0], firstLine);
    }

    /** Reads the response head, unless stopped: it is what the octets say that came, all of them or, after a receive
        error, the first `n`. The connection is left `n` octets on, where the body is taken to start. */
    method DownloadHeaders(c: Connection) returns (status: EStatus, ghost n: nat)
      requires c.Valid()
      modifies this`contentLen, this`confirmedLength, this`gzip, this`redirecting, this`redirected, this`stopped
      modifies c, c.socket, c.readBuf
      ensures c.ReadTo(old(c.Pending()), n) && (old(stopped) ==> stopped)
      ensures c.Clean() ==> old(c.Clean())
      ensures EndsHead(status)
      ensures old(c.Clean()) && !stopped ==> HeadRead(old(c.Pending()), n, c.Clean(), status, CurrentHead())
      ensures old(c.status) != Connected && !stopped ==> status != adRunning
    {
      ghost var all, clean := c.Pending(), c.Clean();
      assert all[0..] == all;
      confirmedLength, contentLen, gzip, redirecting, redirected := false, -1, false, false, false;
      var lineBuf := new char[LINE_BUFFER_SIZE];
      var firstLine, done := true, false;
      status, n := adRunning, 0;
      HeadBegins(all, CurrentHead());
      while !done
        invariant c.ReadTo(all, n) && fresh(lineBuf)
        invariant (old(stopped) ==> stopped) && (c.Clean() ==> clean)
        invariant EndsHead(status)
        invariant !done && firstLine ==> n == 0 && FreshHead()
        invariant old(c.status) != Connected && !stopped ==> c.status != Connected && (done ==> status != adRunning)
        invariant clean && !stopped && c.status == Connected ==> c.Clean()
        invariant clean && !stopped ==> GoesOn(all, n, c.status, firstLine, done, status, CurrentHead())
        decreases !done, |all| - n
      {
        var stop := IsStopped(c);
        if stop {
          break;
        }
        status, done, n := HeaderTurn(c, lineBuf, firstLine, all, n, clean);
        firstLine := false;
      }
      if clean && !stopped {
        HeadIsRead(all, n, c.status, firstLine, status, CurrentHead());
      }
    }

    /** Appends to the output file, creating it on the first write. fwrite takes any number of octets up to all; only
        none counts as a failure. */
    method Write(chunk: seq<char>) returns (ok: bool, ghost taken: nat)
      requires chunk != [] && (outActive ==> outFile.Some?)
      modifies this`outActive, this`outFile, this`diskFailed
      ensures taken <= |chunk| && diskFailed == (old(diskFailed) || taken < |chunk|)
      ensures ok <==> taken > 0
      ensures ok ==> outActive && outFile == Some((if old(outActive) then old(outFile.value) else []) + chunk[..taken])
    {
      var canCreate: bool := *;
      if !outActive {
        if !canCreate {
          diskFailed := true;
          return false, 0;
        }
        outActive, outFile := true, Some([]);
      }
      var written: nat :| written <= |chunk|;
      outFile, taken := Some(outFile.value + chunk[..written]), written;
      diskFailed := diskFailed || written < |chunk|;
      ok := written > 0;
    }

    /** The first `n` octets of the body have come, and the output file has what the disk took of them. */
    ghost predicate Holds(all: seq<char>, n: nat)
      reads this
    {
      && AreHandled(all, n, deliveries) && diskFailed == IsShort(deliveries)
      && (outActive <==> deliveries != []) && (outActive ==> outFile == Some(Kept(deliveries)))
    }

    /** Content-Length -1 beside a gzip header: built without gzip, the code then takes the first chunk for all. */
    predicate EndsAtOnce()
      reads this
    {
      contentLen == -1 && gzip && confirmedLength
    }

    /** One chunk of the body goes to the output file. */
    method WriteChunk(chunk: seq<char>, ghost all: seq<char>, ghost n: nat) returns (ok: bool)
      requires Holds(all, n) && chunk != [] && n + |chunk| <= |all| && chunk == all[n..][..|chunk|]
      modifies this`outActive, this`outFile, this`diskFailed, this`deliveries
      ensures ok ==> Holds(all, n + |chunk|) && Sums(deliveries) == old(Sums(deliveries)) + {n + |chunk|}
      ensures ok ==> |deliveries| == old(|deliveries|) + 1
      ensures !ok ==> diskFailed
    {
      ghost var ds := deliveries;
      ghost var taken;
      ok, taken := Write(chunk);
      if ok {
        HandleMore(all, n, ds, chunk, taken);
        OneMore(ds, chunk, taken);
        assert taken == |chunk| ==> chunk[..taken] == chunk;
        deliveries := ds + [Delivery(chunk, taken)];
      }
    }

    /** The body is being received, and nothing so far has completed the download. */
    ghost predicate Continues(all: seq<char>, n: nat)
      reads this
    {
      Holds(all, n) && contentLen !in Sums(deliveries) && (EndsAtOnce() ==> deliveries == [])
    }

    /** The body has completed the download after `n` octets, with the last read or by connection close. */
    ghost predicate Completes(all: seq<char>, n: nat)
      reads this
    {
      && Holds(all, n) && 0 < n && (EndsAtOnce() ==> |deliveries| == 1)
      && (n == contentLen || EndsAtOnce() || (contentLen == -1 && n == |all|))
      && (contentLen != -1 ==> contentLen in Sums(deliveries))
    }

    /** The body has come to its end without completing the download. */
    ghost predicate IsOver(all: seq<char>)
      reads this
    {
      Holds(all, |all|) && contentLen !in Sums(deliveries) && (contentLen == -1 ==> all == [])
    }

    /** What the loop of DownloadBody does with a chunk. */
    method TakeChunk(chunk: seq<char>, writtenLen: nat, ghost all: seq<char>) returns (ok: bool, end: bool)
      requires Continues(all, writtenLen)
      requires chunk != [] && writtenLen + |chunk| <= |all| && chunk == all[writtenLen..][..|chunk|]
      modifies this`outActive, this`outFile, this`diskFailed, this`deliveries
      ensures ok && end ==> Completes(all, writtenLen + |chunk|)
      ensures ok && !end ==> Continues(all, writtenLen + |chunk|)
      ensures !ok ==> diskFailed
    {
      ok := WriteChunk(chunk, all, writtenLen);
      end := writtenLen + |chunk| == contentLen || EndsAtOnce();
    }

    /** The next read of the body, of which `n` octets have come. */
    method ReadPart(c: Connection, lineBuf: array<char>, ghost all: seq<char>, ghost n: nat)
      returns (chunk: seq<char>, len: int)
      requires c.ReadTo(all, n) && 0 < lineBuf.Length && lineBuf != c.readBuf
      modifies c`bufAvail, c`totalBytesRead, c.socket, lineBuf
      ensures |chunk| == (if len > 0 then len else 0) && c.ReadTo(all, n + |chunk|)
      ensures chunk == all[n..][..|chunk|]
      ensures len == 0 ==> n == |all|
      ensures len < 0 ==> !c.Clean()
      ensures c.Clean() ==> old(c.Clean())
    {
      chunk, len := ReadBody(c, lineBuf);
      Chain(all, n, |chunk|);
    }

    /** One turn of the loop of DownloadBody: `end` when the body is complete, a status other than adRunning when it
        cannot become so. */
    method BodyTurn(c: Connection, lineBuf: array<char>, writtenLen: nat, ghost all: seq<char>)
      returns (status: EStatus, end: bool, written: nat)
      requires c.ReadTo(all, writtenLen) && Continues(all, writtenLen) && 0 < lineBuf.Length && lineBuf != c.readBuf
      modifies this`outActive, this`outFile, this`diskFailed, this`deliveries
      modifies c`bufAvail, c`totalBytesRead, c.socket, lineBuf
      ensures c.Valid() && (c.Clean() ==> old(c.Clean()))
      ensures status in {adRunning, adFailed, adFatalError} && (end ==> status == adRunning)
      ensures writtenLen <= written <= |all| && (status == adRunning && !end ==> writtenLen < written)
      ensures status == adRunning && !end ==> c.ReadTo(all, written) && Continues(all, written)
      ensures end ==> Completes(all, written)
      ensures status == adFailed && c.Clean() ==> IsOver(all)
      ensures status == adFatalError ==> diskFailed
    {
      status, end, written := adRunning, false, writtenLen;
      var chunk, len := ReadPart(c, lineBuf, all, writtenLen);
      if len <= 0 {
        if len == 0 && contentLen == -1 && writtenLen > 0 {
          end := true;
        } else {
          status := adFailed;
        }
        return;
      }
      var ok;
      ok, end := TakeChunk(chunk, writtenLen, all);
      if !ok {
        status, end := adFatalError, false;
        return;
      }
      written := writtenLen + len;
    }

    /** The loop of DownloadBody: `end` when it has received a complete body. */
    method BodyLoop(c: Connection, ghost all: seq<char>) returns (status: EStatus, end: bool)
      requires c.ReadTo(all, 0) && !diskFailed && deliveries == [] && !outActive
      modifies this`stopped, this`outActive, this`outFile, this`diskFailed, this`deliveries
      modifies c, c.socket
      ensures c.Valid() && (old(stopped) ==> stopped)
      ensures c.Clean() ==> old(c.Clean())
      ensures status in {adRunning, adFailed, adFatalError} && (end ==> status == adRunning)
      ensures status == adRunning && !end ==> stopped
      ensures status == adFatalError ==> diskFailed
      ensures end ==> exists n: nat :: n <= |all| && Completes(all, n)
      ensures status == adFailed && c.Clean() ==> IsOver(all)
    {
      status, end := adRunning, false;
      var lineBuf := new char[LINE_BUFFER_SIZE];
      var writtenLen := 0;
      while status == adRunning && !end
        invariant c.Valid() && 0 <= writtenLen <= |all| && fresh(lineBuf)
        invariant (old(stopped) ==> stopped) && (c.Clean() ==> old(c.Clean()))
        invariant status in {adRunning, adFailed, adFatalError} && (end ==> status == adRunning)
        invariant status == adRunning && !end ==> c.ReadTo(all, writtenLen) && Continues(all, writtenLen)
        invariant end ==> Completes(all, writtenLen)
        invariant status == adFailed && c.Clean() ==> IsOver(all)
        invariant status == adFatalError ==> diskFailed
        decreases |all| - writtenLen, status == adRunning && !end
      {
        var stop := IsStopped(c);
        if stop {
          break;
        }
        status, end, writtenLen := BodyTurn(c, lineBuf, writtenLen, all);
      }
    }

    /** All reads of the body: `end` with its content in the file, or a status that says why not. */
    method ReceiveBody(c: Connection, ghost all: seq<char>) returns (status: EStatus, end: bool)
      requires c.ReadTo(all, 0) && !diskFailed && deliveries == [] && !outActive
      modifies this`stopped, this`outActive, this`outFile, this`diskFailed, this`deliveries
      modifies c, c.socket
      ensures c.Valid() && (old(stopped) ==> stopped)
      ensures c.Clean() ==> old(c.Clean())
      ensures status in {adRunning, adFailed, adFatalError} && (end ==> status == adRunning)
      ensures status == adRunning && !end ==> stopped
      ensures status == adFatalError ==> diskFailed
      ensures end ==> outFile.Some? && outFile.value in Contents(CurrentHead(), all, deliveries)
      ensures end ==> diskFailed == IsShort(deliveries) && (EndsAtOnce() ==> |deliveries| == 1)
      ensures end ==> adFinished in BodyEnds(CurrentHead(), all, deliveries)
      ensures status == adFailed && c.Clean() ==> adFailed in BodyEnds(CurrentHead(), all, deliveries)
    {
      status, end := BodyLoop(c, all);
      if end {
        ghost var n: nat :| n <= |all| && Completes(all, n);
        CompleteSettles(CurrentHead(), all, n, deliveries);
      } else if status == adFailed {
        OverSettles(CurrentHead(), all, deliveries);
      }
    }

    method DownloadBody(c: Connection) returns (status: EStatus)
      requires c.Valid() && !diskFailed
      modifies this`stopped, this`outActive, this`outFile, this`diskFailed, this`deliveries
      modifies c, c.socket
      ensures c.Valid() && (old(stopped) ==> stopped)
      ensures c.Clean() ==> old(c.Clean())
      ensures status in {adRunning, adFinished, adFailed, adFatalError}
      ensures status == adRunning ==> stopped
      ensures status == adFinished ==>
        outFile.Some? && outFile.value in Contents(CurrentHead(), old(c.Pending()), deliveries)
      ensures status == adFinished ==> diskFailed == IsShort(deliveries) && (EndsAtOnce() ==> |deliveries| == 1)
      ensures c.Clean() && !stopped && !diskFailed ==> status in BodyEnds(CurrentHead(), old(c.Pending()), deliveries)
    {
      outActive, deliveries := false, [];
      ghost var all := c.Pending();
      assert all[0..] == all;
      var end;
      status, end := ReceiveBody(c, all);
      outActive := false;
      if !end && status == adRunning {
        var stop := IsStopped(c);
        if !stop {
          status := adFailed;
        }
      }
      if end {
        status := adFinished;
      }
    }

    /** The head of the answer. If the request was not sent, the line buffer is read unwritten, and no body follows. */
    method ReadHead(c: Connection) returns (status: EStatus)
      requires c.ReadTo(answer, 0) && (c.status == Connected ==> c.Clean())
      modifies this`contentLen, this`confirmedLength, this`gzip, this`redirecting, this`redirected, this`stopped
      modifies this`bodyStart, this`intact
      modifies c, c.socket, c.readBuf
      ensures old(stopped) ==> stopped
      ensures c.ReadTo(answer, bodyStart) && intact == c.Clean() && (intact ==> old(c.Clean()))
      ensures EndsHead(status)
      ensures old(c.Clean()) && !stopped ==> HeadRead(answer, bodyStart, intact, status, CurrentHead())
      ensures status == adRunning && !stopped ==> old(c.Clean())
    {
      ghost var all := answer;
      assert all[0..] == all == c.Pending();
      status, bodyStart := DownloadHeaders(c);
      intact := c.Clean();
    }

    /** The head of the answer and, if it is to be read on, the body. */
    method ReadAnswer(c: Connection) returns (status: EStatus, ghost headStatus: EStatus)
      requires c.ReadTo(answer, 0) && (c.status == Connected ==> c.Clean()) && !diskFailed
      modifies this`contentLen, this`confirmedLength, this`gzip, this`redirecting, this`redirected, this`stopped
      modifies this`outActive, this`outFile, this`diskFailed, this`deliveries, this`bodyStart, this`intact
      modifies c, c.socket, c.readBuf
      ensures (old(stopped) ==> stopped) && (c.Clean() ==> intact && old(c.Clean())) && bodyStart <= |answer|
      ensures EndsHead(headStatus) && (headStatus != adRunning ==> status == headStatus)
      ensures headStatus == adRunning ==> status in {adRunning, adFinished, adFailed, adFatalError}
      ensures headStatus == status == adRunning ==> stopped
      ensures headStatus == adRunning && !stopped ==> old(c.Clean())
      ensures old(c.Clean()) && !stopped ==> HeadRead(answer, bodyStart, intact, headStatus, CurrentHead())
      ensures status == adFinished ==>
        outFile.Some? && outFile.value in Contents(CurrentHead(), answer[bodyStart..], deliveries)
      ensures status == adFinished ==> diskFailed == IsShort(deliveries)
      ensures headStatus == adRunning && c.Clean() && !stopped && !diskFailed ==>
        status in BodyEnds(CurrentHead(), answer[bodyStart..], deliveries)
    {
      status := ReadHead(c);
      headStatus := status;
      if status == adRunning {
        status := DownloadBody(c);
      }
    }

    /** The part of a request that talks to the peer. */
    method Fetch(c: Connection) returns (status: EStatus)
      requires c.ReadTo(answer, 0) && (c.status == Connected ==> c.Clean()) && !diskFailed
      modifies this`contentLen, this`confirmedLength, this`gzip, this`redirecting, this`redirected, this`stopped
      modifies this`outActive, this`outFile, this`diskFailed, this`deliveries, this`bodyStart, this`intact
      modifies this`undisturbed
      modifies c, c.socket, c.readBuf
      ensures old(stopped) ==> stopped
      ensures EndsRequest(status)
      ensures status == adFinished ==> !stopped && old(c.Clean()) && Delivered()
      ensures undisturbed ==> old(c.Clean()) && status in AnswerEnds(answer, deliveries)
    {
      ghost var headStatus;
      status, headStatus := ReadAnswer(c);
      var stop := IsStopped(c);
      undisturbed := c.Clean() && !stopped && !diskFailed;
      if stop {
        status := adFailed;
        return;
      }
      if undisturbed {
        OutcomeSettles(answer, bodyStart, headStatus, CurrentHead(), deliveries, status);
      }
      if status == adFinished {
        DeliverySettles(answer, bodyStart, intact, CurrentHead(), outFile.value, deliveries);
      }
    }

    /** What the last request left in the file. */
    ghost predicate Delivered()
      reads this`outFile, this`answer, this`bodyStart, this`intact, this`deliveries, this`diskFailed
    {
      && outFile.Some? && outFile.value in Deliverable(answer, bodyStart, intact, deliveries)
      && diskFailed == IsShort(deliveries)
    }

    /** A request over a connection that was made: it is sent, as far as the connection holds, and the answer read. */
    method Exchange(c: Connection) returns (status: EStatus)
      requires c.ReadTo(answer, 0) && c.Clean() && !diskFailed
      modifies this`contentLen, this`confirmedLength, this`gzip, this`redirecting, this`redirected, this`stopped
      modifies this`outActive, this`outFile, this`diskFailed, this`deliveries, this`bodyStart, this`intact
      modifies this`undisturbed
      modifies c, c.socket, c.readBuf
      ensures (old(stopped) ==> stopped) && EndsRequest(status)
      ensures status == adFinished <==> outFile.Some?
      ensures status == adFinished ==> !stopped && Delivered()
      ensures undisturbed ==> status in AnswerEnds(answer, deliveries)
    {
      SendHeaders(c);
      status := Fetch(c);
      if status != adFinished {
        outFile := None;
      }
    }

    /** One request. Which server answers, and whether it can be reached, is the environment's choice. */
    method Download() returns (status: EStatus)
      modifies this
      ensures requests == old(requests) + 1 && notified == old(notified) && (old(stopped) ==> stopped)
      ensures statuses == old(statuses) + [status] && ends == old(ends)
      ensures EndsRequest(status)
      ensures !connected ==> outFile == old(outFile) && (status == adFatalError || status == adConnectError)
      ensures connected ==> (status == adFinished <==> outFile.Some?)
      // the file is the body, for every chunking of the answer
      ensures status == adFinished ==> connected && !stopped && Delivered()
      ensures status == adFinished && intact && !diskFailed ==> IsDownload(answer, outFile.value)
      // and nothing but the answer, as it comes, decides how an undisturbed request ends
      ensures connected && undisturbed ==> status in AnswerEnds(answer, deliveries)
      ensures connected && undisturbed ==> status in ResponseOutcomes(answer)
    {
      requests, connected, diskFailed := requests + 1, false, false;
      status := Request();
      statuses := statuses + [status];
    }

    /** The body of Download, which keeps no record of how it ends. */
    method Request() returns (status: EStatus)
      requires !connected && !diskFailed
      modifies this`contentLen, this`confirmedLength, this`gzip, this`redirecting, this`redirected, this`stopped
      modifies this`outActive, this`outFile, this`diskFailed, this`deliveries, this`bodyStart, this`intact
      modifies this`undisturbed, this`connected, this`answer
      ensures (old(stopped) ==> stopped) && EndsRequest(status)
      ensures !connected ==> outFile == old(outFile) && (status == adFatalError || status == adConnectError)
      ensures connected ==> (status == adFinished <==> outFile.Some?)
      ensures status == adFinished ==> connected && !stopped && Delivered()
      ensures status == adFinished && intact && !diskFailed ==> IsDownload(answer, outFile.value)
      ensures connected && undisturbed ==> status in AnswerEnds(answer, deliveries)
      ensures connected && undisturbed ==> status in ResponseOutcomes(answer)
    {
      var validUrl: bool, reached: bool, cancelled: bool := *, *, *;
      if !validUrl {
        return adFatalError;
      }
      if cancelled {
        stopped := true;
      }
      if !reached || stopped {
        return adConnectError;
      }
      var sent: seq<char> := *;
      connected, answer := true, sent;
      var socket := new Socket(sent);
      var c := new Connection(socket);
      assert sent[0..] == sent;
      status := Exchange(c);
      AnswerEndsByLength(answer, deliveries, status);
      if status == adFinished {
        WholeDelivery(answer, bodyStart, intact, outFile.value, deliveries);
      }
    }

    /** Sending the request may break the connection, whatever the peer sends. */
    method SendHeaders(c: Connection)
      modifies c`status
      ensures c.status == old(c.status) || c.status == Broken
    {
      var sendFails: bool := *;
      if sendFails && c.status == Connected {
        c.status := Broken;
      }
    }

    method DownloadWithRedirects(maxRedirects: int) returns (status: EStatus)
      modifies this
      ensures requests - old(requests) <= if maxRedirects < 0 then 0 else maxRedirects + 1
      ensures requests - old(requests) == |statuses| - |old(statuses)|
      ensures if maxRedirects < 0 then status == adFailed else Followed(old(statuses), statuses, maxRedirects, status)
      ensures ends == old(ends) + [status]
      ensures requests >= old(requests) && notified == old(notified) && (old(stopped) ==> stopped)
      ensures EndsRequest(status) && status != adRedirect
      ensures status == adFinished ==> Delivered()
      ensures old(outFile).None? ==> (outFile.Some? <==> status == adFinished)
    {
      status := adRedirect;
      var left := maxRedirects;
      while status == adRedirect && left >= 0
        invariant requests - old(requests) == maxRedirects - left >= 0 && left <= maxRedirects
        invariant left >= -1 || left == maxRedirects
        invariant |statuses| - |old(statuses)| == maxRedirects - left && statuses[..|old(statuses)|] == old(statuses)
        invariant forall i :: |old(statuses)| <= i < |statuses| - 1 ==> statuses[i] == adRedirect
        invariant status == if left == maxRedirects then adRedirect else statuses[|statuses| - 1]
        invariant ends == old(ends) && notified == old(notified) && (old(stopped) ==> stopped)
        invariant EndsRequest(status)
        invariant status == adFinished ==> Delivered()
        invariant old(outFile).None? ==> (outFile.Some? <==> status == adFinished)
        decreases left
      {
        left := left - 1;
        status := Download();
      }
      if status == adRedirect && left < 0 {
        status := adFailed;
      }
      ends := ends + [status];
    }

    method SetStatus(status: EStatus)
      modifies this`notified
      ensures notified == old(notified) + [status]
    {
      notified := notified + [status];
    }

    /** Run gives up between attempts when it was stopped, or paused without being forced. */
    predicate MustEnd()
      reads this`stopped, this`paused
    {
      stopped || (!force && paused)
    }

    method Interrupted() returns (b: bool)
      modifies this`stopped, this`paused
      ensures (old(stopped) ==> stopped) && b == MustEnd()
    {
      var stopNow: bool, pause: bool := *, *;
      if stopNow {
        stopped := true;
      }
      paused := pause;
      b := stopped || (!force && paused);
    }

    /** The pause before the next attempt, cut short by an interruption. */
    method WaitToRetry(urlInterval: int)
      modifies this`stopped, this`paused
      ensures old(stopped) ==> stopped
    {
      var msec := 0;
      while msec < urlInterval * 1000
        invariant old(stopped) ==> stopped
      {
        var b := Interrupted();
        if b {
          return;
        }
        msec := msec + 100;
      }
    }

    /** One attempt, and the pause after it if there are tries left. */
    method Attempt(downloadRetries: nat, connectRetries: nat, urlInterval: int)
      returns (status: EStatus, interrupted: bool)
      modifies this
      ensures old(requests) <= requests <= old(requests) + 6 && notified == old(notified) && (old(stopped) ==> stopped)
      ensures Followed(old(statuses), statuses, 5, status) && ends == old(ends) + [status]
      ensures EndsRequest(status) && status != adRedirect
      ensures interrupted == MustEnd()
      ensures status == adFinished ==> Delivered()
      ensures old(outFile).None? ==> (outFile.Some? <==> status == adFinished)
    {
      status := DownloadWithRedirects(5);
      if (status == adFailed && downloadRetries > 1) || (status == adConnectError && connectRetries > 1) {
        WaitToRetry(urlInterval);
      }
      interrupted := Interrupted();
    }

    function DownloadTries(urlRetries: int): nat {
      if retry && urlRetries > 0 then urlRetries else 1
    }

    function ConnectTries(urlRetries: int): nat {
      if !retry then 1 else if urlRetries > 10 then urlRetries else 10
    }

    /** One turn of the loop of Run: an attempt, which ends the run or is charged to the tries of its kind. */
    method RunTurn(downloadRetries: nat, connectRetries: nat, urlInterval: int, ghost before: seq<EStatus>,
        ghost d: nat, ghost c: nat)
      returns (status: EStatus, end: bool, downloadsLeft: nat, connectsLeft: nat, ghost last: EStatus)
      requires 0 < downloadRetries && 0 < connectRetries
      requires Charged(before, ends, d, c) && |before| + d + c == |ends|
      modifies this
      ensures old(requests) <= requests <= old(requests) + 6 && notified == old(notified) && (old(stopped) ==> stopped)
      ensures |ends| == old(|ends|) + 1 && last == ends[|ends| - 1]
      ensures downloadsLeft == downloadRetries - (if !end && last == adFailed then 1 else 0)
      ensures connectsLeft == connectRetries - (if !end && last == adConnectError then 1 else 0)
      ensures Charged(before, ends, d + downloadRetries - downloadsLeft, c + connectRetries - connectsLeft)
      ensures if !end then !MustEnd() && status == last && last in {adFailed, adConnectError}
        else if MustEnd() then status == adRetry
        else status == last && last in {adFinished, adFatalError, adNotFound}
      ensures last == adFinished ==> Delivered()
      ensures old(outFile).None? ==> (outFile.Some? <==> last == adFinished)
    {
      downloadsLeft, connectsLeft := downloadRetries, connectRetries;
      ghost var ended := ends;
      status, end := Attempt(downloadRetries, connectRetries, urlInterval);
      last := status;
      ChargeOne(before, ended, d, c, status);
      if end {
        status := adRetry;
        return;
      }
      if status == adFinished || status == adFatalError || status == adNotFound {
        end := true;
        return;
      }
      if status != adConnectError {
        downloadsLeft := downloadRetries - 1;
      } else {
        connectsLeft := connectRetries - 1;
      }
    }

    /** The loop of Run, with D tries for failed downloads and C for failed connections. */
    method Attempts(D: nat, C: nat, urlInterval: int)
      returns (status: EStatus, attempts: nat, ghost last: EStatus,
               ghost failedDownloads: nat, ghost failedConnects: nat)
      requires 0 < D && 0 < C
      modifies this
      ensures notified == old(notified) && (old(stopped) ==> stopped)
      ensures 0 <= requests - old(requests) <= 6 * attempts
      ensures attempts == |ends| - |old(ends)| && (attempts > 0 ==> last == ends[|ends| - 1])
      ensures Charged(old(ends), ends, failedDownloads, failedConnects)
      ensures failedDownloads <= D && failedConnects <= C && (failedDownloads < D || failedConnects < C)
      ensures failedDownloads == D ==> last == adFailed
      ensures failedConnects == C ==> last == adConnectError
      ensures attempts == 0 ==> stopped
      ensures Charges(D, C, status, attempts, last, failedDownloads, failedConnects)
      ensures last == adFinished ==> Delivered()
      ensures old(outFile).None? ==> (outFile.Some? <==> last == adFinished)
    {
      var downloadRetries, connectRetries := D, C;
      status := adFailed;
      attempts, last, failedDownloads, failedConnects := 0, adFailed, 0, 0;
      while downloadRetries > 0 && connectRetries > 0
        invariant attempts == failedDownloads + failedConnects == |ends| - |old(ends)|
        invariant attempts > 0 ==> last == ends[|ends| - 1] && (force || !paused)
        invariant Charged(old(ends), ends, failedDownloads, failedConnects)
        invariant failedDownloads == D - downloadRetries && failedConnects == C - connectRetries
        invariant 0 <= downloadRetries <= D && 0 <= connectRetries <= C && (downloadRetries > 0 || connectRetries > 0)
        invariant (downloadRetries == 0 ==> last == adFailed) && (connectRetries == 0 ==> last == adConnectError)
        invariant 0 <= requests - old(requests) <= 6 * attempts
        invariant notified == old(notified) && (old(stopped) ==> stopped)
        invariant status == last && last in {adFailed, adConnectError}
        invariant old(outFile).None? ==> outFile.None?
        decreases downloadRetries + connectRetries
      {
        var stopNow: bool := *;
        if stopNow {
          stopped := true;
        }
        if stopped {
          return;
        }
        var end;
        status, end, downloadRetries, connectRetries, last :=
          RunTurn(downloadRetries, connectRetries, urlInterval, old(ends), failedDownloads, failedConnects);
        attempts, failedDownloads, failedConnects := attempts + 1, D - downloadRetries, C - connectRetries;
        if end {
          return;
        }
      }
    }

    /** How the attempts ended: all were charged until they were stopped or one kind of tries ran out, or the last one
        was not, being interrupted or final. */
    predicate Charges(D: nat, C: nat, status: EStatus, attempts: nat, last: EStatus, d: nat, c: nat)
      reads this`stopped, this`paused
    {
      if attempts == d + c then
        && status == last && last in {adFailed, adConnectError}
        && (stopped || d == D || c == C) && (attempts > 0 ==> force || !paused)
      else
        && attempts == d + c + 1 && d < D && c < C
        && if MustEnd() then status == adRetry else status == last && last in {adFinished, adFatalError, adNotFound}
    }

    method CountTries(urlRetries: int) returns (downloadRetries: nat, connectRetries: nat)
      ensures downloadRetries == DownloadTries(urlRetries) > 0 && connectRetries == ConnectTries(urlRetries) > 0
    {
      downloadRetries := if urlRetries > 0 then urlRetries else 1;
      connectRetries := if downloadRetries > 10 then downloadRetries else 10;
      if !retry {
        downloadRetries, connectRetries := 1, 1;
      }
    }

    /** Attempts a download until it succeeds, fails for good, is interrupted or runs out of retries: D failed downloads
        or C failed connections, whichever comes first. Observers see adRunning once and then one terminal status. */
    method Run(urlRetries: int, urlInterval: int)
      returns (final: EStatus, attempts: nat, ghost last: EStatus,
               ghost failedDownloads: nat, ghost failedConnects: nat)
      modifies this
      ensures attempts <= DownloadTries(urlRetries) + ConnectTries(urlRetries) - 1
      ensures requests - old(requests) <= 6 * attempts
      // every attempt but the one that ends the run is a failure, and is charged to the tries of its kind
      ensures attempts == |ends| - |old(ends)| && (attempts > 0 ==> last == ends[|ends| - 1])
      ensures Charged(old(ends), ends, failedDownloads, failedConnects)
      ensures failedDownloads + failedConnects <= attempts <= failedDownloads + failedConnects + 1
      ensures attempts > failedDownloads + failedConnects ==>
        failedDownloads < DownloadTries(urlRetries) && failedConnects < ConnectTries(urlRetries)
      // giving up for good takes a final answer of the server or all tries of one kind
      ensures failedDownloads <= DownloadTries(urlRetries) && failedConnects <= ConnectTries(urlRetries)
      ensures failedDownloads == DownloadTries(urlRetries) ==> last == adFailed
      ensures failedConnects == ConnectTries(urlRetries) ==> last == adConnectError
      ensures final == adFailed && !stopped && last != adFatalError && last != adNotFound ==>
        failedDownloads == DownloadTries(urlRetries) || failedConnects == ConnectTries(urlRetries)
      ensures notified == old(notified) + [adRunning, final]
      ensures final == adFinished || final == adFailed || final == adRetry
      ensures attempts == 0 ==> stopped && final == adFailed
      ensures final == adRetry ==> attempts > 0 && (stopped || (!force && paused))
      ensures attempts > 0 && !force && paused ==> final == adRetry
      ensures final == adFinished ==> attempts > 0 && last == adFinished
      // an interruption after the last octet makes adRetry of it, and the file stays
      ensures last == adFinished ==>
        Delivered() && final == if stopped || (!force && paused) then adRetry else adFinished
      ensures last == adFatalError || last == adNotFound ==>
        final == if stopped || (!force && paused) then adRetry else adFailed
      // and nothing else leaves one
      ensures old(outFile).None? ==> (outFile.Some? <==> last == adFinished)
    {
      SetStatus(adRunning);
      var downloadRetries, connectRetries := CountTries(urlRetries);
      final, attempts, last, failedDownloads, failedConnects := Attempts(downloadRetries, connectRetries, urlInterval);
      if final != adFinished && final != adRetry {
        final := adFailed;
      }
      SetStatus(final);
    }
  }

  lemma ChargeOne(before: seq<EStatus>, ends: seq<EStatus>, d: nat, c: nat, status: EStatus)
    requires Charged(before, ends, d, c) && |before| + d + c == |ends|
    ensures Charged(before, ends + [status], d, c)
    ensures status == adFailed ==> Charged(before, ends + [status], d + 1, c)
    ensures status == adConnectError ==> Charged(before, ends + [status], d, c + 1)
  {
    var more := ends + [status];
    assert more[|before|..][..d + c] == ends[|before|..] == ends[|before|..][..d + c];
    assert more[|before|..][..d + c + 1] == ends[|before|..] + [status];
    assert more[..|before|] == before;
  }

  /** How many tries of each kind a run has. */
  lemma TriesOf(w: WebDownloader, urlRetries: int)
    ensures w.retry && urlRetries >= 1 ==> w.DownloadTries(urlRetries) == urlRetries
    ensures !w.retry || urlRetries <= 1 ==> w.DownloadTries(urlRetries) == 1
    ensures w.retry && urlRetries >= 10 ==> w.ConnectTries(urlRetries) == urlRetries
    ensures w.retry && urlRetries <= 10 ==> w.ConnectTries(urlRetries) == 10
    ensures !w.retry ==> w.ConnectTries(urlRetries) == 1
  {
  }
}
