/** What daemon/connect/WebDownloader.cpp makes of an HTTP response head, as functions of the octets received. */
module HttpHeaders {
  import opened Connections

  datatype EStatus =
    | adUndefined
    | adRunning
    | adFinished
    | adFailed
    | adRetry
    | adNotFound
    | adRedirect
    | adConnectError
    | adFatalError

  const LINE_BUFFER_SIZE: nat := 10240

  /** A C string ends at its first NUL. */
  function CString(s: seq<char>): seq<char> {
    if s == [] || s[0] == '\0' then [] else [s[0]] + CString(s[1..])
  }

  predicate IsTrimmed(c: char) {
    c == '\n' || c == '\r' || c == ' ' || c == '\t'
  }

  function TrimRight(s: seq<char>): seq<char> {
    if s != [] && IsTrimmed(s[|s| - 1]) then TrimRight(s[..|s| - 1]) else s
  }

  /** tolower */
  function Lower(c: char): char {
    if 'A' <= c <= 'Z' then ((c as int) + 32) as char else c
  }

  /** strncmp(s, prefix, strlen(prefix)) == 0 */
  predicate StartsWith(s: seq<char>, prefix: seq<char>) {
    prefix == [] || (s != [] && s[0] == prefix[0] && StartsWith(s[1..], prefix[1..]))
  }

  /** strncasecmp(line, name, strlen(name)) == 0 */
  predicate HasName(line: seq<char>, name: seq<char>): (r: bool)
    ensures r ==> |name| <= |line|
  {
    name == [] || (line != [] && Lower(line[0]) == Lower(name[0]) && HasName(line[1..], name[1..]))
  }

  lemma {:induction false} PrefixFound(prefix: seq<char>, rest: seq<char>)
    ensures StartsWith(prefix + rest, prefix) && HasName(prefix + rest, prefix)
  {
    if prefix != [] {
      assert (prefix + rest)[1..] == prefix[1..] + rest;
      PrefixFound(prefix[1..], rest);
    }
  }

  function Digits(s: seq<char>, acc: int): int {
    if s != [] && '0' <= s[0] <= '9' then Digits(s[1..], 10 * acc + (s[0] as int - '0' as int)) else acc
  }

  /** isspace */
  predicate IsBlank(c: char) {
    c == ' ' || '\t' <= c <= '\r'
  }

  /** atoi, over unbounded integers */
  function Atoi(s: seq<char>): int {
    if s != [] && IsBlank(s[0]) then Atoi(s[1..])
    else if s != [] && s[0] == '-' then -Digits(s[1..], 0)
    else if s != [] && s[0] == '+' then Digits(s[1..], 0)
    else Digits(s, 0)
  }

  /** The answer code that follows the first space of a status line. */
  function AfterSpace(s: seq<char>): seq<char> {
    if s == [] then [] else if s[0] == ' ' then s[1..] else AfterSpace(s[1..])
  }

  predicate IsHttp(response: seq<char>) {
    StartsWith(response, "HTTP") && ' ' in response
  }

  predicate IsRedirection(response: seq<char>) {
    IsHttp(response) && var code := AfterSpace(response);
    || StartsWith(code, "301")
    || StartsWith(code, "302")
    || StartsWith(code, "303")
    || StartsWith(code, "307")
    || StartsWith(code, "308")
  }

  function ResponseStatus(response: seq<char>): EStatus {
    if !IsHttp(response) then adFailed
    else
      var code := AfterSpace(response);
      if StartsWith(code, "400") || StartsWith(code, "499") then adConnectError
      else if StartsWith(code, "404") then adNotFound
      else if IsRedirection(response) || StartsWith(code, "200") then adRunning
      else adFailed
  }

  datatype Head = Head(contentLen: int, confirmedLength: bool, gzip: bool, redirecting: bool, redirected: bool)

  /** The effect of one header line. */
  function AddHeader(h: Head, line: seq<char>): Head {
    if HasName(line, "Content-Length: ") then h.(contentLen := Atoi(line[16..]), confirmedLength := true)
    else if HasName(line, "Content-Encoding: gzip") then h.(gzip := true)
    else if HasName(line, "Content-Disposition: ") then h
    else if h.redirecting && HasName(line, "Location: ") then h.(redirected := true)
    else h
  }

  /** Where reading a response head ends: at a body that starts after `start` octets, or early with a status. */
  datatype Parsed = Body(head: Head, start: nat) | Ended(status: EStatus) {
    function Shift(n: nat): Parsed {
      if Body? then Body(head, n + start) else this
    }
  }

  function NextLine(s: seq<char>): (line: seq<char>)
    ensures |line| <= |s| && |line| < LINE_BUFFER_SIZE && (s != [] ==> line != [])
  {
    FirstLine(s, LINE_BUFFER_SIZE - 1)
  }

  /** A line that starts with CR or LF ends the head; the end of the stream or a redirect target ends the reading. */
  function ParseHeaders(s: seq<char>, h: Head): (p: Parsed)
    ensures p.Body? ==> 0 < p.start <= |s|
  {
    if s == [] then Ended(adFailed)
    else
      var line := NextLine(s);
      if line[0] == '\r' || line[0] == '\n' then Body(h, |line|)
      else
        var next := AddHeader(h, TrimRight(CString(line)));
        if next.redirected then Ended(adRedirect) else ParseHeaders(s[|line|..], next).Shift(|line|)
  }

  function StartHead(response: seq<char>): Head {
    Head(-1, false, false, IsRedirection(response), false)
  }

  /** The whole response: a status line, which is then read again as the first header line, and the headers. */
  function ParseResponse(s: seq<char>): (p: Parsed)
    ensures p.Body? ==> 0 < p.start <= |s|
  {
    var response := CString(NextLine(s));
    if ResponseStatus(response) != adRunning then Ended(ResponseStatus(response))
    else ParseHeaders(s, StartHead(response))
  }

  /** The first Content-Length octets of the body, or with no length given all octets up to connection close (section
      7.2.2 of RFC 1945). A Content-Length of -1 counts as none, except beside a gzip header. */
  predicate IsBodyContent(h: Head, body: seq<char>, content: seq<char>) {
    && content != []
    && content <= body
    && if h.contentLen != -1 then |content| == h.contentLen else content == body || (h.gzip && h.confirmedLength)
  }

  /** A receive error after `n` octets ends the head as if the peer had closed there; what it sends later is body. */
  predicate HeadEndsAt(response: seq<char>, n: nat) {
    n <= |response| && var p := ParseResponse(response[..n]); p.Body? && p.start == n
  }

  /** `content` is what a download may leave behind that took the body to begin after `n` octets. */
  predicate IsDownloadFrom(response: seq<char>, n: nat, content: seq<char>) {
    HeadEndsAt(response, n) && IsBodyContent(ParseResponse(response[..n]).head, response[n..], content)
  }

  /** `content` is what a download of this response may leave behind. */
  predicate IsDownload(response: seq<char>, content: seq<char>) {
    var p := ParseResponse(response);
    p.Body? && IsBodyContent(p.head, response[p.start..], content)
  }

  lemma NextLineIsOne(s: seq<char>)
    ensures NextLine(s) <= s && OneLine(NextLine(s))
    ensures var line := NextLine(s);
      |line| == LINE_BUFFER_SIZE - 1 || line == s || (line != [] && line[|line| - 1] == '\n')
  {
    FirstLineIsOne(s, LINE_BUFFER_SIZE - 1);
  }

  /** A line cut short is the part that came; one that came whole is the line. */
  lemma NextLineOfPrefix(s: seq<char>, n: nat)
    requires n <= |s|
    ensures NextLine(s[..n]) == if n <= |NextLine(s)| then s[..n] else NextLine(s)
  {
    var line := NextLine(s);
    NextLineIsOne(s);
    if n <= |line| {
      assert s[..n] == line[..n];
      assert s[..n][..n] == s[..n];
      FirstLineIsUnique(s[..n], LINE_BUFFER_SIZE - 1, n);
    } else {
      assert s[..n][..|line|] == line;
      FirstLineIsUnique(s[..n], LINE_BUFFER_SIZE - 1, |line|);
    }
  }

  function BlankEnd(s: seq<char>, blank: nat): nat
    requires blank <= |s|
  {
    blank + |NextLine(s[blank..])|
  }

  /** The head is read from its lines up to `blank`, where the blank line begins, of which `n - blank` octets came. */
  predicate IsCut(s: seq<char>, blank: nat, n: nat) {
    blank < n <= |s| && (s[blank] == '\r' || s[blank] == '\n') && n <= BlankEnd(s, blank)
  }

  lemma {:induction false} CutHead(s: seq<char>, n: nat, h: Head) returns (blank: nat)
    requires n <= |s| && ParseHeaders(s[..n], h).Body? && ParseHeaders(s[..n], h).start == n
    ensures IsCut(s, blank, n)
    ensures ParseHeaders(s, h) == Body(ParseHeaders(s[..n], h).head, BlankEnd(s, blank))
    decreases n
  {
    if s[0] == '\r' || s[0] == '\n' {
      CutBlank(s, n, h);
      blank := 0;
    } else {
      var l, next := CutStep(s, n, h);
      var rest := CutHead(s[l..], n - l, next);
      assert s[l..][rest..] == s[l + rest..];
      blank := l + rest;
    }
  }

  lemma CutBlank(s: seq<char>, n: nat, h: Head)
    requires n <= |s| && ParseHeaders(s[..n], h).Body? && ParseHeaders(s[..n], h).start == n
    requires s[0] == '\r' || s[0] == '\n'
    ensures IsCut(s, 0, n)
    ensures ParseHeaders(s, h) == Body(ParseHeaders(s[..n], h).head, BlankEnd(s, 0))
  {
    NextLineOfPrefix(s, n);
    assert s[0..] == s;
  }

  /** A header line before the blank one came whole. */
  lemma CutStep(s: seq<char>, n: nat, h: Head) returns (l: nat, next: Head)
    requires n <= |s| && ParseHeaders(s[..n], h).Body? && ParseHeaders(s[..n], h).start == n
    requires s[0] != '\r' && s[0] != '\n'
    ensures 0 < l < n && NextLine(s[..n]) == NextLine(s)
    ensures ParseHeaders(s, h) == ParseHeaders(s[l..], next).Shift(l)
    ensures ParseHeaders(s[..n], h) == ParseHeaders(s[l..][..n - l], next).Shift(l)
  {
    var line := NextLine(s[..n]);
    NextLineOfPrefix(s, n);
    assert line[0] == s[0];
    l, next := |line|, AddHeader(h, TrimRight(CString(line)));
    assert s[..n][l..] == s[l..][..n - l];
  }

  /** Whatever octet the head was taken to end at, its fields are those of the response, and only the rest of the blank
      line can go astray: nothing does exactly when that line came whole. */
  lemma CutResponse(response: seq<char>, n: nat) returns (blank: nat)
    requires HeadEndsAt(response, n)
    ensures IsCut(response, blank, n)
    ensures ParseResponse(response) == Body(ParseResponse(response[..n]).head, BlankEnd(response, blank))
    ensures n == BlankEnd(response, blank) <==> NextLine(response[blank..]) == response[blank..n]
  {
    var status := CutStatus(response, n);
    blank := CutHead(response, n, StartHead(status));
    NextLineIsOne(response[blank..]);
  }

  /** The status line before such an end came whole. */
  lemma CutStatus(response: seq<char>, n: nat) returns (status: seq<char>)
    requires HeadEndsAt(response, n)
    ensures ParseHeaders(response[..n], StartHead(status)) == ParseResponse(response[..n])
    ensures ParseHeaders(response, StartHead(status)) == ParseResponse(response)
  {
    NextLineOfPrefix(response, n);
    status := CString(NextLine(response[..n]));
    assert status[0] == 'H' == response[0];
    var l, _ := CutStep(response, n, StartHead(status));
    assert l > 0;
  }

  /** A header line as a well-behaved server sends it, without its line end. */
  predicate IsHeaderLine(line: seq<char>) {
    line != [] && |line| + 2 < LINE_BUFFER_SIZE && '\n' !in line && line[0] != '\r' && line[|line| - 1] != '\r'
  }

  function Join(lines: seq<seq<char>>): seq<char> {
    if lines == [] then [] else lines[0] + "\r\n" + Join(lines[1..])
  }

  function AddHeaders(h: Head, lines: seq<seq<char>>): Head
    decreases |lines|
  {
    if lines == [] then h else AddHeaders(AddHeader(h, TrimRight(CString(lines[0] + "\r\n"))), lines[1..])
  }

  lemma HeaderLineIsRead(line: seq<char>, rest: seq<char>)
    requires IsHeaderLine(line)
    ensures NextLine(line + "\r\n" + rest) == line + "\r\n"
  {
    var s := line + "\r\n" + rest;
    assert s[..|line| + 2] == line + "\r\n";
    FirstLineIsUnique(s, LINE_BUFFER_SIZE - 1, |line| + 2);
  }

  lemma {:induction false} RedirectedStays(h: Head, lines: seq<seq<char>>)
    requires h.redirected
    ensures AddHeaders(h, lines).redirected
    decreases |lines|
  {
    if lines != [] {
      RedirectedStays(AddHeader(h, TrimRight(CString(lines[0] + "\r\n"))), lines[1..]);
    }
  }

  /** A well-formed head is read as its lines say. The body starts right after the line that begins with CR, or after
      as much of it as comes, unless a redirect target ends the reading. */
  lemma {:induction false} WellFormedHeaders(lines: seq<seq<char>>, h: Head, tail: seq<char>)
    requires forall i :: 0 <= i < |lines| ==> IsHeaderLine(lines[i])
    requires !h.redirected && tail != [] && tail[0] == '\r'
    ensures ParseHeaders(Join(lines) + tail, h) ==
      var end := AddHeaders(h, lines);
      if end.redirected then Ended(adRedirect) else Body(end, |Join(lines)| + |NextLine(tail)|)
    decreases |lines|
  {
    var s := Join(lines) + tail;
    if lines == [] {
      assert s == tail;
    } else {
      var rest := Join(lines[1..]) + tail;
      assert s == lines[0] + "\r\n" + rest;
      ReadHeader(lines[0], rest, h);
      var next := AddHeader(h, TrimRight(CString(lines[0] + "\r\n")));
      if next.redirected {
        RedirectedStays(next, lines[1..]);
      } else {
        WellFormedHeaders(lines[1..], next, tail);
      }
    }
  }

  lemma ReadHeader(line: seq<char>, rest: seq<char>, h: Head)
    requires IsHeaderLine(line)
    ensures ParseHeaders(line + "\r\n" + rest, h) ==
      var next := AddHeader(h, TrimRight(CString(line + "\r\n")));
      if next.redirected then Ended(adRedirect) else ParseHeaders(rest, next).Shift(|line| + 2)
  {
    var s := line + "\r\n" + rest;
    HeaderLineIsRead(line, rest);
    assert s[|line| + 2..] == rest && s[0] == line[0];
  }

  function StatusLine(lines: seq<seq<char>>): seq<char>
    requires lines != []
  {
    CString(lines[0] + "\r\n")
  }

  /** A response head that a client reads on to its end or to a redirect target. */
  predicate IsServed(lines: seq<seq<char>>) {
    && lines != []
    && (forall i :: 0 <= i < |lines| ==> IsHeaderLine(lines[i]))
    && ResponseStatus(StatusLine(lines)) == adRunning
  }

  function ServedHead(lines: seq<seq<char>>): Head
    requires lines != []
  {
    AddHeaders(StartHead(StatusLine(lines)), lines)
  }

  /** A response head with its lines whole, up to `tail`. */
  lemma WellFormedResponse(lines: seq<seq<char>>, tail: seq<char>)
    requires IsServed(lines) && tail != [] && tail[0] == '\r'
    ensures ParseResponse(Join(lines) + tail) ==
      if ServedHead(lines).redirected then Ended(adRedirect)
      else Body(ServedHead(lines), |Join(lines)| + |NextLine(tail)|)
  {
    var rest := Join(lines[1..]) + tail;
    assert Join(lines) + tail == lines[0] + "\r\n" + rest;
    HeaderLineIsRead(lines[0], rest);
    WellFormedHeaders(lines, StartHead(StatusLine(lines)), tail);
  }

  /** The lines `front` of a head are read as `h`, whatever comes after them in a line that begins with CR. */
  ghost predicate ReadsAs(front: seq<char>, h: Head) {
    && front != [] && front[|front| - 1] == '\n'
    && forall tail: seq<char> | tail != [] && tail[0] == '\r' ::
         ParseResponse(front + tail) == Body(h, |front| + |NextLine(tail)|)
  }

  lemma {:induction false} LinesEndInNewline(lines: seq<seq<char>>)
    requires lines != []
    ensures |Join(lines)| >= 2 && Join(lines)[|Join(lines)| - 1] == '\n'
  {
    if |lines| > 1 {
      LinesEndInNewline(lines[1..]);
      assert Join(lines) == lines[0] + "\r\n" + Join(lines[1..]);
    } else {
      assert Join(lines) == lines[0] + "\r\n" + [];
    }
  }

  /** So is every well-formed head of an accepted response without a redirect target. */
  lemma ServedReadsAs(lines: seq<seq<char>>, h: Head)
    requires IsServed(lines) && ServedHead(lines) == h && !h.redirected
    ensures ReadsAs(Join(lines), h)
  {
    LinesEndInNewline(lines);
    forall tail: seq<char> | tail != [] && tail[0] == '\r'
      ensures ParseResponse(Join(lines) + tail) == Body(h, |Join(lines)| + |NextLine(tail)|)
    {
      WellFormedResponse(lines, tail);
    }
  }

  function Response(front: seq<char>, body: seq<char>): seq<char> {
    front + ("\r\n" + body)
  }

  lemma WholeHead(front: seq<char>, h: Head, body: seq<char>)
    requires ReadsAs(front, h)
    ensures ParseResponse(Response(front, body)) == Body(h, |front| + 2)
  {
    var tail := "\r\n" + body;
    assert tail[..2] == "\r\n";
    FirstLineIsUnique(tail, LINE_BUFFER_SIZE - 1, 2);
    assert ParseResponse(front + tail) == Body(h, |front| + |NextLine(tail)|);
  }

  lemma AfterTheHead(front: seq<char>, body: seq<char>)
    ensures Response(front, body)[|front| + 2..] == body
    ensures Response(front, body)[|front| + 1..] == "\n" + body
    ensures Response(front, body)[..|front| + 1] == front + "\r"
    ensures front != [] ==> Response(front, body)[|front| - 1] == front[|front| - 1]
  {
  }

  /** The server announces the length of the body, or none. */
  predicate Announces(h: Head, body: seq<char>) {
    h.contentLen == |body| || (h.contentLen == -1 && !(h.gzip && h.confirmedLength))
  }

  /** What a server announces correctly is what a finished download holds: the body, the whole body and nothing else. */
  lemma DownloadIsTheBody(front: seq<char>, h: Head, body: seq<char>, content: seq<char>)
    requires ReadsAs(front, h) && Announces(h, body)
    ensures IsDownload(Response(front, body), content) <==> content == body != []
  {
    WholeHead(front, h, body);
    AfterTheHead(front, body);
  }

  /** Only the newline of the blank line can go astray. */
  lemma OnlyTheNewlineGoesAstray(front: seq<char>, h: Head, body: seq<char>, n: nat)
    requires ReadsAs(front, h) && HeadEndsAt(Response(front, body), n)
    ensures n == |front| + 2 || n == |front| + 1
    ensures ParseResponse(Response(front, body)[..n]).head == h
  {
    WholeHead(front, h, body);
    CutPastLines(front, h, body, n);
  }

  lemma CutPastLines(front: seq<char>, h: Head, body: seq<char>, n: nat)
    requires ParseResponse(Response(front, body)) == Body(h, |front| + 2)
    requires front != [] && front[|front| - 1] == '\n'
    ensures HeadEndsAt(Response(front, body), n) ==>
      |front| < n <= |front| + 2 && ParseResponse(Response(front, body)[..n]).head == h
  {
    AfterTheHead(front, body);
    CutPastNewline(Response(front, body), n, Body(h, |front| + 2), |front| - 1);
  }

  /** A newline before the last octet of the head belongs to a line that came whole. */
  lemma CutPastNewline(s: seq<char>, n: nat, whole: Parsed, k: nat)
    requires ParseResponse(s) == whole && whole.Body?
    requires k < |s| && s[k] == '\n' && k + 1 < whole.start
    ensures HeadEndsAt(s, n) ==> k + 1 < n <= whole.start && ParseResponse(s[..n]).head == whole.head
  {
    if HeadEndsAt(s, n) {
      var blank := CutResponse(s, n);
      EndsByNewline(s, blank, k);
    }
  }

  lemma EndsByNewline(s: seq<char>, blank: nat, k: nat)
    requires blank <= |s| && k < |s| && s[k] == '\n'
    ensures blank <= k ==> BlankEnd(s, blank) <= k + 1
  {
    var line := NextLine(s[blank..]);
    NextLineIsOne(s[blank..]);
    assert forall i :: 0 <= i < |line| ==> line[i] == s[blank + i];
  }

  /** And it can: an error right before that newline is taken for the end of the head. */
  lemma TheNewlineCanGoAstray(front: seq<char>, h: Head, body: seq<char>)
    requires ReadsAs(front, h)
    ensures HeadEndsAt(Response(front, body), |front| + 1)
    ensures ParseResponse(Response(front, body)[..|front| + 1]).head == h
  {
    AfterTheHead(front, body);
    assert NextLine("\r") == "\r";
    assert ParseResponse(front + "\r") == Body(h, |front| + |NextLine("\r")|);
  }

  /** The length of the content does not depend on what comes. */
  predicate CountsOctets(h: Head) {
    h.contentLen != -1 || (h.gzip && h.confirmedLength)
  }

  /** The exact condition, whatever the head announces and however much is sent: a finished download holds what the
      answer announces if and only if the blank line was read whole, or the lost newline cannot be told from the body,
      because the octets counted are there and are nothing but newlines. */
  lemma DownloadIsRightIff(front: seq<char>, h: Head, body: seq<char>, n: nat, content: seq<char>)
    requires ReadsAs(front, h) && IsDownloadFrom(Response(front, body), n, content)
    ensures IsDownload(Response(front, body), content) <==> n == |front| + 2 || SameAsStray(h, body, content)
  {
    OnlyTheNewlineGoesAstray(front, h, body, n);
    AfterTheHead(front, body);
    WholeHead(front, h, body);
    if n == |front| + 1 {
      StrayContent(h, body, content);
    }
  }

  predicate SameAsStray(h: Head, body: seq<char>, content: seq<char>) {
    CountsOctets(h) && |content| <= |body| && forall i :: 0 <= i < |content| ==> body[i] == '\n'
  }

  lemma StrayContent(h: Head, body: seq<char>, content: seq<char>)
    requires IsBodyContent(h, "\n" + body, content)
    ensures IsBodyContent(h, body, content) <==> SameAsStray(h, body, content)
  {
    if |content| <= |body| {
      var start := body[..|content|];
      assert content == ("\n" + body)[..|content|] == ("\n" + start)[..|content|];
      ShiftedIsSame(start, content);
    }
  }

  /** When the length is announced correctly, or none: the file is the body exactly if the blank line was read whole, or
      the body is nothing but newlines of announced length. */
  lemma DownloadIsTheBodyIff(front: seq<char>, h: Head, body: seq<char>, n: nat, content: seq<char>)
    requires ReadsAs(front, h) && Announces(h, body) && IsDownloadFrom(Response(front, body), n, content)
    ensures content == body <==>
      n == |front| + 2 || (h.contentLen != -1 && forall i :: 0 <= i < |body| ==> body[i] == '\n')
  {
    DownloadIsRightIff(front, h, body, n, content);
    DownloadIsTheBody(front, h, body, content);
    OnlyTheNewlineGoesAstray(front, h, body, n);
    AfterTheHead(front, body);
  }

  /** A Content-Length of -1 beside a gzip header counts as known, so any first part of the body may be all of it. */
  lemma GzipWithoutLength(front: seq<char>, h: Head, body: seq<char>, content: seq<char>)
    requires ReadsAs(front, h) && h.contentLen == -1 && h.gzip && h.confirmedLength
    ensures IsDownload(Response(front, body), content) <==> content != [] && content <= body
  {
    WholeHead(front, h, body);
    AfterTheHead(front, body);
  }

  lemma ShiftedIsSame(body: seq<char>, content: seq<char>)
    requires content <= "\n" + body && |content| == |body|
    ensures content == body <==> forall i :: 0 <= i < |body| ==> body[i] == '\n'
  {
    if content == body {
      NewlinesOnly(body, |body|);
    }
  }

  lemma {:induction false} NewlinesOnly(body: seq<char>, k: nat)
    requires k <= |body| && body <= "\n" + body
    ensures forall i :: 0 <= i < k ==> body[i] == '\n'
  {
    if k > 0 {
      NewlinesOnly(body, k - 1);
      assert body[k - 1] == ("\n" + body)[k - 1];
    }
  }

  lemma StrayDownload(front: seq<char>, h: Head, body: seq<char>, content: seq<char>)
    requires ReadsAs(front, h) && IsBodyContent(h, "\n" + body, content)
    ensures IsDownloadFrom(Response(front, body), |front| + 1, content)
  {
    TheNewlineCanGoAstray(front, h, body);
    AfterTheHead(front, body);
  }
}
