/** Responses that the code does not handle as announced. */
module HttpExamples {
  import opened HttpHeaders
  import opened HeadReading
  import opened HttpText

  const STATUS: seq<char> := "HTTP/1.0 200 OK"
  const GZIP: seq<char> := "Content-Encoding: gzip"

  function LengthLine(value: seq<char>): seq<char> {
    "Content-Length: " + value
  }

  function LengthFront(value: seq<char>): seq<char> {
    Join([STATUS, LengthLine(value)])
  }

  /** Two octets are announced and sent; an error inside the blank line leaves its newline and the first of them. */
  lemma StrayNewline()
    ensures var response := STATUS + "\r\n" + LengthLine("2") + "\r\n\r\nab";
      && IsDownload(response, "ab")
      && IsDownloadFrom(response, |response| - 3, "\na") && !IsDownload(response, "\na")
  {
    ExampleText();
    OneDigit();
    LengthReadsAs(2);
    var front, h := LengthFront("2"), Head(2, true, false, false, false);
    StrayOctets();
    StrayIsWrong(front, h, "ab", "\na");
    assert |Response(front, "ab")| - 3 == |front| + 1;
  }

  lemma StrayOctets()
    ensures IsBodyContent(Head(2, true, false, false, false), "\n" + "ab", "\na") && "\na" != "ab"
  {
    assert "\na" <= "\n" + "ab" && "\na"[0] != "ab"[0];
  }

  lemma StrayIsWrong(front: seq<char>, h: Head, body: seq<char>, content: seq<char>)
    requires ReadsAs(front, h) && Announces(h, body) && body != []
    requires IsBodyContent(h, "\n" + body, content) && content != body
    ensures IsDownload(Response(front, body), body) && !IsDownload(Response(front, body), content)
    ensures IsDownloadFrom(Response(front, body), |front| + 1, content)
  {
    StrayDownload(front, h, body, content);
    DownloadIsTheBody(front, h, body, body);
    DownloadIsTheBody(front, h, body, content);
  }

  lemma ExampleText()
    ensures STATUS + "\r\n" + LengthLine("2") + "\r\n\r\nab" == Response(LengthFront("2"), "ab")
  {
    assert [STATUS, LengthLine("2")][1..] == [LengthLine("2")];
    assert Join([LengthLine("2")]) == LengthLine("2") + "\r\n" + Join([]);
  }

  /** Three octets are announced and two sent. Read whole, the download can only fail; an error inside the blank line
      makes up for the missing octet, and it finishes. */
  lemma TruncatedAnswer()
    ensures var front := LengthFront("3");
      && ResponseOutcomes(Response(front, "ab")) == {adFailed}
      && IsDownloadFrom(Response(front, "ab"), |front| + 1, "\nab")
      && forall content :: !IsDownload(Response(front, "ab"), content)
  {
    var front, h := LengthFront("3"), Head(3, true, false, false, false);
    OneDigit();
    LengthReadsAs(3);
    StrayDownload(front, h, "ab", "\nab");
    TooLittle(front, h, "ab");
  }

  /** Less than the announced length can only fail. */
  lemma TooLittle(front: seq<char>, h: Head, body: seq<char>)
    requires ReadsAs(front, h) && h.contentLen > |body|
    ensures ResponseOutcomes(Response(front, body)) == {adFailed}
    ensures forall content :: !IsDownload(Response(front, body), content)
  {
    WholeHead(front, h, body);
    AfterTheHead(front, body);
    assert |Response(front, body)| - (|front| + 2) == |body|;
  }

  /** The disk takes one octet of two, and the download finishes. */
  lemma ShortWrite()
    ensures var response := Response(LengthFront("2"), "ab");
      && WasDelivered(response, |response| - 2, true, "a", [Delivery("ab", 1)])
      && !IsDownload(response, "a")
  {
    var front, h := LengthFront("2"), Head(2, true, false, false, false);
    OneDigit();
    LengthReadsAs(2);
    DownloadIsTheBody(front, h, "ab", "a");
    TakeOne(h);
    DeliveredWhole(front, h, "ab", "a", [Delivery("ab", 1)]);
  }

  lemma TakeOne(h: Head)
    requires h.contentLen == 2
    ensures IsDelivered(h, "ab", "a", [Delivery("ab", 1)])
  {
    OneSum("ab", 1);
    OneMore([], "ab", 1);
    assert [] + [Delivery("ab", 1)] == [Delivery("ab", 1)] && [] + "ab"[..1] == "a";
  }

  /** Two octets are announced and three sent: whether the download finishes depends on how they come. */
  lemma OverlongAnswer()
    ensures var h := Head(2, true, false, false, false);
      && ReadsAs(LengthFront("2"), h)
      && IsBodyEnd(h, "abc", [Delivery("ab", 2)], adFinished)
      && IsBodyEnd(h, "abc", [Delivery("abc", 3)], adFailed)
  {
    OneDigit();
    LengthReadsAs(2);
    OneSum("ab", 2);
    OneSum("abc", 3);
    assert "ab" <= "abc";
  }

  /** A gzip header and a Content-Length of -1: the first chunk is taken for all. */
  lemma FirstChunkIsAll()
    ensures var response := Response(Join([STATUS, GZIP, LengthLine("-1")]), "ab");
      && IsDownload(response, "a") && IsDownload(response, "ab")
      && WasDelivered(response, |response| - 2, true, "a", [Delivery("a", 1)])
  {
    GzipReadsAs();
    var front, h := Join([STATUS, GZIP, LengthLine("-1")]), Head(-1, true, true, false, false);
    GzipWithoutLength(front, h, "ab", "a");
    GzipWithoutLength(front, h, "ab", "ab");
    assert "a" <= "ab";
    OneSum("a", 1);
    DeliveredWhole(front, h, "ab", "a", [Delivery("a", 1)]);
  }

  // ---- Reading the heads -----------------------------------------------------------------------

  /** A length that can be announced: its header line fits into the line buffer. */
  predicate FitsLine(n: nat) {
    |LengthLine(Decimal(n))| + 2 < LINE_BUFFER_SIZE
  }

  /** Every length that the source's int can hold does. */
  lemma LengthsFit(n: nat)
    requires n < 0x8000_0000
    ensures FitsLine(n)
  {
    assert Power10(5) == 100_000;
    assert Power10(10) == 10_000_000_000;
    DecimalLength(n, 10);
  }

  lemma LengthReadsAs(n: nat)
    requires FitsLine(n)
    ensures ReadsAs(LengthFront(Decimal(n)), Head(n, true, false, false, false))
  {
    var h := Head(-1, false, false, false, false);
    var value := Decimal(n);
    StatusIsLine();
    LengthIsLine(value);
    StatusAdds(h, [LengthLine(value)]);
    LengthAdds(h, value);
    AtoiReadsDecimal(n, []);
    ServedReadsAs([STATUS, LengthLine(value)], Head(n, true, false, false, false));
  }

  /** Every body that is sent with its length written before it is downloaded as it is, and nothing else is. */
  lemma AnnouncedBody(body: seq<char>, content: seq<char>)
    requires FitsLine(|body|)
    ensures IsDownload(Response(LengthFront(Decimal(|body|)), body), content) <==> content == body && body != []
  {
    var h := Head(|body|, true, false, false, false);
    LengthReadsAs(|body|);
    DownloadIsTheBody(LengthFront(Decimal(|body|)), h, body, content);
  }

  /** With no length announced, the body is all that comes. */
  lemma PlainBody(body: seq<char>, content: seq<char>)
    ensures IsDownload(Response(Join([STATUS]), body), content) <==> content == body && body != []
  {
    var h := Head(-1, false, false, false, false);
    StatusIsLine();
    assert [STATUS] == [STATUS] + [];
    StatusAdds(h, []);
    ServedReadsAs([STATUS], h);
    DownloadIsTheBody(Join([STATUS]), h, body, content);
  }

  /** A gzip coding alone does not change that. */
  lemma GzipBody(body: seq<char>, content: seq<char>)
    ensures IsDownload(Response(Join([STATUS, GZIP]), body), content) <==> content == body && body != []
  {
    var h := Head(-1, false, false, false, false);
    StatusIsLine();
    GzipIsLine();
    StatusAdds(h, [GZIP]);
    assert [GZIP] == [GZIP] + [];
    GzipAdds(h, []);
    ServedReadsAs([STATUS, GZIP], h.(gzip := true));
    DownloadIsTheBody(Join([STATUS, GZIP]), h.(gzip := true), body, content);
  }

  lemma GzipReadsAs()
    ensures ReadsAs(Join([STATUS, GZIP, LengthLine("-1")]), Head(-1, true, true, false, false))
  {
    var h := Head(-1, false, false, false, false);
    StatusIsLine();
    GzipIsLine();
    LengthIsLine("-1");
    StatusAdds(h, [GZIP, LengthLine("-1")]);
    GzipAdds(h, [LengthLine("-1")]);
    LengthAdds(h.(gzip := true), "-1");
    MinusOne();
    ServedReadsAs([STATUS, GZIP, LengthLine("-1")], Head(-1, true, true, false, false));
  }

  lemma OneDigit()
    ensures Decimal(2) == "2" && Decimal(3) == "3"
  {
  }

  lemma MinusOne()
    ensures Atoi("-1") == -1
  {
    assert "-1"[1..] == "1" && "1"[1..] == "";
  }

  lemma LengthIsLine(value: seq<char>)
    requires value != [] && forall i :: 0 <= i < |value| ==> value[i] == '-' || IsDigit(value[i])
    requires |LengthLine(value)| + 2 < LINE_BUFFER_SIZE
    ensures IsHeaderLine(LengthLine(value))
  {
  }

  lemma GzipIsLine()
    ensures IsHeaderLine(GZIP)
  {
  }

  lemma GzipIsPlain()
    ensures '\0' !in GZIP && !IsTrimmed(GZIP[|GZIP| - 1])
  {
  }

  lemma StatusIsLine()
    ensures IsHeaderLine(STATUS)
    ensures var line := CString(STATUS + "\r\n"); ResponseStatus(line) == adRunning && !IsRedirection(line)
  {
    WholeLine(STATUS);
    StatusCode();
    AcceptOk(STATUS + "\r\n");
  }

  lemma StatusCode()
    ensures IsHttp(STATUS + "\r\n") && StartsWith(AfterSpace(STATUS + "\r\n"), "200")
  {
    var line := STATUS + "\r\n";
    assert line == "HTTP/1.0" + " " + "200 OK\r\n" && line[8] == ' ';
    SpaceFound("HTTP/1.0", "200 OK\r\n");
    assert line == "HTTP" + "/1.0 200 OK\r\n" && "200 OK\r\n" == "200" + " OK\r\n";
    PrefixFound("HTTP", "/1.0 200 OK\r\n");
    PrefixFound("200", " OK\r\n");
  }

  lemma AcceptOk(line: seq<char>)
    requires IsHttp(line) && StartsWith(AfterSpace(line), "200")
    ensures ResponseStatus(line) == adRunning && !IsRedirection(line)
  {
    assert AfterSpace(line)[0] == '2';
  }

  lemma FirstAdds(h: Head, line: seq<char>, rest: seq<seq<char>>, next: Head)
    requires line != [] && '\0' !in line && !IsTrimmed(line[|line| - 1]) && AddHeader(h, line) == next
    ensures AddHeaders(h, [line] + rest) == AddHeaders(next, rest)
  {
    WholeLine(line);
    assert ([line] + rest)[1..] == rest;
  }

  lemma StatusAdds(h: Head, rest: seq<seq<char>>)
    ensures AddHeaders(h, [STATUS] + rest) == AddHeaders(h, rest)
  {
    NoHeader(STATUS, h);
    FirstAdds(h, STATUS, rest, h);
  }

  lemma GzipAdds(h: Head, rest: seq<seq<char>>)
    ensures AddHeaders(h, [GZIP] + rest) == AddHeaders(h.(gzip := true), rest)
  {
    GzipHeader(h);
    GzipIsPlain();
    FirstAdds(h, GZIP, rest, h.(gzip := true));
  }

  lemma GzipHeader(h: Head)
    ensures AddHeader(h, GZIP) == h.(gzip := true)
  {
    AddHeaderIff(h, GZIP);
  }

  lemma LengthAdds(h: Head, value: seq<char>)
    requires value != [] && '\0' !in value && !IsTrimmed(value[|value| - 1])
    ensures AddHeaders(h, [LengthLine(value)]) == h.(contentLen := Atoi(value), confirmedLength := true)
  {
    AddLength(h, value);
    assert [LengthLine(value)] == [LengthLine(value)] + [];
    FirstAdds(h, LengthLine(value), [], h.(contentLen := Atoi(value), confirmedLength := true));
  }

  lemma AddLength(h: Head, value: seq<char>)
    ensures AddHeader(h, LengthLine(value)) == h.(contentLen := Atoi(value), confirmedLength := true)
  {
    PrefixFound("Content-Length: ", value);
    assert LengthLine(value)[16..] == value;
  }

  lemma NoHeader(line: seq<char>, h: Head)
    requires line != [] && line[0] == 'H'
    ensures AddHeader(h, line) == h
  {
    assert Lower('H') == 'h' && Lower('C') == 'c' && Lower('L') == 'l';
  }

  /** A line without NULs that does not end in white space loses its line end and nothing else. */
  lemma WholeLine(line: seq<char>)
    requires line != [] && '\0' !in line && !IsTrimmed(line[|line| - 1])
    ensures CString(line + "\r\n") == line + "\r\n" && TrimRight(line + "\r\n") == line
  {
    NoNul(line + "\r\n");
    TrimOne(line, '\r');
    TrimOne(line + "\r", '\n');
    assert line + "\r" + "\n" == line + "\r\n";
  }

  lemma TrimOne(s: seq<char>, c: char)
    requires IsTrimmed(c)
    ensures TrimRight(s + [c]) == TrimRight(s)
  {
    assert (s + [c])[..|s|] == s;
  }

  lemma {:induction false} NoNul(s: seq<char>)
    requires '\0' !in s
    ensures CString(s) == s
  {
    if s != [] {
      NoNul(s[1..]);
    }
  }
}
