/** What the C string functions and the header tests of daemon/connect/WebDownloader.cpp mean for the text they read. */
module HttpText {
  import opened HttpHeaders
  import opened Connections

  // ---- Numbers ---------------------------------------------------------------------------------

  predicate IsDigit(c: char) {
    '0' <= c <= '9'
  }

  /** A number as it is written: the last digit is n % 10, the digits before it are those of n / 10. */
  function Decimal(n: nat): (s: seq<char>)
    ensures s != [] && forall i :: 0 <= i < |s| ==> IsDigit(s[i])
  {
    var last := ('0' as int + n % 10) as char;
    if n < 10 then [last] else Decimal(n / 10) + [last]
  }

  lemma {:induction false} DigitsOfMore(s: seq<char>, c: char, rest: seq<char>, acc: int)
    requires forall i :: 0 <= i < |s| ==> IsDigit(s[i])
    requires IsDigit(c)
    ensures Digits(s + ([c] + rest), acc) == Digits(rest, 10 * Digits(s, acc) + (c as int - '0' as int))
  {
    if s == [] {
      assert s + ([c] + rest) == [c] + rest && ([c] + rest)[1..] == rest;
    } else {
      assert (s + ([c] + rest))[1..] == s[1..] + ([c] + rest);
      DigitsOfMore(s[1..], c, rest, 10 * acc + (s[0] as int - '0' as int));
    }
  }

  predicate EndsNumber(rest: seq<char>) {
    rest == [] || !IsDigit(rest[0])
  }

  lemma {:induction false} DigitsOfDecimal(n: nat, rest: seq<char>)
    requires EndsNumber(rest)
    ensures Digits(Decimal(n) + rest, 0) == n
    ensures Digits(Decimal(n), 0) == n
  {
    var c := ('0' as int + n % 10) as char;
    var start := if n < 10 then [] else Decimal(n / 10);
    if n >= 10 {
      DigitsOfDecimal(n / 10, []);
    }
    assert Decimal(n) == start + [c] && Decimal(n) + rest == start + ([c] + rest);
    assert start + [c] == start + ([c] + []);
    DigitsOfMore(start, c, rest, 0);
    DigitsOfMore(start, c, [], 0);
  }

  /** atoi reads what was written, with a sign if there is one, up to the first character that is no digit. */
  lemma AtoiReadsDecimal(n: nat, rest: seq<char>)
    requires EndsNumber(rest)
    ensures Atoi(Decimal(n) + rest) == n && Atoi(Decimal(n)) == n
    ensures Atoi("-" + Decimal(n)) == 0 - n && Atoi("+" + Decimal(n)) == n
  {
    DigitsOfDecimal(n, rest);
    assert (Decimal(n) + rest)[0] == Decimal(n)[0];
    assert ("-" + Decimal(n))[1..] == Decimal(n) && ("+" + Decimal(n))[1..] == Decimal(n);
  }

  /** White space before a number is skipped, and text that begins otherwise counts as 0. */
  lemma AtoiSkipsBlanks(c: char, s: seq<char>)
    ensures c == ' ' || 9 <= c as int <= 13 ==> Atoi([c] + s) == Atoi(s)
    ensures !(c == ' ' || 9 <= c as int <= 13 || c == '-' || c == '+' || IsDigit(c)) ==> Atoi([c] + s) == 0
  {
    assert ([c] + s)[1..] == s;
  }

  /** How long a number gets. */
  lemma {:induction false} DecimalLength(n: nat, k: nat)
    requires 0 < k && n < Power10(k)
    ensures |Decimal(n)| <= k
  {
    if n >= 10 {
      DecimalLength(n / 10, k - 1);
    }
  }

  function Power10(k: nat): nat {
    if k == 0 then 1 else 10 * Power10(k - 1)
  }

  // ---- Prefixes --------------------------------------------------------------------------------

  lemma {:induction false} StartsWithIff(s: seq<char>, prefix: seq<char>)
    ensures StartsWith(s, prefix) <==> |prefix| <= |s| && forall i :: 0 <= i < |prefix| ==> s[i] == prefix[i]
  {
    if prefix != [] && s != [] {
      StartsWithIff(s[1..], prefix[1..]);
      assert forall i :: 1 <= i < |prefix| ==> prefix[i] == prefix[1..][i - 1];
      assert forall i :: 1 <= i < |s| ==> s[i] == s[1..][i - 1];
    }
  }

  /** The same letter, in upper or lower case. */
  predicate SameLetter(c: char, d: char) {
    c == d || ('A' <= c <= 'Z' && d as int == c as int + 32) || ('A' <= d <= 'Z' && c as int == d as int + 32)
  }

  lemma LowerIff(c: char, d: char)
    ensures Lower(c) == Lower(d) <==> SameLetter(c, d)
  {
  }

  predicate Named(line: seq<char>, name: seq<char>) {
    |name| <= |line| && forall i :: 0 <= i < |name| ==> SameLetter(line[i], name[i])
  }

  /** A header name is found in any mix of cases, and only at the start of the line. */
  lemma {:induction false} HasNameIff(line: seq<char>, name: seq<char>)
    ensures HasName(line, name) <==> Named(line, name)
  {
    if name != [] && line != [] {
      LowerIff(line[0], name[0]);
      HasNameIff(line[1..], name[1..]);
      assert forall i :: 1 <= i < |name| ==> name[i] == name[1..][i - 1];
      assert forall i :: 1 <= i < |line| ==> line[i] == line[1..][i - 1];
    }
  }

  /** No line carries two of the names. */
  lemma NamesExclude(line: seq<char>)
    ensures Named(line, "Content-Length: ") ==> !Named(line, "Content-Encoding: gzip")
    ensures Named(line, "Content-Length: ") || Named(line, "Content-Encoding: gzip") ==> !Named(line, "Location: ")
    ensures Named(line, "Content-Disposition: ") ==> !Named(line, "Location: ")
    ensures Named(line, "Content-Disposition: ") ==> !Named(line, "Content-Length: ")
    ensures Named(line, "Content-Disposition: ") ==> !Named(line, "Content-Encoding: gzip")
  {
    var names := ["Content-Length: ", "Content-Encoding: gzip", "Location: ", "Content-Disposition: "];
    assert names[0][8] == 'L' && names[1][8] == 'E' && names[3][8] == 'D';
    assert names[0][0] == names[1][0] == names[3][0] == 'C' && names[2][0] == 'L';
  }

  /** A length, a gzip coding and, in a redirection, a target are taken from the lines of these names, in any mix of
      cases; every other line changes nothing. */
  lemma AddHeaderIff(h: Head, line: seq<char>)
    ensures Named(line, "Content-Length: ") ==>
      AddHeader(h, line) == h.(contentLen := Atoi(line[16..]), confirmedLength := true)
    ensures Named(line, "Content-Encoding: gzip") ==> AddHeader(h, line) == h.(gzip := true)
    ensures Named(line, "Location: ") ==> AddHeader(h, line) == if h.redirecting then h.(redirected := true) else h
    ensures AddHeader(h, line) != h ==>
      Named(line, "Content-Length: ") || Named(line, "Content-Encoding: gzip") || Named(line, "Location: ")
  {
    NamesExclude(line);
    HasNameIff(line, "Content-Length: ");
    HasNameIff(line, "Content-Encoding: gzip");
    HasNameIff(line, "Content-Disposition: ");
    HasNameIff(line, "Location: ");
  }

  /** The blank line needs no CR. */
  lemma BareNewlineEndsHead(h: Head, body: seq<char>)
    ensures ParseHeaders("\n" + body, h) == Body(h, 1)
  {
    var s := "\n" + body;
    assert s[..1] == "\n";
    FirstLineIsUnique(s, LINE_BUFFER_SIZE - 1, 1);
  }

  // ---- Strings ---------------------------------------------------------------------------------

  lemma {:induction false} CStringIff(s: seq<char>)
    ensures CString(s) <= s && '\0' !in CString(s)
    ensures |CString(s)| < |s| ==> s[|CString(s)|] == '\0'
  {
    if s != [] && s[0] != '\0' {
      CStringIff(s[1..]);
    }
  }

  /** What is left has no white space at its end, and what is cut is nothing else. */
  lemma {:induction false} TrimRightIff(s: seq<char>)
    ensures TrimRight(s) <= s
    ensures TrimRight(s) != [] ==> TrimRight(s)[|TrimRight(s)| - 1] !in [' ', '\t', '\r', '\n']
    ensures forall i :: |TrimRight(s)| <= i < |s| ==> s[i] in [' ', '\t', '\r', '\n']
  {
    if s != [] && IsTrimmed(s[|s| - 1]) {
      TrimRightIff(s[..|s| - 1]);
    }
  }

  // ---- Status lines ----------------------------------------------------------------------------

  lemma {:induction false} SpaceFound(a: seq<char>, b: seq<char>)
    requires ' ' !in a
    ensures AfterSpace(a + " " + b) == b
  {
    var s := a + " " + b;
    if a == [] {
      assert s[1..] == b;
    } else {
      assert s[1..] == a[1..] + " " + b;
      SpaceFound(a[1..], b);
    }
  }

  /** The status that an answer code stands for, and whether it is a redirection. */
  function Verdict(code: seq<char>): (EStatus, bool) {
    if code in ["301", "302", "303", "307", "308"] then (adRunning, true)
    else if code == "200" then (adRunning, false)
    else if code == "400" || code == "499" then (adConnectError, false)
    else if code == "404" then (adNotFound, false)
    else (adFailed, false)
  }

  /** The code is the three characters after the first space of a line that begins with HTTP. */
  lemma StatusByCode(version: seq<char>, code: seq<char>, text: seq<char>)
    requires ' ' !in version && |code| == 3
    ensures var line := "HTTP" + version + " " + (code + text);
      ResponseStatus(line) == Verdict(code).0 && IsRedirection(line) == Verdict(code).1
  {
    var line := "HTTP" + version + " " + (code + text);
    var start := "HTTP" + version;
    assert forall i :: 0 <= i < |start| ==> start[i] != ' ';
    SpaceFound(start, code + text);
    assert line[|start|] == ' ' && line[..4] == "HTTP";
    StartsWithIff(line, "HTTP");
    CodeIs(code, text);
  }

  lemma CodeIs(code: seq<char>, text: seq<char>)
    requires |code| == 3
    ensures forall c: seq<char> | |c| == 3 :: StartsWith(code + text, c) <==> code == c
  {
    forall c: seq<char> | |c| == 3
      ensures StartsWith(code + text, c) <==> code == c
    {
      StartsWithIff(code + text, c);
      assert (code + text)[..3] == code;
      if code != c {
        assert exists i :: 0 <= i < 3 && code[i] != c[i];
      }
    }
  }

  /** A line that does not begin with HTTP, or has no space, is no answer. */
  lemma NoStatus(line: seq<char>)
    requires ' ' !in line || !("HTTP" <= line)
    ensures ResponseStatus(line) == adFailed && !IsRedirection(line)
  {
    StartsWithIff(line, "HTTP");
  }
}
