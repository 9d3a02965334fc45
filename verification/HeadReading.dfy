/** What a download makes of the octets that come, line by line and however a receive error cuts them short. */
module HeadReading {
  import opened Connections
  import opened HttpHeaders

  /** A part of a body as one read brought it, and how much of it the disk took. */
  datatype Delivery = Delivery(chunk: seq<char>, taken: nat)

  /** Reads are not empty, and the disk takes no more than it is given. */
  predicate AreDeliveries(ds: seq<Delivery>) {
    forall i :: 0 <= i < |ds| ==> ds[i].chunk != [] && ds[i].taken <= |ds[i].chunk|
  }

  function Received(ds: seq<Delivery>): seq<char> {
    if ds == [] then [] else Received(ds[..|ds| - 1]) + ds[|ds| - 1].chunk
  }

  /** The file: of each chunk in turn, the part that the disk took. */
  function Kept(ds: seq<Delivery>): seq<char> {
    if ds == [] then []
    else
      var last := ds[|ds| - 1];
      Kept(ds[..|ds| - 1]) + if last.taken < |last.chunk| then last.chunk[..last.taken] else last.chunk
  }

  predicate IsShort(ds: seq<Delivery>) {
    ds != [] && (ds[|ds| - 1].taken < |ds[|ds| - 1].chunk| || IsShort(ds[..|ds| - 1]))
  }

  /** How many octets had been received after each read. */
  function Sums(ds: seq<Delivery>): set<int> {
    if ds == [] then {} else Sums(ds[..|ds| - 1]) + {|Received(ds)|}
  }

  lemma OneMore(ds: seq<Delivery>, chunk: seq<char>, taken: nat)
    ensures var more := ds + [Delivery(chunk, taken)];
      && Received(more) == Received(ds) + chunk
      && Kept(more) == Kept(ds) + (if taken < |chunk| then chunk[..taken] else chunk)
      && (IsShort(more) <==> taken < |chunk| || IsShort(ds))
      && Sums(more) == Sums(ds) + {|Received(ds)| + |chunk|}
  {
    assert (ds + [Delivery(chunk, taken)])[..|ds|] == ds;
  }

  lemma OneSum(chunk: seq<char>, taken: nat)
    ensures Received([Delivery(chunk, taken)]) == chunk && Sums([Delivery(chunk, taken)]) == {|chunk|}
  {
    OneMore([], chunk, taken);
    assert [] + [Delivery(chunk, taken)] == [Delivery(chunk, taken)] && [] + chunk == chunk;
  }

  /** A short file is shorter than what was received; any other is the same. */
  lemma {:induction false} ShortIff(ds: seq<Delivery>)
    ensures |Kept(ds)| <= |Received(ds)|
    ensures IsShort(ds) <==> |Kept(ds)| < |Received(ds)|
    ensures !IsShort(ds) ==> Kept(ds) == Received(ds)
  {
    if ds != [] {
      ShortIff(ds[..|ds| - 1]);
    }
  }

  lemma {:induction false} SumsAreReceived(ds: seq<Delivery>)
    requires AreDeliveries(ds)
    ensures forall sum :: sum in Sums(ds) ==> 0 < sum <= |Received(ds)|
    ensures ds != [] ==> |Received(ds)| in Sums(ds)
  {
    if ds != [] {
      SumsAreReceived(ds[..|ds| - 1]);
    }
  }

  /** Exactly how a body of `length` octets ends a download when nothing goes wrong: an announced length is noticed if
      and only if some read ends there. */
  function BodyOutcome(h: Head, ds: seq<Delivery>, length: nat): EStatus {
    if h.contentLen == -1 then
      if length == 0 then adFailed else adFinished
    else if h.contentLen in Sums(ds) then adFinished
    else adFailed
  }

  /** How a body ends a download when nothing goes wrong; a failed one has been received to its end. */
  predicate IsBodyEnd(h: Head, body: seq<char>, ds: seq<Delivery>, status: EStatus) {
    && AreDeliveries(ds) && Received(ds) <= body
    && status == BodyOutcome(h, ds, |body|)
    && (status == adFailed ==> Received(ds) == body)
  }

  ghost function BodyEnds(h: Head, body: seq<char>, ds: seq<Delivery>): iset<EStatus> {
    iset s | IsBodyEnd(h, body, ds, s)
  }

  /** How a body of `length` octets may end a download, for all ways in which it may come. */
  function BodyOutcomes(h: Head, length: nat): set<EStatus> {
    if h.contentLen == -1 then
      if length == 0 then {adFailed} else {adFinished}
    else if h.contentLen <= 0 || h.contentLen > length then {adFailed}
    else if h.contentLen == length then {adFinished}
    else {adFinished, adFailed}
  }

  /** Undisturbed, a request can finish exactly if some body comes, and all of an announced positive length. */
  lemma CanFinishIff(h: Head, length: nat)
    ensures adFinished in BodyOutcomes(h, length) <==> length > 0 && (h.contentLen == -1 || 0 < h.contentLen <= length)
  {
  }

  /** Only octets past the announced length leave it to the chunks whether the end is noticed. */
  lemma OutcomeByLength(h: Head, body: seq<char>, ds: seq<Delivery>, status: EStatus)
    requires IsBodyEnd(h, body, ds, status)
    ensures status in BodyOutcomes(h, |body|)
  {
    SumsAreReceived(ds);
  }

  /** How a request ends that nothing disturbs: as the head says, or with the body. */
  ghost function AnswerEnds(answer: seq<char>, ds: seq<Delivery>): iset<EStatus> {
    match ParseResponse(answer)
    case Ended(s) => iset{s}
    case Body(h, n) => BodyEnds(h, answer[n..], ds)
  }

  function ResponseOutcomes(answer: seq<char>): set<EStatus> {
    match ParseResponse(answer)
    case Ended(s) => {s}
    case Body(h, n) => BodyOutcomes(h, |answer| - n)
  }

  lemma AnswerEndsByLength(answer: seq<char>, ds: seq<Delivery>, status: EStatus)
    ensures status in AnswerEnds(answer, ds) ==> status in ResponseOutcomes(answer)
  {
    var p := ParseResponse(answer);
    if p.Body? && status in AnswerEnds(answer, ds) {
      OutcomeByLength(p.head, answer[p.start..], ds, status);
    }
  }

  /** A connection closed before the first line is a failed download, not a failed connection. */
  lemma NoAnswer()
    ensures ResponseOutcomes([]) == {adFailed}
  {
    assert ResponseStatus([]) == adFailed;
  }

  /** What a finished download of a body leaves behind: what the disk took of the chunks that make up its content. */
  predicate IsDelivered(h: Head, body: seq<char>, content: seq<char>, ds: seq<Delivery>) {
    AreDeliveries(ds) && IsBodyContent(h, body, Received(ds)) && content == Kept(ds)
  }

  ghost function Contents(h: Head, body: seq<char>, ds: seq<Delivery>): iset<seq<char>> {
    iset content | IsDelivered(h, body, content, ds)
  }

  /** The file is complete exactly if the disk took everything; where any first part of the body counts as all of it, a
      short file is still shorter than what was received. */
  lemma CompleteIff(h: Head, body: seq<char>, content: seq<char>, ds: seq<Delivery>)
    requires IsDelivered(h, body, content, ds)
    ensures h.contentLen != -1 || !h.gzip ==> (IsBodyContent(h, body, content) <==> !IsShort(ds))
    ensures IsShort(ds) <==> |content| < |Received(ds)|
  {
    ShortIff(ds);
  }

  /** The content that an answer announces, from where its head was taken to end, as far as the disk took it. The head
      was taken to end where it does end exactly if no receive error cut it. */
  predicate WasDelivered(answer: seq<char>, bodyStart: nat, intact: bool, content: seq<char>, ds: seq<Delivery>) {
    && HeadEndsAt(answer, bodyStart)
    && IsDelivered(ParseResponse(answer[..bodyStart]).head, answer[bodyStart..], content, ds)
    && ParseResponse(answer).Body? && (intact <==> bodyStart == ParseResponse(answer).start)
  }

  ghost function Deliverable(answer: seq<char>, bodyStart: nat, intact: bool, ds: seq<Delivery>): iset<seq<char>> {
    iset content | WasDelivered(answer, bodyStart, intact, content, ds)
  }

  lemma DeliveredWhole(front: seq<char>, h: Head, body: seq<char>, content: seq<char>, ds: seq<Delivery>)
    requires ReadsAs(front, h) && IsDelivered(h, body, content, ds)
    ensures WasDelivered(Response(front, body), |front| + 2, true, content, ds)
  {
    WholeHead(front, h, body);
    AfterTheHead(front, body);
    WholeHead(front, h, "");
    assert Response(front, body)[..|front| + 2] == Response(front, "");
  }

  /** How many of the octets a reader at `n` can count on: all, or only those that came before a receive error. */
  function CameTo(all: seq<char>, n: nat, conn: Status): nat {
    if conn == Connected then |all| else n
  }

  /** What the loop of DownloadHeaders makes of a line. */
  datatype Turn = Turn(status: EStatus, done: bool, head: Head)

  function HandledLine(h: Head, ok: bool, line: seq<char>, lead: char, firstLine: bool): Turn {
    if firstLine && ResponseStatus(line) != adRunning then Turn(ResponseStatus(line), true, h)
    else
      var g := if firstLine then h.(redirecting := IsRedirection(line)) else h;
      if !ok then Turn(adFailed, true, g)
      else if lead == '\r' || lead == '\n' then Turn(adRunning, true, g)
      else
        var next := AddHeader(g, TrimRight(line));
        if next.redirected then Turn(adRedirect, true, next) else Turn(adRunning, false, next)
  }

  /** How reading the head ends, as the first `n` octets and the loop variables settle it. */
  function Outlook(all: seq<char>, n: nat, firstLine: bool, done: bool, status: EStatus, h: Head): Parsed
    requires n <= |all|
  {
    if done then if status == adRunning then Body(h, n) else Ended(status)
    else if firstLine then ParseResponse(all)
    else ParseHeaders(all[n..], h).Shift(n)
  }

  /** The outlook is right for a stream of any length from `n` to `top` octets. */
  ghost predicate Agrees(all: seq<char>, n: nat, top: nat, firstLine: bool, done: bool, status: EStatus, h: Head) {
    n <= top <= |all| &&
    forall m: nat | n <= m <= top :: ParseResponse(all[..m]) == Outlook(all[..m], n, firstLine, done, status, h)
  }

  /** The octets from `n` on begin with the rest of the line that ends the head. */
  predicate HeadGoesOn(all: seq<char>, n: nat) {
    n < |all| ==> ParseResponse(all).Body? && n < ParseResponse(all).start
  }

  /** The line is the next one of the stream. */
  predicate IsNextLine(all: seq<char>, at: nat, n: nat, ok: bool, line: seq<char>, needed: bool)
    requires at <= |all|
  {
    var text := NextLine(all[at..]);
    n == at + |text| && (ok <==> text != []) && (needed ==> line == CString(text))
  }

  /** One ReadLine of the head, between two states of the connection. */
  ghost predicate IsReading(all: seq<char>, at: nat, n: nat, before: Status, after: Status,
                            ok: bool, line: seq<char>, lead: char)
  {
    && at <= n <= |all| && (ok <==> at < n) && (ok ==> lead == all[at])
    && (after == before || (before == Connected && after == Broken))
    && IsNextLine(all[..CameTo(all, n, after)], at, n, ok, line, before == Connected)
    && (before != Connected ==> n == at)
    && (before != after ==> '\n' !in all[at..n] && n - at < LINE_BUFFER_SIZE - 1)
  }

  /** The first `n` octets of the body have been received and handed to the disk. */
  predicate AreHandled(all: seq<char>, n: nat, ds: seq<Delivery>) {
    n <= |all| && AreDeliveries(ds) && Received(ds) == all[..n]
  }

  lemma HandleMore(all: seq<char>, n: nat, ds: seq<Delivery>, chunk: seq<char>, taken: nat)
    requires AreHandled(all, n, ds) && chunk != [] && taken <= |chunk|
    requires n + |chunk| <= |all| && chunk == all[n..][..|chunk|]
    ensures AreHandled(all, n + |chunk|, ds + [Delivery(chunk, taken)])
    ensures Sums(ds + [Delivery(chunk, taken)]) == Sums(ds) + {n + |chunk|}
  {
    OneMore(ds, chunk, taken);
  }

  lemma CompleteSettles(h: Head, all: seq<char>, n: nat, ds: seq<Delivery>)
    requires AreHandled(all, n, ds) && 0 < n && (h.contentLen != -1 ==> h.contentLen in Sums(ds))
    requires n == h.contentLen || (h.contentLen == -1 && (n == |all| || (h.gzip && h.confirmedLength)))
    ensures Kept(ds) in Contents(h, all, ds) && adFinished in BodyEnds(h, all, ds)
  {
    assert n == |all| ==> all[..n] == all;
  }

  lemma OverSettles(h: Head, all: seq<char>, ds: seq<Delivery>)
    ensures AreHandled(all, |all|, ds) && h.contentLen !in Sums(ds) && (h.contentLen == -1 ==> all == []) ==>
      adFailed in BodyEnds(h, all, ds)
  {
    assert all[..|all|] == all;
  }

  lemma WholeDelivery(answer: seq<char>, bodyStart: nat, intact: bool, content: seq<char>, ds: seq<Delivery>)
    ensures content in Deliverable(answer, bodyStart, intact, ds) && intact && !IsShort(ds) ==>
      IsDownload(answer, content)
  {
    if content in Deliverable(answer, bodyStart, intact, ds) && intact && !IsShort(ds) {
      var blank := CutResponse(answer, bodyStart);
      ShortIff(ds);
    }
  }

  lemma NextLineOfAnyLength(all: seq<char>, at: nat, n: nat, came: nat, m: nat, ok: bool, line: seq<char>, needed: bool)
    requires at <= n <= m <= came <= |all| && IsNextLine(all[..came], at, n, ok, line, needed)
    ensures IsNextLine(all[..m], at, n, ok, line, needed)
  {
    var s := all[..came][at..];
    var text := NextLine(s);
    assert all[..m][at..] == s[..m - at];
    NextLineIsOne(s);
    NextLineOfPrefix(s, m - at);
    assert m == n ==> s[..m - at] == text;
  }

  lemma ReadingOf(all: seq<char>, at: nat, k: nat, before: Status, after: Status, ok: bool, line: seq<char>, lead: char)
    requires at + k <= |all| && (ok <==> k > 0) && (ok ==> lead == all[at..][0])
    requires after == before || (before == Connected && after == Broken)
    requires if before != Connected then k == 0
      else NextLine(all[at..][..CameTo(all[at..], k, after)]) == all[at..][..k] && line == CString(all[at..][..k])
    requires before != after ==> k < LINE_BUFFER_SIZE - 1 && '\n' !in all[at..][..k]
    ensures IsReading(all, at, at + k, before, after, ok, line, lead)
  {
    LineOf(all, at, at + k, CameTo(all, at + k, after));
  }

  lemma LineOf(all: seq<char>, at: nat, n: nat, came: nat)
    requires at <= n <= came <= |all|
    ensures all[..came][at..] == all[at..][..came - at] && all[at..n] == all[at..][..n - at]
  {
  }

  /** Where reading the head stands, with the connection in status `conn`: after a receive error, the octets up to `n`
      are all that count, and a blank line that it cut short ends further on. */
  ghost predicate GoesOn(all: seq<char>, n: nat, conn: Status, firstLine: bool, done: bool, status: EStatus, h: Head) {
    && (conn == Connected || (conn == Broken && !firstLine))
    && Agrees(all, n, CameTo(all, n, conn), firstLine, done, status, h)
    && (done && status == adRunning && conn == Broken ==> HeadGoesOn(all, n))
  }

  lemma TurnGoesOn(all: seq<char>, at: nat, n: nat, before: Status, after: Status,
                   ok: bool, line: seq<char>, lead: char, firstLine: bool, h: Head)
    requires GoesOn(all, at, before, firstLine, false, adRunning, h)
    requires IsReading(all, at, n, before, after, ok, line, lead)
    requires firstLine ==> at == 0 && h == Head(-1, false, false, false, false)
    ensures var turn := HandledLine(h, ok, line, lead, firstLine);
      GoesOn(all, n, after, false, turn.done, turn.status, turn.head)
  {
    TurnAgrees(all, at, n, CameTo(all, at, before), CameTo(all, n, after), ok, line, lead, firstLine, h);
    var turn := HandledLine(h, ok, line, lead, firstLine);
    if turn.done && turn.status == adRunning && after == Broken {
      CutLineGoesOn(all, at, n, h);
    }
  }

  /** What is settled when the head has been read up to `n`, cleanly or up to a receive error. */
  ghost predicate HeadRead(all: seq<char>, n: nat, clean: bool, status: EStatus, h: Head) {
    && n <= |all|
    && ParseResponse(all[..if clean then |all| else n]) == (if status == adRunning then Body(h, n) else Ended(status))
    && (status == adRunning ==> ParseResponse(all[..n]) == Body(h, n))
    && (status == adRunning && !clean ==> HeadGoesOn(all, n))
  }

  lemma HeadBegins(all: seq<char>, h: Head)
    ensures GoesOn(all, 0, Connected, true, false, adRunning, h)
  {
  }

  lemma HeadIsRead(all: seq<char>, n: nat, conn: Status, firstLine: bool, status: EStatus, h: Head)
    ensures GoesOn(all, n, conn, firstLine, true, status, h) ==> HeadRead(all, n, conn == Connected, status, h)
  {
  }

  lemma HeadSettles(answer: seq<char>, n: nat, clean: bool, status: EStatus, h: Head)
    requires HeadRead(answer, n, clean, status, h)
    ensures clean ==> ParseResponse(answer) == if status == adRunning then Body(h, n) else Ended(status)
    ensures status == adRunning ==> HeadEndsAt(answer, n) && ParseResponse(answer[..n]).head == h
    ensures status == adRunning && n < |answer| ==>
      ParseResponse(answer).Body? && (clean <==> n == ParseResponse(answer).start)
  {
    assert answer[..|answer|] == answer;
  }

  lemma OutcomeSettles(answer: seq<char>, n: nat, headStatus: EStatus, h: Head, ds: seq<Delivery>, status: EStatus)
    requires headStatus == adRunning ==> n <= |answer| && status in BodyEnds(h, answer[n..], ds)
    requires headStatus != adRunning ==> status == headStatus
    ensures HeadRead(answer, n, true, headStatus, h) ==> status in AnswerEnds(answer, ds)
  {
    if HeadRead(answer, n, true, headStatus, h) {
      HeadSettles(answer, n, true, headStatus, h);
    }
  }

  lemma DeliverySettles(answer: seq<char>, n: nat, clean: bool, h: Head, content: seq<char>, ds: seq<Delivery>)
    ensures HeadRead(answer, n, clean, adRunning, h) && content in Contents(h, answer[n..], ds) ==>
      content in Deliverable(answer, n, clean, ds)
  {
    if HeadRead(answer, n, clean, adRunning, h) {
      HeadSettles(answer, n, clean, adRunning, h);
    }
  }

  lemma TurnAgrees(all: seq<char>, at: nat, n: nat, top: nat, came: nat, ok: bool, line: seq<char>, lead: char,
                   firstLine: bool, h: Head)
    requires Agrees(all, at, top, firstLine, false, adRunning, h)
    requires at <= n <= came <= top && IsNextLine(all[..came], at, n, ok, line, ok || firstLine)
    requires (ok ==> lead == all[at]) && (firstLine ==> at == 0 && h == Head(-1, false, false, false, false))
    ensures var turn := HandledLine(h, ok, line, lead, firstLine);
      Agrees(all, n, came, false, turn.done, turn.status, turn.head)
  {
    var turn := HandledLine(h, ok, line, lead, firstLine);
    forall m: nat | n <= m <= came
      ensures ParseResponse(all[..m]) == Outlook(all[..m], n, false, turn.done, turn.status, turn.head)
    {
      NextLineOfAnyLength(all, at, n, came, m, ok, line, ok || firstLine);
      OneLineRead(all[..m], at, n, ok, line, lead, firstLine, h);
    }
  }

  /** One line read is one step of parsing the whole head. */
  lemma OneLineRead(all: seq<char>, at: nat, n: nat, ok: bool, line: seq<char>, lead: char, firstLine: bool, h: Head)
    requires at <= n <= |all| && IsNextLine(all, at, n, ok, line, ok || firstLine)
    requires (ok ==> lead == all[at]) && (firstLine ==> at == 0 && h == Head(-1, false, false, false, false))
    ensures var turn := HandledLine(h, ok, line, lead, firstLine);
      Outlook(all, at, firstLine, false, adRunning, h) == Outlook(all, n, false, turn.done, turn.status, turn.head)
  {
    var text := NextLine(all[at..]);
    assert ok ==> text[0] == all[at] && all[at..][|text|..] == all[n..];
    assert all[0..] == all;
  }

  /** A blank line that a receive error cut short ends further on. */
  lemma CutLineGoesOn(all: seq<char>, at: nat, n: nat, h: Head)
    requires Agrees(all, at, |all|, false, false, adRunning, h) && at < n <= |all|
    requires '\n' !in all[at..n] && n - at < LINE_BUFFER_SIZE - 1
    requires all[at] == '\r' || all[at] == '\n'
    ensures HeadGoesOn(all, n)
  {
    assert all[..|all|] == all;
    LineOf(all, at, n, n);
    if n < |all| {
      CutLineIsLonger(all[at..], n - at);
    }
  }

  lemma CutLineIsLonger(rest: seq<char>, k: nat)
    requires k < |rest| && '\n' !in rest[..k] && k < LINE_BUFFER_SIZE - 1
    ensures |NextLine(rest)| > k
  {
    var text := NextLine(rest);
    NextLineIsOne(rest);
    assert forall i :: 0 <= i < k ==> rest[i] == rest[..k][i];
  }

  /** What ReadLine delivers is the next line, of the whole stream or of what came. */
  lemma ReadIsNext(rest: seq<char>, k: nat, whole: bool)
    requires k <= |rest|
    requires if whole then rest[..k] == NextLine(rest) else k < LINE_BUFFER_SIZE - 1 && '\n' !in rest[..k]
    ensures NextLine(rest[..if whole then |rest| else k]) == rest[..k]
  {
    if whole {
      assert rest[..|rest|] == rest;
    } else {
      assert rest[..k][..k] == rest[..k];
      FirstLineIsUnique(rest[..k], LINE_BUFFER_SIZE - 1, k);
    }
  }

  lemma {:induction false} CStringEndsAtNul(b: seq<char>, n: nat)
    requires n < |b| && b[n] == '\0'
    ensures CString(b) == CString(b[..n])
  {
    if n > 0 && b[0] != '\0' {
      assert b[..n][1..] == b[1..][..n - 1];
      CStringEndsAtNul(b[1..], n - 1);
    }
  }
}
