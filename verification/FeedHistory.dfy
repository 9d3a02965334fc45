/** The feed history of daemon/feed/FeedCoordinator.cpp, and when an item that stays in a feed is downloaded once. */
module FeedHistories {
  import opened Wrappers
  import opened Sequences

  const DAY: int := 60 * 60 * 24

  datatype HistoryStatus = hsUnknown | hsBacklog | hsFetched

  datatype Entry = Entry(url: string, status: HistoryStatus, lastSeen: int)

  type History = seq<Entry>

  predicate UniqueUrls(h: History) {
    forall i, j :: 0 <= i < j < |h| ==> h[i].url != h[j].url
  }

  /** FeedHistory::Find: the position of the first entry for the url, or the length. */
  function Find(h: History, url: string): (i: nat)
    ensures i <= |h|
    ensures i < |h| ==> h[i].url == url
    ensures forall k :: 0 <= k < i ==> h[k].url != url
  {
    if h == [] || h[0].url == url then 0 else 1 + Find(h[1..], url)
  }

  predicate Known(h: History, url: string) {
    Find(h, url) < |h|
  }

  function LastSeen(h: History, url: string): int
    requires Known(h, url)
  {
    h[Find(h, url)].lastSeen
  }

  /** An accepted item and the clock reading at which it was handled. */
  datatype Seen = Seen(url: string, at: int)

  /** One accepted item: refresh its entry, or add one. */
  function Remember(h: History, item: Seen, backlogFetch: bool): (r: History)
    ensures |r| == if Known(h, item.url) then |h| else |h| + 1
  {
    var i := Find(h, item.url);
    if i < |h| then h[i := h[i].(lastSeen := item.at)]
    else h + [Entry(item.url, if backlogFetch then hsBacklog else hsFetched, item.at)]
  }

  /** An accepted item becomes an NzbInfo unless it is known or part of the backlog. */
  predicate IsNew(h: History, item: Seen, backlogFetch: bool) {
    !backlogFetch && !Known(h, item.url)
  }

  function ProcessItems(h: History, items: seq<Seen>, backlogFetch: bool): History
    decreases |items|
  {
    if items == [] then h else ProcessItems(Remember(h, items[0], backlogFetch), items[1..], backlogFetch)
  }

  /** The urls for which ProcessFeed creates an NzbInfo, in order. */
  function Created(h: History, items: seq<Seen>, backlogFetch: bool): seq<string>
    decreases |items|
  {
    if items == [] then []
    else
      var rest := Created(Remember(h, items[0], backlogFetch), items[1..], backlogFetch);
      if IsNew(h, items[0], backlogFetch) then [items[0].url] + rest else rest
  }

  function Forget(h: History, border: int): History {
    Filter((e: Entry) => e.lastSeen >= border, h)
  }

  function Oldest(lastUpdates: seq<int>, now: int): (t: int)
    ensures t <= now && forall i :: 0 <= i < |lastUpdates| ==> t <= lastUpdates[i]
    ensures t == now || t in lastUpdates
  {
    if lastUpdates == [] then now
    else
      var t := Oldest(lastUpdates[1..], now);
      if lastUpdates[0] < t then lastUpdates[0] else t
  }

  function Border(lastUpdates: seq<int>, now: int, historyDays: int): int {
    Oldest(lastUpdates, now) - historyDays * DAY
  }

  /** The entry of a url whose download has completed. */
  function Complete(h: History, url: string, now: int): History {
    var i := Find(h, url);
    if i < |h| then h[i := h[i].(status := hsFetched)] else h + [Entry(url, hsFetched, now)]
  }

  lemma FindIs(h: History, url: string, i: nat)
    requires i < |h| && h[i].url == url && UniqueUrls(h)
    ensures Find(h, url) == i
  {
  }

  lemma RememberEffect(h: History, item: Seen, backlogFetch: bool, url: string)
    requires UniqueUrls(h)
    ensures var r := Remember(h, item, backlogFetch);
      && UniqueUrls(r)
      && (Known(r, url) <==> Known(h, url) || url == item.url)
      && (Known(r, url) ==> LastSeen(r, url) == if url == item.url then item.at else LastSeen(h, url))
  {
    var r, i := Remember(h, item, backlogFetch), Find(h, item.url);
    assert forall k :: 0 <= k < |h| ==> r[k].url == h[k].url;
    if Known(h, url) {
      FindIs(r, url, Find(h, url));
    } else if url == item.url {
      FindIs(r, url, |h|);
    }
  }

  predicate Mentions(items: seq<Seen>, url: string) {
    exists i :: 0 <= i < |items| && items[i].url == url
  }

  /** Clock readings that do not go back. */
  predicate InOrder(items: seq<Seen>, from: int, to: int) {
    && from <= to
    && (forall i :: 0 <= i < |items| ==> from <= items[i].at <= to)
    && (forall i, j :: 0 <= i < j < |items| ==> items[i].at <= items[j].at)
  }

  /** What processing a feed does for one url: it is created at most once, and only if it was not known. */
  lemma {:induction false} ProcessEffect(h: History, items: seq<Seen>, backlogFetch: bool, url: string,
                                         from: int, to: int)
    requires UniqueUrls(h) && InOrder(items, from, to)
    ensures var r := ProcessItems(h, items, backlogFetch);
      && UniqueUrls(r)
      && (Known(r, url) <==> Known(h, url) || Mentions(items, url))
      && (Known(r, url) && Mentions(items, url) ==> LastSeen(r, url) >= from)
      && (Known(r, url) && !Mentions(items, url) ==> LastSeen(r, url) == LastSeen(h, url))
    ensures multiset(Created(h, items, backlogFetch))[url] ==
      if !backlogFetch && !Known(h, url) && Mentions(items, url) then 1 else 0
    decreases |items|
  {
    if items != [] {
      var h1 := Remember(h, items[0], backlogFetch);
      RememberEffect(h, items[0], backlogFetch, url);
      ProcessEffect(h1, items[1..], backlogFetch, url, from, to);
      assert Mentions(items, url) <==> items[0].url == url || Mentions(items[1..], url) by {
        assert forall i :: 1 <= i < |items| ==> items[i] == items[1..][i - 1];
      }
    }
  }

  lemma {:induction false} ForgetEffect(h: History, border: int, url: string)
    requires UniqueUrls(h)
    ensures var r := Forget(h, border);
      && UniqueUrls(r)
      && (Known(r, url) <==> Known(h, url) && LastSeen(h, url) >= border)
      && (Known(r, url) ==> LastSeen(r, url) == LastSeen(h, url))
  {
    if h != [] {
      ForgetEffect(h[1..], border, url);
      ForgetEffect(h[1..], border, h[0].url);
    }
  }

  lemma CompleteEffect(h: History, done: string, now: int, url: string)
    requires UniqueUrls(h)
    ensures var r := Complete(h, done, now);
      && UniqueUrls(r)
      && (Known(r, url) <==> Known(h, url) || url == done)
      && (Known(h, url) ==> LastSeen(r, url) == LastSeen(h, url))
  {
    var r := Complete(h, done, now);
    assert forall k :: 0 <= k < |h| ==> r[k].url == h[k].url;
    if Known(h, url) {
      FindIs(r, url, Find(h, url));
    } else if url == done {
      FindIs(r, url, |h|);
    }
  }

  /** What CleanupHistory and ProcessFeed go by: the history, and when each feed was last updated (0 for never). */
  datatype State = State(history: History, lastUpdates: seq<int>)

  datatype Step =
    | Parsed(feed: nat, items: seq<Seen>, at: int)  // a fetched feed file was parsed: process its accepted items
    | ParseFailed(feed: nat, at: int)               // parsing failed: only the time of the update is kept
    | Cleanup(at: int)
    | UrlCompleted(url: string, at: int)

  /** The options that stay fixed over a run. */
  datatype Config = Config(backlog: seq<bool>, historyDays: int)

  predicate BacklogFetch(s: State, feed: nat, c: Config)
    requires feed < |s.lastUpdates| == |c.backlog|
  {
    s.lastUpdates[feed] == 0 && c.backlog[feed]
  }

  predicate Fits(s: State, step: Step, c: Config) {
    && |s.lastUpdates| == |c.backlog|
    && (step.Parsed? || step.ParseFailed? ==> step.feed < |s.lastUpdates|)
  }

  function After(s: State, step: Step, c: Config): (r: State)
    requires Fits(s, step, c)
    ensures |r.lastUpdates| == |s.lastUpdates|
  {
    match step
    case Parsed(f, items, at) => State(ProcessItems(s.history, items, BacklogFetch(s, f, c)), s.lastUpdates[f := at])
    case ParseFailed(f, at) => s.(lastUpdates := s.lastUpdates[f := at])
    case Cleanup(at) => s.(history := Forget(s.history, Border(s.lastUpdates, at, c.historyDays)))
    case UrlCompleted(url, at) => s.(history := Complete(s.history, url, at))
  }

  /** The urls that become NzbInfos in the step. */
  function NewUrls(s: State, step: Step, c: Config): seq<string>
    requires Fits(s, step, c)
  {
    if step.Parsed? then Created(s.history, step.items, BacklogFetch(s, step.feed, c)) else []
  }

  /** A run from `s`: every step fits, and the clock readings never go back. */
  predicate IsRun(s: State, steps: seq<Step>, clock: int, c: Config)
    decreases |steps|
  {
    steps != [] ==>
      var step := steps[0];
      && Fits(s, step, c)
      && clock <= step.at
      && (step.Parsed? ==> InOrder(step.items, clock, step.at))
      && IsRun(After(s, step, c), steps[1..], step.at, c)
  }

  function AllNewUrls(s: State, steps: seq<Step>, clock: int, c: Config): seq<string>
    requires IsRun(s, steps, clock, c)
    decreases |steps|
  {
    if steps == [] then []
    else NewUrls(s, steps[0], c) + AllNewUrls(After(s, steps[0], c), steps[1..], steps[0].at, c)
  }

  /** A run may also be said to begin earlier. */
  lemma EarlierClock(s: State, steps: seq<Step>, earlier: int, clock: int, c: Config)
    requires earlier <= clock && IsRun(s, steps, clock, c)
    ensures IsRun(s, steps, earlier, c) && AllNewUrls(s, steps, earlier, c) == AllNewUrls(s, steps, clock, c)
  {
  }

  lemma RunGoesOn(s: State, step: Step, steps: seq<Step>, clock: int, c: Config)
    requires Fits(s, step, c) && clock <= step.at && (step.Parsed? ==> InOrder(step.items, clock, step.at))
    requires IsRun(After(s, step, c), steps, step.at, c)
    ensures IsRun(s, [step] + steps, clock, c)
    ensures AllNewUrls(s, [step] + steps, clock, c) ==
      NewUrls(s, step, c) + AllNewUrls(After(s, step, c), steps, step.at, c)
  {
    assert ([step] + steps)[1..] == steps;
  }

  lemma {:induction false} OldestIs(lastUpdates: seq<int>, now: int, t: int)
    requires t <= now && forall i :: 0 <= i < |lastUpdates| ==> t <= lastUpdates[i]
    requires t == now || t in lastUpdates
    ensures t == Oldest(lastUpdates, now)
  {
  }

  /** The url is accepted in every successful parse of the feed. */
  predicate StaysIn(steps: seq<Step>, feed: nat, url: string) {
    forall i :: 0 <= i < |steps| && steps[i].Parsed? && steps[i].feed == feed ==> Mentions(steps[i].items, url)
  }

  /** At every cleanup the feed's last update is at most FeedHistory days past `parsedAt`, the beginning of its last
      successful parse. Failed parses move the last update on without refreshing any entry. */
  predicate KeptFresh(s: State, steps: seq<Step>, clock: int, c: Config, feed: nat, parsedAt: int)
    requires IsRun(s, steps, clock, c) && feed < |s.lastUpdates|
    decreases |steps|
  {
    steps != [] ==>
      var step := steps[0];
      && (step.Cleanup? ==> s.lastUpdates[feed] <= parsedAt + c.historyDays * DAY)
      && KeptFresh(After(s, step, c), steps[1..], step.at, c, feed,
                   if step.Parsed? && step.feed == feed && step.items != [] then step.items[0].at else parsedAt)
  }

  /** The invariant: the entry has been seen since the feed's last successful parse began, so no cleanup reaches it. */
  lemma {:induction false} StaysKnown(s: State, steps: seq<Step>, clock: int, c: Config, feed: nat, url: string,
                                      parsedAt: int)
    requires IsRun(s, steps, clock, c) && feed < |s.lastUpdates| && UniqueUrls(s.history)
    requires Known(s.history, url) && parsedAt <= LastSeen(s.history, url) && parsedAt <= clock
    requires StaysIn(steps, feed, url) && KeptFresh(s, steps, clock, c, feed, parsedAt)
    ensures multiset(AllNewUrls(s, steps, clock, c))[url] == 0
    decreases |steps|
  {
    if steps != [] {
      var step, next := steps[0], After(s, steps[0], c);
      StepKeeps(s, step, clock, c, feed, url, parsedAt);
      assert forall i :: 0 <= i < |steps| - 1 ==> steps[1..][i] == steps[i + 1];
      var since := if step.Parsed? && step.feed == feed && step.items != [] then step.items[0].at else parsedAt;
      StaysKnown(next, steps[1..], step.at, c, feed, url, since);
    }
  }

  lemma StepKeeps(s: State, step: Step, clock: int, c: Config, feed: nat, url: string, parsedAt: int)
    requires Fits(s, step, c) && feed < |s.lastUpdates| && UniqueUrls(s.history) && clock <= step.at
    requires step.Parsed? ==> InOrder(step.items, clock, step.at)
    requires Known(s.history, url) && parsedAt <= LastSeen(s.history, url) && parsedAt <= clock
    requires step.Parsed? && step.feed == feed ==> Mentions(step.items, url)
    requires step.Cleanup? ==> s.lastUpdates[feed] <= parsedAt + c.historyDays * DAY
    ensures var next := After(s, step, c);
      && UniqueUrls(next.history)
      && Known(next.history, url)
      && LastSeen(next.history, url) >=
           if step.Parsed? && step.feed == feed && step.items != [] then step.items[0].at else parsedAt
    ensures multiset(NewUrls(s, step, c))[url] == 0
  {
    match step {
      case Parsed(f, items, at) =>
        var from := if items == [] then clock else items[0].at;
        ProcessEffect(s.history, items, BacklogFetch(s, f, c), url, from, at);
      case ParseFailed(f, at) =>
      case Cleanup(at) =>
        ForgetEffect(s.history, Border(s.lastUpdates, at, c.historyDays), url);
      case UrlCompleted(done, at) =>
        CompleteEffect(s.history, done, at, url);
    }
  }

  /** The guarantee: over any run that begins with a successful parse of the feed, an item that stays in the feed
      becomes an NzbInfo at most once, provided the feed is kept fresh. */
  lemma DownloadedAtMostOnce(s: State, steps: seq<Step>, clock: int, c: Config, feed: nat, url: string)
    requires IsRun(s, steps, clock, c) && UniqueUrls(s.history) && feed < |s.lastUpdates|
    requires steps != [] && steps[0].Parsed? && steps[0].feed == feed
    requires StaysIn(steps, feed, url) && KeptFresh(s, steps, clock, c, feed, clock)
    ensures multiset(AllNewUrls(s, steps, clock, c))[url] ==
      if Known(s.history, url) || BacklogFetch(s, feed, c) then 0 else 1
  {
    var step := steps[0];
    assert Mentions(step.items, url);
    ProcessEffect(s.history, step.items, BacklogFetch(s, feed, c), url, step.items[0].at, step.at);
    assert forall i :: 0 <= i < |steps| - 1 ==> steps[1..][i] == steps[i + 1];
    StaysKnown(After(s, step, c), steps[1..], step.at, c, feed, url, step.items[0].at);
  }

  /** When the history last saw the url, if it knows it. */
  function Sighting(h: History, url: string): Option<int> {
    if Known(h, url) then Some(LastSeen(h, url)) else None
  }

  /** The last of the items with the url, or else what was `seen` before. */
  function LastMention(items: seq<Seen>, url: string, seen: Option<int>): Option<int>
    decreases |items|
  {
    if items == [] then seen
    else LastMention(items[1..], url, if items[0].url == url then Some(items[0].at) else seen)
  }

  /** All that matters of the state for one url: when it was last seen, and when the feeds were last updated. */
  datatype Trail = Trail(seen: Option<int>, lastUpdates: seq<int>)

  function TrailOf(s: State, url: string): Trail {
    Trail(Sighting(s.history, url), s.lastUpdates)
  }

  /** The clean-up at `now` drops the url: each feed was updated more than FeedHistory days past its last sighting. */
  predicate Drops(t: Trail, now: int, historyDays: int) {
    t.seen.Some? && t.seen.value + historyDays * DAY < Oldest(t.lastUpdates, now)
  }

  /** One timestamp in place of the history. */
  function Follow(t: Trail, step: Step, c: Config, url: string): Trail {
    match step
    case Parsed(f, items, at) => Trail(LastMention(items, url, t.seen), Updated(t.lastUpdates, f, at))
    case ParseFailed(f, at) => t.(lastUpdates := Updated(t.lastUpdates, f, at))
    case Cleanup(at) => if Drops(t, at, c.historyDays) then t.(seen := None) else t
    case UrlCompleted(u, at) => if u == url && t.seen.None? then t.(seen := Some(at)) else t
  }

  function Updated(lastUpdates: seq<int>, feed: nat, at: int): seq<int> {
    if feed < |lastUpdates| then lastUpdates[feed := at] else lastUpdates
  }

  /** The step downloads the url: it is accepted, not known, and not part of a first fetch that is taken as backlog. */
  predicate Downloads(t: Trail, step: Step, c: Config, url: string) {
    && step.Parsed? && t.seen.None? && Mentions(step.items, url)
    && (step.feed < |t.lastUpdates| && step.feed < |c.backlog| ==>
          t.lastUpdates[step.feed] != 0 || !c.backlog[step.feed])
  }

  function CountDownloads(t: Trail, steps: seq<Step>, c: Config, url: string): nat
    decreases |steps|
  {
    if steps == [] then 0
    else
      var rest := CountDownloads(Follow(t, steps[0], c, url), steps[1..], c, url);
      if Downloads(t, steps[0], c, url) then 1 + rest else rest
  }

  lemma {:induction false} ProcessSighting(h: History, items: seq<Seen>, backlogFetch: bool, url: string)
    requires UniqueUrls(h)
    ensures Sighting(ProcessItems(h, items, backlogFetch), url) == LastMention(items, url, Sighting(h, url))
    decreases |items|
  {
    if items != [] {
      RememberEffect(h, items[0], backlogFetch, url);
      ProcessSighting(Remember(h, items[0], backlogFetch), items[1..], backlogFetch, url);
    }
  }

  lemma FollowsStep(s: State, step: Step, clock: int, c: Config, url: string)
    requires Fits(s, step, c) && UniqueUrls(s.history) && (step.Parsed? ==> InOrder(step.items, clock, step.at))
    ensures UniqueUrls(After(s, step, c).history)
    ensures TrailOf(After(s, step, c), url) == Follow(TrailOf(s, url), step, c, url)
    ensures multiset(NewUrls(s, step, c))[url] == if Downloads(TrailOf(s, url), step, c, url) then 1 else 0
  {
    match step {
      case Parsed(f, items, at) =>
        ProcessEffect(s.history, items, BacklogFetch(s, f, c), url, clock, at);
        ProcessSighting(s.history, items, BacklogFetch(s, f, c), url);
      case ParseFailed(f, at) =>
      case Cleanup(at) =>
        ForgetEffect(s.history, Border(s.lastUpdates, at, c.historyDays), url);
      case UrlCompleted(done, at) =>
        CompleteEffect(s.history, done, at, url);
        CompletedSighting(s.history, done, at);
    }
  }

  lemma CompletedSighting(h: History, done: string, now: int)
    requires UniqueUrls(h)
    ensures Sighting(Complete(h, done, now), done) == if Known(h, done) then Sighting(h, done) else Some(now)
  {
    CompleteEffect(h, done, now, done);
    if !Known(h, done) {
      FindIs(Complete(h, done, now), done, |h|);
    }
  }

  /** Exactly: over any run, a url is downloaded as often as its trail says. */
  lemma {:induction false} DownloadsExactly(s: State, steps: seq<Step>, clock: int, c: Config, url: string)
    requires IsRun(s, steps, clock, c) && UniqueUrls(s.history)
    ensures multiset(AllNewUrls(s, steps, clock, c))[url] == CountDownloads(TrailOf(s, url), steps, c, url)
    decreases |steps|
  {
    if steps != [] {
      var step := steps[0];
      FollowsStep(s, step, clock, c, url);
      DownloadsExactly(After(s, step, c), steps[1..], step.at, c, url);
    }
  }

  function FollowAll(t: Trail, steps: seq<Step>, c: Config, url: string): Trail
    decreases |steps|
  {
    if steps == [] then t else FollowAll(Follow(t, steps[0], c, url), steps[1..], c, url)
  }

  /** The steps neither accept nor complete the url. */
  predicate Silent(steps: seq<Step>, url: string) {
    forall i :: 0 <= i < |steps| ==>
      !(steps[i].Parsed? && Mentions(steps[i].items, url)) && !(steps[i].UrlCompleted? && steps[i].url == url)
  }

  function UpdatesAfter(lastUpdates: seq<int>, step: Step): (r: seq<int>)
    ensures |r| == |lastUpdates|
  {
    if step.Parsed? || step.ParseFailed? then Updated(lastUpdates, step.feed, step.at) else lastUpdates
  }

  function UpdatesAfterAll(lastUpdates: seq<int>, steps: seq<Step>): (r: seq<int>)
    ensures |r| == |lastUpdates|
    decreases |steps|
  {
    if steps == [] then lastUpdates else UpdatesAfterAll(UpdatesAfter(lastUpdates, steps[0]), steps[1..])
  }

  /** Some clean-up among the steps finds every feed updated more than FeedHistory days after `seen`. */
  predicate Overtaken(seen: int, lastUpdates: seq<int>, steps: seq<Step>, historyDays: int)
    decreases |steps|
  {
    steps != [] && (
      || (steps[0].Cleanup? && seen + historyDays * DAY < Oldest(lastUpdates, steps[0].at))
      || Overtaken(seen, UpdatesAfter(lastUpdates, steps[0]), steps[1..], historyDays))
  }

  lemma {:induction false} NotMentioned(items: seq<Seen>, url: string, seen: Option<int>)
    requires !Mentions(items, url)
    ensures LastMention(items, url, seen) == seen
    decreases |items|
  {
    if items != [] {
      assert items[0].url != url;
      assert forall i :: 0 <= i < |items| - 1 ==> items[1..][i] == items[i + 1];
      NotMentioned(items[1..], url, seen);
    }
  }

  /** As long as nothing mentions it, a url is lost exactly by being overtaken, and is not downloaded. */
  lemma {:induction false} LostIff(t: Trail, steps: seq<Step>, c: Config, url: string)
    requires Silent(steps, url)
    ensures var lost := t.seen.Some? && Overtaken(t.seen.value, t.lastUpdates, steps, c.historyDays);
      FollowAll(t, steps, c, url) == Trail(if lost then None else t.seen, UpdatesAfterAll(t.lastUpdates, steps))
    ensures CountDownloads(t, steps, c, url) == 0
    decreases |steps|
  {
    if steps != [] {
      var step := steps[0];
      if step.Parsed? {
        NotMentioned(step.items, url, t.seen);
      }
      assert forall i :: 0 <= i < |steps| - 1 ==> steps[1..][i] == steps[i + 1];
      LostIff(Follow(t, step, c, url), steps[1..], c, url);
    }
  }

  lemma {:induction false} CountConcat(t: Trail, a: seq<Step>, b: seq<Step>, c: Config, url: string)
    ensures CountDownloads(t, a + b, c, url) ==
      CountDownloads(t, a, c, url) + CountDownloads(FollowAll(t, a, c, url), b, c, url)
    decreases |a|
  {
    if a == [] {
      assert a + b == b;
    } else {
      assert (a + b)[1..] == a[1..] + b;
      CountConcat(Follow(t, a[0], c, url), a[1..], b, c, url);
    }
  }

  /** The exact condition: after any steps that do not mention it, the next parse that accepts a known item downloads it
      again if and only if a clean-up among them has overtaken its last sighting, unless it is taken as backlog. */
  lemma DownloadedAgainIff(s: State, quiet: seq<Step>, parse: Step, clock: int, c: Config, url: string)
    requires IsRun(s, quiet + [parse], clock, c) && Silent(quiet, url) && parse.Parsed? && Mentions(parse.items, url)
    requires UniqueUrls(s.history) && Known(s.history, url) && parse.feed < |s.lastUpdates| == |c.backlog|
    requires UpdatesAfterAll(s.lastUpdates, quiet)[parse.feed] != 0 || !c.backlog[parse.feed]
    ensures multiset(AllNewUrls(s, quiet + [parse], clock, c))[url] ==
      if Overtaken(LastSeen(s.history, url), s.lastUpdates, quiet, c.historyDays) then 1 else 0
  {
    var t := TrailOf(s, url);
    DownloadsExactly(s, quiet + [parse], clock, c, url);
    CountConcat(t, quiet, [parse], c, url);
    LostIff(t, quiet, c, url);
    CountOne(FollowAll(t, quiet, c, url), parse, c, url);
  }

  lemma CountOne(t: Trail, step: Step, c: Config, url: string)
    ensures CountDownloads(t, [step], c, url) == if Downloads(t, step, c, url) then 1 else 0
  {
    assert CountDownloads(Follow(t, step, c, url), [], c, url) == 0;
    assert [step][1..] == [];
  }

  /** ProcessFeed goes through its items from first to last. */
  lemma {:induction false} ProcessOneMore(h: History, items: seq<Seen>, item: Seen, backlogFetch: bool)
    ensures var r := ProcessItems(h, items, backlogFetch);
      && ProcessItems(h, items + [item], backlogFetch) == Remember(r, item, backlogFetch)
      && Created(h, items + [item], backlogFetch)
         == Created(h, items, backlogFetch) + if IsNew(r, item, backlogFetch) then [item.url] else []
    decreases |items|
  {
    if items == [] {
      ProcessOne(h, item, backlogFetch);
    } else {
      assert (items + [item])[1..] == items[1..] + [item];
      ProcessOneMore(Remember(h, items[0], backlogFetch), items[1..], item, backlogFetch);
    }
  }

  lemma ProcessOne(h: History, item: Seen, backlogFetch: bool)
    ensures ProcessItems(h, [item], backlogFetch) == Remember(h, item, backlogFetch)
    ensures Created(h, [item], backlogFetch) == if IsNew(h, item, backlogFetch) then [item.url] else []
  {
    assert [item][1..] == [];
  }

  /** Without freshness the guarantee fails. FeedHistory 0 and a clock that ticks between the sighting of an item and
      the store of the last update are enough: the next cleanup forgets the item, the next parse downloads it again. */
  lemma TickForgets(url: string)
    ensures var c, steps := Config([false], 0), TickRun(url);
      && IsRun(State([], [50]), steps, 100, c)
      && StaysIn(steps, 0, url)
      && multiset(AllNewUrls(State([], [50]), steps, 100, c))[url] == 2
  {
    var c, s, t, steps := Config([false], 0), State([], [50]), Trail(None, [50]), TickRun(url);
    TickIsRun(url);
    DownloadsExactly(s, steps, 100, c, url);
    assert LastMention(steps[0].items, url, None) == LastMention(steps[0].items[1..], url, Some(100)) == Some(100);
    assert Follow(t, steps[0], c, url) == Trail(Some(100), [101]);
    assert Oldest([101], 160) == 101;
    assert Follow(Trail(Some(100), [101]), steps[1], c, url) == Trail(None, [101]);
    CountOne(Trail(None, [101]), steps[2], c, url);
    assert steps[1..] == [steps[1], steps[2]] && steps[1..][1..] == [steps[2]];
  }

  function TickRun(url: string): (steps: seq<Step>)
    ensures |steps| == 3 && steps[0].Parsed? && steps[2].Parsed?
    ensures Mentions(steps[0].items, url) && Mentions(steps[2].items, url)
  {
    var first, again := [Seen(url, 100)], [Seen(url, 200)];
    assert first[0].url == again[0].url == url;
    [Parsed(0, first, 101), Cleanup(160), Parsed(0, again, 200)]
  }

  lemma TickIsRun(url: string)
    ensures IsRun(State([], [50]), TickRun(url), 100, Config([false], 0))
  {
    var c, steps := Config([false], 0), TickRun(url);
    var s1 := After(State([], [50]), steps[0], c);
    var s2 := After(s1, steps[1], c);
    assert steps[1..] == [steps[1], steps[2]] && steps[1..][1..] == [steps[2]];
    assert IsRun(s2, [steps[2]], 160, c);
  }

  // ---- What an entry says ----------------------------------------------------------------------

  function StatusOf(h: History, url: string): HistoryStatus {
    if Known(h, url) then h[Find(h, url)].status else hsUnknown
  }

  /** A new entry is backlog on a first fetch that is taken as such, and fetched otherwise; no other status changes. */
  lemma RememberStatus(h: History, item: Seen, backlogFetch: bool, url: string)
    requires UniqueUrls(h)
    ensures StatusOf(Remember(h, item, backlogFetch), url) ==
      if url == item.url && !Known(h, url) then (if backlogFetch then hsBacklog else hsFetched) else StatusOf(h, url)
  {
    var r := Remember(h, item, backlogFetch);
    RememberEffect(h, item, backlogFetch, url);
    assert forall k :: 0 <= k < |h| ==> r[k].url == h[k].url;
    if Known(h, url) {
      FindIs(r, url, Find(h, url));
    } else if url == item.url {
      FindIs(r, url, |h|);
    }
  }

  /** A completed url is fetched, whatever it was; no other status changes. */
  lemma CompleteStatus(h: History, done: string, now: int, url: string)
    requires UniqueUrls(h)
    ensures StatusOf(Complete(h, done, now), url) == if url == done then hsFetched else StatusOf(h, url)
  {
    var r := Complete(h, done, now);
    CompleteEffect(h, done, now, url);
    assert forall k :: 0 <= k < |h| ==> r[k].url == h[k].url;
    if Known(h, url) {
      FindIs(r, url, Find(h, url));
    } else if url == done {
      FindIs(r, url, |h|);
    }
  }

  /** The first fetch of a feed downloads everything, or, with the backlog option, nothing. */
  lemma FirstFetch(url: string, at: int, backlog: bool)
    ensures var s, c := State([], [0]), Config([backlog], 7);
      var step := Parsed(0, [Seen(url, at)], at);
      && NewUrls(s, step, c) == (if backlog then [] else [url])
      && After(s, step, c).history == [Entry(url, if backlog then hsBacklog else hsFetched, at)]
  {
    ProcessOne([], Seen(url, at), backlog);
  }

  /** FeedHistory counts days of 86400 seconds: a week after its last sighting a url is still known, a second later a
      clean-up may drop it. */
  lemma AfterAWeek(seen: int, update: int, now: int)
    requires update <= now
    ensures Drops(Trail(Some(seen), [update]), now, 7) <==> update > seen + 604800
  {
    assert Oldest([update][1..], now) == now;
  }
}
