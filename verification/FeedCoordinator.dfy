/** The feed state machine of daemon/feed/FeedCoordinator.cpp: which feeds are fetched, and by which threads. */
module FeedCoordination {
  import opened Integers
  import opened Sequences
  import opened FeedBackoff
  import opened FeedHistories
  import opened HttpHeaders
  import opened WebDownloads

  class Clock {
    var now: int

    /** The clock does not go back. */
    method CurrentTime() returns (t: int)
      modifies this
      ensures old(now) <= now == t
    {
      var tick: int := *;
      now := now + if tick > 0 then tick else 0;
      t := now;
    }
  }

  datatype FeedStatus = fsUndefined | fsRunning | fsFinished | fsFailed

  class FeedInfo {
    const id: int
    const interval: int  // minutes
    const backlog: bool
    const preview: bool
    var lastUpdate: int
    var nextUpdate: int
    var lastInterval: int
    var status: FeedStatus
    var fetch: bool
    var force: bool
    ghost var failures: nat  // in a row

    constructor (id: int, interval: int, backlog: bool, preview: bool)
      ensures this.id == id && this.interval == interval && this.backlog == backlog && this.preview == preview
      ensures lastUpdate == nextUpdate == lastInterval == 0 && status == fsUndefined && !fetch && failures == 0
    {
      this.id, this.interval, this.backlog, this.preview := id, interval, backlog, preview;
      lastUpdate, nextUpdate, lastInterval, status := 0, 0, 0, fsUndefined;
      fetch, force, failures := false, false, 0;
    }

    /** Scheduled as the backoff says, and never more than one interval ahead of the clock. */
    ghost predicate OnSchedule(now: int)
      reads this
    {
      lastInterval == Delay(failures, interval) && (nextUpdate == 0 || nextUpdate - 60 * interval <= now)
    }

    /** The test of Run, with its guard against a clock that went back. On schedule, the guard never fires. */
    predicate Due(current: int)
      reads this
      ensures OnSchedule(current) ==> (Due(current) <==> IsDue(interval, nextUpdate, fetch, current))
    {
      || (interval > 0 && (nextUpdate == 0 || current >= nextUpdate || current < nextUpdate - interval * 60))
      || fetch
    }
  }

  datatype Stage =
    | Downloading
    | Removed(ok: bool)    // taken off the active list
    | Scheduled(ok: bool)  // next update set
    | Processed            // items handled
    | Done

  class FeedDownloader {
    const feed: FeedInfo
    var stage: Stage

    constructor (feed: FeedInfo)
      ensures this.feed == feed && stage == Downloading
    {
      this.feed, stage := feed, Downloading;
    }
  }

  /** An item of a parsed feed file, with the verdict of the feed's filter. */
  datatype FeedItem = FeedItem(url: string, accepted: bool)

  datatype ParseResult = ParseFailure | Items(items: seq<FeedItem>)

  function AcceptedUrls(items: seq<FeedItem>): seq<string> {
    if items == [] then []
    else
      var n := |items| - 1;
      if items[n].accepted then AcceptedUrls(items[..n]) + [items[n].url] else AcceptedUrls(items[..n])
  }

  /** What the filter says of a url: some item with it is accepted. */
  predicate IsAccepted(items: seq<FeedItem>, url: string) {
    exists i :: 0 <= i < |items| && items[i].accepted && items[i].url == url
  }

  /** How many of the first `n` items are accepted. */
  function CountAccepted(items: seq<FeedItem>, n: nat): nat
    requires n <= |items|
  {
    if n == 0 then 0 else if items[n - 1].accepted then CountAccepted(items, n - 1) + 1 else CountAccepted(items, n - 1)
  }

  lemma {:induction false} CountOfPart(items: seq<FeedItem>, m: nat, n: nat)
    requires n <= m <= |items|
    ensures CountAccepted(items[..m], n) == CountAccepted(items, n)
  {
    if n > 0 {
      CountOfPart(items, m, n - 1);
    }
  }

  /** All accepted urls, in the order of the items and as often: an accepted item has its url right behind those of the
      accepted items before it, and there are no others. */
  lemma {:induction false} AcceptedInOrder(items: seq<FeedItem>)
    ensures |AcceptedUrls(items)| == CountAccepted(items, |items|)
    ensures forall i :: 0 <= i < |items| && items[i].accepted ==> CountAccepted(items, i) < |AcceptedUrls(items)|
    ensures forall i :: 0 <= i < |items| && items[i].accepted ==>
      AcceptedUrls(items)[CountAccepted(items, i)] == items[i].url
  {
    if items != [] {
      var n := |items| - 1;
      AcceptedInOrder(items[..n]);
      CountOfPart(items, n, n);
      forall i | 0 <= i < n && items[i].accepted
        ensures CountAccepted(items, i) < |AcceptedUrls(items[..n])|
        ensures AcceptedUrls(items[..n])[CountAccepted(items, i)] == items[i].url
      {
        CountOfPart(items, n, i);
        assert items[..n][i] == items[i];
      }
    }
  }

  lemma {:induction false} AcceptedIff(items: seq<FeedItem>, url: string)
    ensures url in AcceptedUrls(items) <==> IsAccepted(items, url)
  {
    if items != [] {
      var n := |items| - 1;
      AcceptedIff(items[..n], url);
      assert forall i :: 0 <= i < n ==> items[..n][i] == items[i];
      if IsAccepted(items[..n], url) {
        var i :| 0 <= i < n && items[..n][i].accepted && items[..n][i].url == url;
        assert items[i].accepted && items[i].url == url;
      }
      if IsAccepted(items, url) && !(items[n].accepted && items[n].url == url) {
        var i :| 0 <= i < |items| && items[i].accepted && items[i].url == url;
        assert items[..n][i] == items[i];
      }
    }
  }

  function UrlsOf(seen: seq<Seen>): seq<string> {
    seq(|seen|, i requires 0 <= i < |seen| => seen[i].url)
  }

  predicate IsTerminal(status: EStatus) {
    status == adFinished || status == adFailed || status == adRetry
  }

  function OptionsOf(feeds: seq<FeedInfo>, historyDays: int): Config {
    Config(seq(|feeds|, i requires 0 <= i < |feeds| => feeds[i].backlog), historyDays)
  }

  /** When a feed is to be fetched, clock jumps aside. */
  predicate IsDue(interval: int, nextUpdate: int, fetch: bool, now: int) {
    (interval > 0 && (nextUpdate == 0 || now >= nextUpdate)) || fetch
  }

  /** A feed with an interval is due, unless a fetch is asked for, from its next update on, which a delay after the last
      one says; 0 says at once. One without an interval is due only when a fetch is asked for. */
  lemma DueFromNextUpdate(interval: int, at: int, delay: int, now: int)
    ensures interval > 0 && at + delay != 0 ==> (IsDue(interval, at + delay, false, now) <==> now - at >= delay)
    ensures interval > 0 ==> IsDue(interval, 0, false, now)
    ensures interval <= 0 ==> !IsDue(interval, at + delay, false, now)
    ensures IsDue(interval, at + delay, true, now)
  {
  }

  class FeedCoordinator {
    const clock: Clock
    var feeds: seq<FeedInfo>
    var active: seq<FeedDownloader>
    var history: History
    var force: bool
    var save: bool
    var threads: set<FeedDownloader>  // every download-or-processing that has not ended

    ghost function Busy(): set<FeedInfo>
      reads this
    {
      set d | d in threads :: d.feed
    }

    /** Per-feed exclusion: each thread has a feed of its own, which is marked running, and no other feed is. */
    ghost predicate Exclusive()
      reads this, clock, feeds, threads, Busy()
    {
      && Distinct(feeds)
      && (forall f :: f in feeds ==> !f.preview && f.OnSchedule(clock.now))
      && (forall d :: d in threads ==> d.feed.status == fsRunning && d.stage != Done && d.feed.OnSchedule(clock.now))
      && (forall d :: d in threads ==> d.feed in feeds || d.feed.preview)
      && (forall d, e :: d in threads && e in threads && d.feed == e.feed ==> d == e)
      && (forall f :: f in feeds && f.status == fsRunning ==> f in Busy())
      && Distinct(active)
      && (forall d :: d in active ==> d in threads && d.stage == Downloading)
      && (forall d :: d in threads && d.stage == Downloading ==> d in active)
      && UniqueUrls(history)
    }

    /** Holds whenever the lock is free: no requested fetch is lost. */
    ghost predicate Valid()
      reads this, clock, feeds, threads, Busy()
    {
      Exclusive() && forall f :: f in feeds && f.fetch ==> force
    }

    /** The coordinator once the feeds and their history are loaded. */
    constructor (clock: Clock, feeds: seq<FeedInfo>, history: History)
      requires Distinct(feeds) && UniqueUrls(history)
      requires forall f :: f in feeds ==>
        !f.preview && !f.fetch && f.status != fsRunning && f.nextUpdate == f.lastInterval == f.failures == 0
      ensures Valid() && threads == {} && active == [] && this.clock == clock && this.feeds == feeds
      ensures this.history == history
    {
      this.clock, this.feeds, this.history := clock, feeds, history;
      active, force, save, threads := [], false, false, {};
    }

    method StartFeedDownload(feed: FeedInfo, forced: bool) returns (d: FeedDownloader)
      requires Exclusive() && feed.status != fsRunning && feed.OnSchedule(clock.now) && (feed in feeds || feed.preview)
      modifies this`active, this`threads, feed`status, feed`force, feed`fetch
      ensures Exclusive() && fresh(d) && d.feed == feed && d.stage == Downloading
      ensures feed.status == fsRunning && feed.force == forced && !feed.fetch
      ensures active == old(active) + [d] && threads == old(threads) + {d}
    {
      d := new FeedDownloader(feed);
      assert Exclusive();
      Register(d, forced);
    }

    method Register(d: FeedDownloader, forced: bool)
      requires Exclusive() && d !in threads && d.stage == Downloading
      requires d.feed.status != fsRunning && d.feed.OnSchedule(clock.now) && (d.feed in feeds || d.feed.preview)
      modifies this`active, this`threads, d.feed`status, d.feed`force, d.feed`fetch
      ensures Exclusive() && d.feed.status == fsRunning && d.feed.force == forced && !d.feed.fetch
      ensures active == old(active) + [d] && threads == old(threads) + {d}
    {
      d.feed.status, d.feed.force, d.feed.fetch := fsRunning, forced, false;
      active := active + [d];
      threads := threads + {d};
    }

    /** What one pass does to a feed. */
    twostate predicate Passed(f: FeedInfo, current: int)
      reads f
    {
      var start := IsDue(f.interval, old(f.nextUpdate), old(f.fetch), current) && old(f.status) != fsRunning;
      && f.status == (if start then fsRunning else old(f.status))
      && f.fetch == (old(f.fetch) && !start)
      && f.force == (if start then old(f.fetch) else old(f.force))
    }

    /** The turn of Run's loop for one feed. */
    method ConsiderFeed(feed: FeedInfo, current: int)
      requires Exclusive() && feed in feeds && clock.now == current
      modifies this`active, this`threads, this`force, feed`status, feed`force, feed`fetch
      ensures Exclusive() && Passed(feed, current)
      ensures (feed.fetch ==> force) && (old(force) ==> force)
      ensures old(active) <= active && old(threads) <= threads
      ensures forall d :: d in threads && d !in old(threads) ==> fresh(d) && d.stage == Downloading && d.feed == feed
    {
      if feed.Due(current) && feed.status != fsRunning {
        var d := StartFeedDownload(feed, feed.fetch);
      } else if feed.fetch {
        force := true;
      }
    }

    /** The loop of Run. */
    method ConsiderAll(current: int)
      requires Exclusive() && clock.now == current && !force
      modifies this`active, this`threads, this`force, feeds`status, feeds`force, feeds`fetch
      ensures Valid() && old(active) <= active && old(threads) <= threads
      ensures forall k :: 0 <= k < |feeds| ==> Passed(feeds[k], current)
      ensures forall d :: d in threads && d !in old(threads) ==> fresh(d) && d.stage == Downloading && d.feed in feeds
    {
      for i := 0 to |feeds|
        invariant Exclusive() && old(active) <= active && old(threads) <= threads
        invariant forall k :: 0 <= k < i ==> Passed(feeds[k], current) && (feeds[k].fetch ==> force)
        invariant forall k :: i <= k < |feeds| ==> unchanged(feeds[k])
        invariant forall d :: d in threads && d !in old(threads) ==>
          fresh(d) && d.stage == Downloading && d.feed in feeds
      {
        ConsiderFeed(feeds[i], current);
      }
    }

    /** The locked part of Run: start every due feed that is not running, and remember whether a fetch must wait. */
    method RunPass(urlConnections: int)
      requires Valid()
      modifies this`active, this`threads, this`force, clock, feeds`status, feeds`force, feeds`fetch
      ensures Valid() && old(active) <= active && old(threads) <= threads && old(clock.now) <= clock.now
      ensures |old(active)| >= urlConnections ==> threads == old(threads) && force == old(force)
      ensures |old(active)| >= urlConnections ==> forall f :: f in feeds ==> f.status == old(f.status)
      ensures |old(active)| < urlConnections ==> forall f :: f in feeds ==> Passed(f, clock.now)
      ensures forall d :: d in threads && d !in old(threads) ==> fresh(d) && d.stage == Downloading && d.feed in feeds
    {
      var current := ReadClock();
      if |active| >= urlConnections {
        return;
      }
      force := false;
      assert Exclusive();
      ConsiderAll(current);
    }

    method MarkFetch(feed: FeedInfo)
      requires Valid() && feed in feeds
      modifies this`force, feed`fetch
      ensures Valid() && force && feed.fetch
    {
      feed.fetch := true;
      force := true;
    }

    method FetchFeed(id: int)
      requires Valid()
      modifies this`force, feeds`fetch
      ensures Valid()
      ensures forall f :: f in feeds ==> f.status == old(f.status) && f.fetch == (old(f.fetch) || f.id == id || id == 0)
      ensures force == (old(force) || exists f :: f in feeds && (f.id == id || id == 0))
    {
      for i := 0 to |feeds|
        invariant Valid() && (forall k :: 0 <= k < i && (feeds[k].id == id || id == 0) ==> force)
        invariant force ==> old(force) || exists f :: f in feeds && (f.id == id || id == 0)
        invariant old(force) ==> force
        invariant forall k :: 0 <= k < i ==> feeds[k].fetch == (old(feeds[k].fetch) || feeds[k].id == id || id == 0)
        invariant forall k :: i <= k < |feeds| ==> feeds[k].fetch == old(feeds[k].fetch)
      {
        if feeds[i].id == id || id == 0 {
          MarkFetch(feeds[i]);
        }
      }
    }

    /** What WorkStateUpdate does, and PreviewFeed after it has started its download. */
    method ForcePass()
      requires Valid()
      modifies this`force
      ensures Valid() && force
    {
      force := true;
    }

    /** The locked part of PreviewFeed that starts the download of a feed of its own. */
    method StartPreview(id: int, interval: int, backlog: bool)
      requires Valid()
      modifies this`active, this`threads, this`force
      ensures Valid() && force && old(threads) <= threads
      ensures forall d :: d in threads && d !in old(threads) ==> fresh(d) && fresh(d.feed)
    {
      var feed := new FeedInfo(id, interval, backlog, true);
      assert Exclusive() && feed.OnSchedule(clock.now);
      var d := StartFeedDownload(feed, true);
      ForcePass();
    }

    /** The locked part of FeedCompleted that takes the downloader off the list, where it always is. */
    method RemoveActive(d: FeedDownloader, ok: bool)
      requires Valid() && d in threads && d.stage == Downloading
      modifies this`active, d`stage
      ensures Valid() && d.stage == Removed(ok)
      ensures exists i :: 0 <= i < |old(active)| && old(active)[i] == d && active == RemoveAt(old(active), i)
    {
      var i := 0;
      while active[i] != d
        invariant 0 <= i < |active| && d in active[i..]
        decreases |active| - i
      {
        i := i + 1;
      }
      d.stage := Removed(ok);
      active := RemoveAt(active, i);
    }

    /** A downloader told its observers a status: the terminal ones complete the download. */
    method Update(d: FeedDownloader, status: EStatus)
      requires Valid() && d in threads && d.stage == Downloading
      modifies this`active, d`stage
      ensures Valid()
      ensures d.stage == if IsTerminal(status) then Removed(status == adFinished) else Downloading
    {
      if status == adFinished || status == adFailed || status == adRetry {
        RemoveActive(d, status == adFinished);
      }
    }

    /** A locked step begins with one reading of the clock. */
    method ReadClock() returns (now: int)
      requires Valid()
      modifies clock
      ensures Valid() && old(clock.now) <= clock.now == now
      ensures LastUpdates() == old(LastUpdates())
    {
      now := clock.CurrentTime();
    }

    method SchedulerNextUpdate(d: FeedDownloader, success: bool)
      requires Valid() && d in threads && d.stage == Removed(success)
      modifies clock, d`stage, d.feed`nextUpdate, d.feed`lastInterval, d.feed`failures
      ensures Valid() && d.stage == Scheduled(success) && old(clock.now) <= clock.now
      ensures success ==> d.feed.failures == 0 && d.feed.nextUpdate == clock.now + 60 * d.feed.interval
      ensures !success ==> d.feed.failures == old(d.feed.failures) + 1
      ensures !success ==> d.feed.nextUpdate == clock.now + Delay(d.feed.failures, d.feed.interval)
    {
      var current := ReadClock();
      var interval := NextInterval(d.feed, success);
      assert Valid();
      SetNextUpdate(d, current + interval, success);
    }

    method SetNextUpdate(d: FeedDownloader, next: int, success: bool)
      requires Valid() && d in threads && d.stage == Removed(success) && next - 60 * d.feed.interval <= clock.now
      modifies d`stage, d.feed`nextUpdate
      ensures Valid() && d.stage == Scheduled(success) && d.feed.nextUpdate == next
    {
      d.feed.nextUpdate := next;
      d.stage := Scheduled(success);
    }

    method NextInterval(feed: FeedInfo, success: bool) returns (interval: int)
      requires feed.lastInterval == Delay(feed.failures, feed.interval)
      modifies feed`lastInterval, feed`failures
      ensures feed.failures == (if success then 0 else old(feed.failures) + 1)
      ensures feed.lastInterval == Delay(feed.failures, feed.interval)
      ensures interval == if success then 60 * feed.interval else feed.lastInterval
    {
      if success {
        interval := feed.interval * 60;
        feed.lastInterval, feed.failures := 0, 0;
      } else {
        DelayDoubles(feed.failures, feed.interval);
        interval := feed.lastInterval * 2;
        interval := Max(interval, 60);
        interval := Min(interval, feed.interval * 60);
        feed.lastInterval, feed.failures := interval, feed.failures + 1;
      }
    }

    /** The end of FeedCompleted: the feed is free again. Scripts are executed for no preview. */
    method EndThread(d: FeedDownloader, scriptFailed: bool)
      requires Valid() && d in threads
      requires d.stage == Scheduled(true) ==> d.feed.preview || scriptFailed
      requires d.stage == Processed || d.stage.Scheduled?
      modifies this`threads, d`stage, d.feed`status
      ensures Valid() && threads == old(threads) - {d} && d.stage == Done
      ensures d.feed.status ==
        if old(d.stage) == Processed || (old(d.stage) == Scheduled(true) && d.feed.preview) then fsFinished
        else fsFailed
    {
      var finished := d.stage == Processed || (d.stage == Scheduled(true) && (d.feed.preview || !scriptFailed));
      d.feed.status := if finished then fsFinished else fsFailed;
      d.stage := Done;
      threads := threads - {d};
    }

    ghost function LastUpdates(): seq<int>
      reads this, feeds
    {
      seq(|feeds|, i requires 0 <= i < |feeds| reads this, feeds => feeds[i].lastUpdate)
    }

    /** What CleanupHistory and ProcessFeed go by. */
    ghost function HistoryState(): State
      reads this, feeds
    {
      State(history, LastUpdates())
    }

    ghost function Options(historyDays: int): Config
      reads this
    {
      OptionsOf(feeds, historyDays)
    }

    /** FeedHistory::Find. */
    method FindEntry(url: string) returns (i: nat)
      ensures i == Find(history, url)
    {
      i := 0;
      while i < |history| && history[i].url != url
        invariant i <= |history| && forall k :: 0 <= k < i ==> history[k].url != url
      {
        i := i + 1;
      }
    }

    /** One item that the filter accepts: decides whether it becomes an NzbInfo, and keeps the history. */
    method ProcessItem(url: string, backlogFetch: bool) returns (added: bool, now: int)
      requires UniqueUrls(history)
      modifies this`history, clock
      ensures old(clock.now) <= clock.now == now
      ensures history == Remember(old(history), Seen(url, now), backlogFetch) && UniqueUrls(history)
      ensures added == IsNew(old(history), Seen(url, now), backlogFetch)
    {
      var i := FindEntry(url);
      var status := hsUnknown;
      added := false;
      if backlogFetch {
        status := hsBacklog;
      } else if i == |history| {
        status, added := hsFetched, true;
      }
      now := clock.CurrentTime();
      RememberEffect(history, Seen(url, now), backlogFetch, url);
      if i < |history| {
        history := history[i := history[i].(lastSeen := now)];
      } else {
        history := history + [Entry(url, status, now)];
      }
    }

    /** The urls of the new NzbInfos, and the accepted items with the clock readings at which they were handled. */
    method ProcessFeed(feed: FeedInfo, items: seq<FeedItem>) returns (added: seq<string>, ghost seen: seq<Seen>)
      requires UniqueUrls(history)
      modifies this`history, clock
      ensures UrlsOf(seen) == AcceptedUrls(items) && InOrder(seen, old(clock.now), clock.now)
      ensures var backlogFetch := feed.lastUpdate == 0 && feed.backlog;
        history == ProcessItems(old(history), seen, backlogFetch) && added == Created(old(history), seen, backlogFetch)
      ensures UniqueUrls(history)
    {
      var firstFetch := feed.lastUpdate == 0;
      ghost var backlogFetch := firstFetch && feed.backlog;
      added, seen := [], [];
      for i := 0 to |items|
        invariant UniqueUrls(history) && UrlsOf(seen) == AcceptedUrls(items[..i])
        invariant InOrder(seen, old(clock.now), clock.now)
        invariant history == ProcessItems(old(history), seen, backlogFetch)
        invariant added == Created(old(history), seen, backlogFetch)
      {
        assert items[..i + 1][..i] == items[..i];
        if items[i].accepted {
          var isNew, now := ProcessItem(items[i].url, firstFetch && feed.backlog);
          ProcessOneMore(old(history), seen, Seen(items[i].url, now), backlogFetch);
          if isNew {
            added := added + [items[i].url];
          }
          seen := seen + [Seen(items[i].url, now)];
        }
      }
      assert items[..|items|] == items;
    }

    /** A history step as the history model takes it: fitting, with clock readings from `clock` on up to now. */
    ghost predicate IsStep(before: State, step: Step, clockBefore: int, c: Config)
      reads this, feeds, clock
    {
      StepLeads(before, step, clockBefore, HistoryState(), clock.now, c)
    }

    /** The locked part of FeedCompleted that handles the items of a fetched feed file, or its failure to parse. */
    method HandleFeedFile(d: FeedDownloader, result: ParseResult, ghost historyDays: int)
      returns (added: seq<string>, ghost step: Step)
      requires Valid() && d in threads && d.stage == Scheduled(true) && !d.feed.preview
      modifies this`history, this`save, clock, d`stage, d.feed`lastUpdate, d.feed`force
      ensures Valid() && d.stage == Processed && save
      ensures IsStep(old(HistoryState()), step, old(clock.now), Options(historyDays))
      ensures added == NewUrls(old(HistoryState()), step, Options(historyDays))
      ensures match result
        case ParseFailure => step.ParseFailed? && feeds[step.feed] == d.feed
        case Items(items) => step.Parsed? && feeds[step.feed] == d.feed && UrlsOf(step.items) == AcceptedUrls(items)
    {
      var feed := d.feed;
      ghost var i :| 0 <= i < |feeds| && feeds[i] == feed;
      ghost var before, c := HistoryState(), Options(historyDays);
      ghost var seen: seq<Seen>;
      added, seen := ReadFeedFile(feed, result);
      ghost var handled := history;
      var now := ReadClock();
      MarkUpdated(d, now, i);
      step := if result.Items? then Parsed(i, seen, now) else ParseFailed(i, now);
      assert BacklogFetch(before, i, c) == (old(feed.lastUpdate) == 0 && feed.backlog);
      assert HistoryState() == State(handled, before.lastUpdates[i := now]);
    }

    /** The items of a feed file; none when it could not be parsed. */
    method ReadFeedFile(feed: FeedInfo, result: ParseResult) returns (added: seq<string>, ghost seen: seq<Seen>)
      requires Valid()
      modifies this`history, clock
      ensures Valid() && LastUpdates() == old(LastUpdates()) && InOrder(seen, old(clock.now), clock.now)
      ensures UrlsOf(seen) == if result.Items? then AcceptedUrls(result.items) else []
      ensures var backlogFetch := feed.lastUpdate == 0 && feed.backlog;
        && history == (if result.Items? then ProcessItems(old(history), seen, backlogFetch) else old(history))
        && added == (if result.Items? then Created(old(history), seen, backlogFetch) else [])
    {
      added, seen := [], [];
      if result.Items? {
        added, seen := ProcessFeed(feed, result.items);
      }
    }

    method MarkUpdated(d: FeedDownloader, now: int, ghost i: nat)
      requires Valid() && d in threads && d.stage == Scheduled(true) && i < |feeds| && feeds[i] == d.feed
      modifies this`save, d`stage, d.feed`lastUpdate, d.feed`force
      ensures Valid() && save && d.stage == Processed && LastUpdates() == old(LastUpdates())[i := now]
    {
      SetLastUpdate(d.feed, now, i);
      SetProcessed(d);
    }

    method SetProcessed(d: FeedDownloader)
      requires Valid() && d in threads && d.stage == Scheduled(true)
      modifies this`save, d`stage
      ensures Valid() && save && d.stage == Processed && LastUpdates() == old(LastUpdates())
    {
      save := true;
      d.stage := Processed;
    }

    method SetLastUpdate(feed: FeedInfo, now: int, ghost i: nat)
      requires Valid() && i < |feeds| && feeds[i] == feed
      modifies feed`lastUpdate, feed`force
      ensures Valid() && LastUpdates() == old(LastUpdates())[i := now]
    {
      feed.lastUpdate, feed.force := now, false;
    }

    method CleanupHistory(historyDays: int) returns (ghost step: Step)
      requires Valid()
      modifies this`history, this`save, clock
      ensures Valid() && step.Cleanup?
      ensures IsStep(old(HistoryState()), step, old(clock.now), Options(historyDays))
      ensures old(history) != history ==> save
    {
      var now := ReadClock();
      step := Cleanup(now);
      var oldestUpdate := OldestUpdate(now);
      RemoveOlder(oldestUpdate - historyDays * DAY);
    }

    method OldestUpdate(now: int) returns (oldestUpdate: int)
      ensures oldestUpdate == Oldest(LastUpdates(), now)
    {
      oldestUpdate := now;
      ghost var lastUpdates := LastUpdates();
      for i := 0 to |feeds|
        invariant oldestUpdate <= now && (oldestUpdate == now || oldestUpdate in lastUpdates)
        invariant forall k :: 0 <= k < i ==> oldestUpdate <= lastUpdates[k]
      {
        assert lastUpdates[i] == feeds[i].lastUpdate;
        if feeds[i].lastUpdate < oldestUpdate {
          oldestUpdate := feeds[i].lastUpdate;
        }
      }
      OldestIs(lastUpdates, now, oldestUpdate);
    }

    /** std::remove_if over the history. */
    method RemoveOlder(borderDate: int)
      requires Valid()
      modifies this`history, this`save
      ensures Valid() && LastUpdates() == old(LastUpdates())
      ensures history == Forget(old(history), borderDate)
      ensures old(history) != history ==> save
    {
      var kept, dropped := Younger(history, borderDate);
      ForgetEffect(history, borderDate, "");
      save := save || dropped;
      history := kept;
    }

    static method Younger(history: History, borderDate: int) returns (kept: History, dropped: bool)
      ensures kept == Forget(history, borderDate) && (kept == history || dropped)
    {
      ghost var keep := (e: Entry) => e.lastSeen >= borderDate;
      kept, dropped := [], false;
      for i := 0 to |history|
        invariant kept == Filter(keep, history[..i]) && (kept == history[..i] || dropped)
      {
        assert history[..i + 1] == history[..i] + [history[i]];
        FilterConcat(keep, history[..i], [history[i]]);
        if history[i].lastSeen < borderDate {
          dropped := true;
        } else {
          kept := kept + [history[i]];
        }
      }
      assert history[..|history|] == history;
    }

    /** A URL has been downloaded: its entry counts as fetched from now on. */
    method DownloadQueueUpdate(url: string) returns (ghost step: Step)
      requires Valid()
      modifies this`history, this`save, clock
      ensures Valid() && save && step.UrlCompleted? && step.url == url
      ensures forall historyDays :: IsStep(old(HistoryState()), step, old(clock.now), Options(historyDays))
    {
      var i := FindEntry(url);
      CompleteEffect(history, url, clock.now, url);
      if i < |history| {
        SetHistory(history[i := history[i].(status := hsFetched)]);
      } else {
        var now := ReadClock();
        CompleteEffect(history, url, now, url);
        SetHistory(history + [Entry(url, hsFetched, now)]);
      }
      step := UrlCompleted(url, clock.now);
    }

    method SetHistory(h: History)
      requires Valid() && UniqueUrls(h)
      modifies this`history, this`save
      ensures Valid() && LastUpdates() == old(LastUpdates()) && history == h && save
    {
      history := h;
      save := true;
    }

    /** The next step of a thread, from the notification of its downloader to its end. */
    method AdvanceThread(d: FeedDownloader, status: EStatus, scriptFailed: bool, results: int -> ParseResult,
                         ghost historyDays: int)
      returns (added: seq<string>, ghost steps: seq<Step>)
      requires Valid() && d in threads
      modifies this`active, this`threads, this`history, this`save, clock, d, d.feed
      ensures Valid() && threads <= old(threads)
      ensures IsSteps(old(HistoryState()), steps, added, old(clock.now), Options(historyDays))
      ensures AreParsed(steps, feeds, results)
    {
      added, steps := [], [];
      ghost var before := HistoryState();
      match d.stage {
        case Downloading => Update(d, status);
        case Removed(ok) => SchedulerNextUpdate(d, ok);
        case Scheduled(ok) =>
          if ok && !d.feed.preview && !scriptFailed {
            ghost var step;
            added, step := HandleFeedFile(d, results(d.feed.id), historyDays);
            steps := [step];
          } else {
            EndThread(d, scriptFailed);
          }
        case Processed => EndThread(d, scriptFailed);
      }
      assert steps == [] ==> HistoryState() == before;
    }

    /** At most one history step, and the urls it made NzbInfos of. */
    ghost predicate IsSteps(before: State, steps: seq<Step>, added: seq<string>, clockBefore: int, c: Config)
      reads this, feeds, clock
    {
      StepsLead(before, steps, added, clockBefore, HistoryState(), clock.now, c)
    }
  }

  /** The step, with clock readings from `clockBefore` to `now`, makes `after` of `before`. */
  predicate StepLeads(before: State, step: Step, clockBefore: int, after: State, now: int, c: Config) {
    && Fits(before, step, c)
    && clockBefore <= step.at == now
    && (step.Parsed? ==> InOrder(step.items, clockBefore, step.at))
    && after == After(before, step, c)
  }

  predicate StepsLead(before: State, steps: seq<Step>, added: seq<string>, clockBefore: int, after: State, now: int,
                      c: Config)
  {
    && clockBefore <= now
    && |before.lastUpdates| == |c.backlog|
    && if steps == [] then after == before && added == []
       else
         && |steps| == 1 && StepLeads(before, steps[0], clockBefore, after, now, c)
         && added == NewUrls(before, steps[0], c)
  }

  /** The run of the history goes on from where the steps lead. */
  lemma JoinRun(before: State, steps: seq<Step>, added: seq<string>, clockBefore: int, mid: State, now: int, c: Config,
                trace: seq<Step>)
    requires StepsLead(before, steps, added, clockBefore, mid, now, c) && IsRun(mid, trace, now, c)
    ensures IsRun(before, steps + trace, clockBefore, c)
    ensures AllNewUrls(before, steps + trace, clockBefore, c) == added + AllNewUrls(mid, trace, now, c)
  {
    if steps == [] {
      EarlierClock(before, trace, clockBefore, now, c);
      assert steps + trace == trace;
    } else {
      assert steps == [steps[0]];
      RunGoesOn(before, steps[0], trace, clockBefore, c);
    }
  }

  /** A download thread from start to end: whatever its retries and redirects, it completes its feed exactly once (a
      second completion would not find the downloader on the list). */
  method RunDownloader(c: FeedCoordinator, d: FeedDownloader, w: WebDownloader, urlRetries: int, urlInterval: int)
    requires c.Valid() && d in c.threads && d.stage == Downloading
    modifies w, c`active, d`stage
    ensures c.Valid() && (d.stage == Removed(true) || d.stage == Removed(false))
    ensures d.stage == Removed(true) ==> w.Delivered()
  {
    var told := |w.notified|;
    var final, attempts, last, failedDownloads, failedConnects := w.Run(urlRetries, urlInterval);
    for k := told to |w.notified|
      invariant c.Valid() && d in c.threads
      invariant d.stage == if k == |w.notified| then Removed(final == adFinished) else Downloading
      modifies c`active, d`stage
    {
      c.Update(d, w.notified[k]);
    }
  }

  /** The parsed steps have the items that the files of their feeds, as `results` gives them, hold accepted. */
  predicate AreParsed(steps: seq<Step>, feeds: seq<FeedInfo>, results: int -> ParseResult) {
    forall i :: 0 <= i < |steps| && steps[i].Parsed? ==> IsParsed(steps[i], feeds, results)
  }

  predicate IsParsed(step: Step, feeds: seq<FeedInfo>, results: int -> ParseResult)
    requires step.Parsed?
  {
    && step.feed < |feeds| && results(feeds[step.feed].id).Items?
    && UrlsOf(step.items) == AcceptedUrls(results(feeds[step.feed].id).items)
  }

  /** What the threads of the program may do next, in any order. An advance picks any thread; `results` says what the
      file of each feed, by its id, parses to at that time. */
  datatype Action =
    | Run(urlConnections: int)
    | Fetch(id: int)
    | WorkStateChange
    | Preview(id: int, interval: int, backlog: bool)
    | Clean
    | UrlDone(url: string)
    | Advance(status: EStatus, scriptFailed: bool, results: int -> ParseResult)

  /** Only an advance parses, and only what the files hold. */
  predicate ParsedBy(action: Action, steps: seq<Step>, feeds: seq<FeedInfo>) {
    if action.Advance? then AreParsed(steps, feeds, action.results)
    else forall i :: 0 <= i < |steps| ==> !steps[i].Parsed?
  }

  /** Whenever the feed's file can be parsed, the url is among its accepted items. */
  predicate Accepts(action: Action, id: int, url: string) {
    action.Advance? && action.results(id).Items? ==> IsAccepted(action.results(id).items, url)
  }

  /** No parse of the feed's file has the url among its accepted items. */
  predicate Rejects(action: Action, id: int, url: string) {
    action.Advance? && action.results(id).Items? ==> !IsAccepted(action.results(id).items, url)
  }

  method Perform(c: FeedCoordinator, action: Action, historyDays: int)
    returns (added: seq<string>, ghost steps: seq<Step>)
    requires c.Valid()
    modifies c`active, c`threads, c`history, c`save, c`force, c.clock, c.feeds, c.threads, c.Busy()
    ensures c.Valid() && c.IsSteps(old(c.HistoryState()), steps, added, old(c.clock.now), c.Options(historyDays))
    ensures ParsedBy(action, steps, c.feeds)
    ensures forall d :: d in c.threads ==>
      (d in old(c.threads) || fresh(d)) && (d.feed in c.feeds || d.feed in old(c.Busy()) || fresh(d.feed))
  {
    added, steps := [], [];
    ghost var before := c.HistoryState();
    match action {
      case Run(urlConnections) => c.RunPass(urlConnections);
      case Fetch(id) => c.FetchFeed(id);
      case WorkStateChange => c.ForcePass();
      case Preview(id, interval, backlog) => c.StartPreview(id, interval, backlog);
      case Clean =>
        ghost var step := c.CleanupHistory(historyDays);
        steps := [step];
      case UrlDone(url) =>
        ghost var step := c.DownloadQueueUpdate(url);
        steps := [step];
      case Advance(status, scriptFailed, results) =>
        if c.threads != {} {
          var d :| d in c.threads;
          added, steps := c.AdvanceThread(d, status, scriptFailed, results, historyDays);
        }
    }
    assert steps == [] ==> c.HistoryState() == before;
  }

  lemma AcceptedIsMentioned(step: Step, feeds: seq<FeedInfo>, results: int -> ParseResult, url: string)
    requires step.Parsed? && IsParsed(step, feeds, results)
    ensures Mentions(step.items, url) <==> IsAccepted(results(feeds[step.feed].id).items, url)
  {
    var urls := UrlsOf(step.items);
    AcceptedIff(results(feeds[step.feed].id).items, url);
    if url in urls {
      var i :| 0 <= i < |urls| && urls[i] == url;
      assert step.items[i].url == url;
    }
    if Mentions(step.items, url) {
      var i :| 0 <= i < |step.items| && step.items[i].url == url;
      assert urls[i] == url;
    }
  }

  /** A url that every parse of a feed accepts stays in the feed when the steps of one more action come first. */
  lemma StaysInLonger(action: Action, steps: seq<Step>, rest: seq<Step>, feeds: seq<FeedInfo>, f: nat, url: string)
    requires ParsedBy(action, steps, feeds)
    requires f < |feeds| && Accepts(action, feeds[f].id, url) && StaysIn(rest, f, url)
    ensures StaysIn(steps + rest, f, url)
  {
    forall i | 0 <= i < |steps + rest| && (steps + rest)[i].Parsed? && (steps + rest)[i].feed == f
      ensures Mentions((steps + rest)[i].items, url)
    {
      if i < |steps| {
        AcceptedIsMentioned(steps[i], feeds, action.results, url);
      }
    }
  }

  ghost predicate AlwaysAccepted(actions: seq<Action>, id: int, url: string) {
    forall i :: 0 <= i < |actions| ==> Accepts(actions[i], id, url)
  }

  /** Every url that is accepted throughout stays in its feed along the trace. */
  ghost predicate FollowsFeeds(trace: seq<Step>, actions: seq<Action>, feeds: seq<FeedInfo>) {
    forall f, url :: 0 <= f < |feeds| && AlwaysAccepted(actions, feeds[f].id, url) ==> StaysIn(trace, f, url)
  }

  ghost predicate NeverAccepted(actions: seq<Action>, feeds: seq<FeedInfo>, url: string) {
    forall i, f :: 0 <= i < |actions| && 0 <= f < |feeds| ==> Rejects(actions[i], feeds[f].id, url)
  }

  predicate StaysOut(trace: seq<Step>, url: string) {
    forall i :: 0 <= i < |trace| && trace[i].Parsed? ==> !Mentions(trace[i].items, url)
  }

  /** No url that is rejected throughout comes in along the trace. */
  ghost predicate KeepsOut(trace: seq<Step>, actions: seq<Action>, feeds: seq<FeedInfo>) {
    forall url :: NeverAccepted(actions, feeds, url) ==> StaysOut(trace, url)
  }

  lemma KeepsOutLonger(actions: seq<Action>, steps: seq<Step>, rest: seq<Step>, feeds: seq<FeedInfo>)
    requires actions != [] && KeepsOut(rest, actions[1..], feeds)
    requires ParsedBy(actions[0], steps, feeds)
    ensures KeepsOut(steps + rest, actions, feeds)
  {
    forall url | NeverAccepted(actions, feeds, url)
      ensures StaysOut(steps + rest, url)
    {
      assert forall i :: 0 <= i < |actions| - 1 ==> actions[1..][i] == actions[i + 1];
      assert NeverAccepted(actions[1..], feeds, url);
      StaysOutLonger(actions[0], steps, rest, feeds, url);
    }
  }

  lemma StaysOutLonger(action: Action, steps: seq<Step>, rest: seq<Step>, feeds: seq<FeedInfo>, url: string)
    requires ParsedBy(action, steps, feeds) && StaysOut(rest, url)
    requires forall f :: 0 <= f < |feeds| ==> Rejects(action, feeds[f].id, url)
    ensures StaysOut(steps + rest, url)
  {
    forall i | 0 <= i < |steps + rest| && (steps + rest)[i].Parsed?
      ensures !Mentions((steps + rest)[i].items, url)
    {
      if i < |steps| {
        AcceptedIsMentioned(steps[i], feeds, action.results, url);
      }
    }
  }

  /** Only what a step mentions is created. */
  lemma {:induction false} CreatedIsMentioned(s: State, trace: seq<Step>, clock: int, c: Config, url: string)
    requires IsRun(s, trace, clock, c) && UniqueUrls(s.history) && StaysOut(trace, url)
    ensures url !in AllNewUrls(s, trace, clock, c)
    decreases |trace|
  {
    if trace != [] {
      assert forall i :: 0 <= i < |trace| - 1 ==> trace[1..][i] == trace[i + 1];
      FollowsStep(s, trace[0], clock, c, url);
      CreatedIsMentioned(After(s, trace[0], c), trace[1..], trace[0].at, c, url);
      assert url !in NewUrls(s, trace[0], c) by {
        assert url in NewUrls(s, trace[0], c) <==> url in multiset(NewUrls(s, trace[0], c));
      }
    }
  }

  lemma FollowsLonger(actions: seq<Action>, steps: seq<Step>, rest: seq<Step>, feeds: seq<FeedInfo>)
    requires actions != [] && FollowsFeeds(rest, actions[1..], feeds)
    requires ParsedBy(actions[0], steps, feeds)
    ensures FollowsFeeds(steps + rest, actions, feeds)
  {
    forall f, url | 0 <= f < |feeds| && AlwaysAccepted(actions, feeds[f].id, url)
      ensures StaysIn(steps + rest, f, url)
    {
      assert forall i :: 0 <= i < |actions| - 1 ==> actions[1..][i] == actions[i + 1];
      assert AlwaysAccepted(actions[1..], feeds[f].id, url);
      StaysInLonger(actions[0], steps, rest, feeds, f, url);
    }
  }

  /** Every interleaving keeps the feeds exclusive and loses no fetch, and handles the items as a run of the history
      model does. */
  method PerformAll(c: FeedCoordinator, actions: seq<Action>, historyDays: int)
    returns (added: seq<string>, ghost trace: seq<Step>)
    requires c.Valid()
    modifies c`active, c`threads, c`history, c`save, c`force, c.clock, c.feeds, c.threads, c.Busy()
    ensures c.Valid() && old(c.clock.now) <= c.clock.now
    ensures IsRun(old(c.HistoryState()), trace, old(c.clock.now), c.Options(historyDays))
    ensures added == AllNewUrls(old(c.HistoryState()), trace, old(c.clock.now), c.Options(historyDays))
    ensures FollowsFeeds(trace, actions, c.feeds) && KeepsOut(trace, actions, c.feeds)
    decreases |actions|
  {
    added, trace := [], [];
    if actions != [] {
      ghost var before, clockBefore, config := c.HistoryState(), c.clock.now, c.Options(historyDays);
      var first, steps := Perform(c, actions[0], historyDays);
      ghost var mid, clockMid := c.HistoryState(), c.clock.now;
      var rest;
      rest, trace := PerformAll(c, actions[1..], historyDays);
      JoinRun(before, steps, first, clockBefore, mid, clockMid, config, trace);
      FollowsLonger(actions, steps, trace, c.feeds);
      KeepsOutLonger(actions, steps, trace, c.feeds);
      added, trace := first + rest, steps + trace;
    }
  }

  /** The end-to-end guarantee: in every interleaving each url is downloaded exactly as often as its trail says; one
      that no parse accepts, never; and one that every parse of a feed accepts, exactly once from the first parse of the
      feed on, if the feed is kept fresh, unless it was known or is taken as backlog. */
  method RunFeeds(c: FeedCoordinator, actions: seq<Action>, historyDays: int)
    returns (added: seq<string>, ghost trace: seq<Step>)
    requires c.Valid()
    modifies c`active, c`threads, c`history, c`save, c`force, c.clock, c.feeds, c.threads, c.Busy()
    ensures c.Valid() && IsRun(old(c.HistoryState()), trace, old(c.clock.now), c.Options(historyDays))
    ensures CountedBy(added, old(c.HistoryState()), trace, c.Options(historyDays))
    ensures var s, clock, config := old(c.HistoryState()), old(c.clock.now), c.Options(historyDays);
      forall f :: 0 <= f < |c.feeds| && FreshFrom(s, trace, clock, config, f) ==>
        ExactlyOnce(added, s, config, f, actions, c.feeds[f].id)
    ensures forall url :: NeverAccepted(actions, c.feeds, url) ==> url !in added
  {
    ghost var s, clock := c.HistoryState(), c.clock.now;
    assert UniqueUrls(s.history);
    added, trace := PerformAll(c, actions, historyDays);
    RunCounts(s, trace, clock, c.Options(historyDays), c.feeds, actions);
  }

  ghost predicate CountedBy(added: seq<string>, s: State, trace: seq<Step>, c: Config) {
    forall url :: multiset(added)[url] == CountDownloads(TrailOf(s, url), trace, c, url)
  }

  ghost predicate ExactlyOnce(added: seq<string>, s: State, c: Config, f: nat, actions: seq<Action>, id: int)
    requires f < |s.lastUpdates| == |c.backlog|
  {
    forall url :: AlwaysAccepted(actions, id, url) ==>
      multiset(added)[url] == if Known(s.history, url) || (s.lastUpdates[f] == 0 && c.backlog[f]) then 0 else 1
  }

  lemma RunCounts(s: State, trace: seq<Step>, clock: int, c: Config, feeds: seq<FeedInfo>, actions: seq<Action>)
    requires IsRun(s, trace, clock, c) && UniqueUrls(s.history)
    requires FollowsFeeds(trace, actions, feeds) && KeepsOut(trace, actions, feeds)
    ensures var added := AllNewUrls(s, trace, clock, c);
      && CountedBy(added, s, trace, c)
      && (forall url :: NeverAccepted(actions, feeds, url) ==> url !in added)
      && forall f :: 0 <= f < |feeds| && FreshFrom(s, trace, clock, c, f) ==>
           ExactlyOnce(added, s, c, f, actions, feeds[f].id)
  {
    var added := AllNewUrls(s, trace, clock, c);
    forall url
      ensures multiset(added)[url] == CountDownloads(TrailOf(s, url), trace, c, url)
    {
      DownloadsExactly(s, trace, clock, c, url);
    }
    forall url | NeverAccepted(actions, feeds, url)
      ensures url !in added
    {
      CreatedIsMentioned(s, trace, clock, c, url);
    }
    forall f, url | 0 <= f < |feeds| && AlwaysAccepted(actions, feeds[f].id, url) && FreshFrom(s, trace, clock, c, f)
      ensures multiset(added)[url] == if Known(s.history, url) || BacklogFetch(s, f, c) then 0 else 1
    {
      assert StaysIn(trace, f, url);
      DownloadedAtMostOnce(s, trace, clock, c, f, url);
    }
  }

  /** The run begins with a successful parse of the feed and keeps it fresh. */
  ghost predicate FreshFrom(s: State, trace: seq<Step>, clock: int, c: Config, feed: nat)
    requires IsRun(s, trace, clock, c)
  {
    && trace != [] && trace[0].Parsed? && trace[0].feed == feed < |s.lastUpdates| == |c.backlog|
    && KeptFresh(s, trace, clock, c, feed, clock)
  }
}
