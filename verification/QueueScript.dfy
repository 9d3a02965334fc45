/** The single-slot priority scheduler of daemon/extension/QueueScript.cpp. */
module QueueScripts {
  import opened Wrappers
  import opened Sequences
  import opened StableSort

  /** Events in the order of their priority, lowest first. */
  datatype Event =
    | qeFileDownloaded
    | qeUrlCompleted
    | qeNzbMarked
    | qeNzbAdded
    | qeNzbNamed
    | qeNzbDownloaded
    | qeNzbDeleted

  /** The events as the source lists them, lowest priority first. */
  const EVENTS: seq<Event> :=
    [qeFileDownloaded, qeUrlCompleted, qeNzbMarked, qeNzbAdded, qeNzbNamed, qeNzbDownloaded, qeNzbDeleted]

  const HIGHEST: nat := 6

  function Priority(e: Event): (p: nat)
    ensures p <= HIGHEST
  {
    match e
    case qeFileDownloaded => 0
    case qeUrlCompleted => 1
    case qeNzbMarked => 2
    case qeNzbAdded => 3
    case qeNzbNamed => 4
    case qeNzbDownloaded => 5
    case qeNzbDeleted => 6
  }

  /** Priorities compare as the events do in the list, which has every event once. */
  lemma PriorityFollowsTheList(i: nat, j: nat)
    requires i < |EVENTS| && j < |EVENTS|
    ensures Priority(EVENTS[i]) < Priority(EVENTS[j]) <==> i < j
    ensures EVENTS[i] == EVENTS[j] <==> i == j
    ensures forall e: Event :: e in EVENTS
  {
    PriorityIsPosition(i);
    PriorityIsPosition(j);
    forall e: Event
      ensures e in EVENTS
    {
      PriorityPointsTo(e);
    }
  }

  lemma PriorityPointsTo(e: Event)
    ensures EVENTS[Priority(e)] == e
  {
  }

  lemma PriorityIsPosition(i: nat)
    requires i < |EVENTS|
    ensures Priority(EVENTS[i]) == i
  {
  }

  datatype QueueItem = QueueItem(nzbId: int, script: string, event: Event)

  const BY_EVENT: QueueItem -> nat := (item: QueueItem) => Priority(item.event)

  /** What the scheduler asks of an nzb in the download queue or the history. */
  datatype NzbState = NzbState(deleted: bool, markedBad: bool, skipScripts: bool)

  type Nzbs = map<int, NzbState>

  predicate Ignored(item: QueueItem, nzbs: Nzbs) {
    || item.nzbId !in nzbs
    || (nzbs[item.nzbId].deleted && item.event != qeNzbDeleted && item.event != qeNzbMarked)
    || (nzbs[item.nzbId].markedBad && item.event != qeNzbMarked)
  }

  /** An unknown nzb has no scripts any more, one marked as bad only those that tell of marks, and a deleted one those
      that tell of the deletion as well. */
  lemma EventsThatSurvive(id: int, script: string, nzbs: Nzbs)
    ensures var events := set e: Event | e in EVENTS && Survives(nzbs)(QueueItem(id, script, e));
      if id !in nzbs then events == {}
      else if nzbs[id].markedBad then events == {qeNzbMarked}
      else if nzbs[id].deleted then events == {qeNzbMarked, qeNzbDeleted}
      else forall e :: e in events <==> e in EVENTS
  {
    PriorityFollowsTheList(0, 0);
  }

  predicate SkipsScripts(item: QueueItem, nzbs: Nzbs) {
    item.nzbId in nzbs && nzbs[item.nzbId].skipScripts
  }

  predicate NoneSkips(queue: seq<QueueItem>, nzbs: Nzbs) {
    forall i :: 0 <= i < |queue| ==> !SkipsScripts(queue[i], nzbs)
  }

  /** No item is left to take the slot, or the one that takes it has its script executed. */
  predicate StartsOne(queue: seq<QueueItem>, nzbs: Nzbs) {
    var kept := Filter(Survives(nzbs), queue);
    kept == [] || !SkipsScripts(kept[FirstMax(BY_EVENT, kept)], nzbs)
  }

  function Survives(nzbs: Nzbs): QueueItem -> bool {
    (item: QueueItem) => !Ignored(item, nzbs)
  }

  /** At most one queued FILE_DOWNLOADED item for each nzb and script. */
  predicate UniqueFileEvents(queue: seq<QueueItem>) {
    forall i, j :: 0 <= i < j < |queue| && queue[i] == queue[j] ==> queue[i].event != qeFileDownloaded
  }

  lemma ErasingKeepsUnique(queue: seq<QueueItem>, i: nat)
    requires i < |queue| && UniqueFileEvents(queue)
    ensures UniqueFileEvents(RemoveAt(queue, i))
    ensures forall k :: 0 <= k < i ==> RemoveAt(queue, i)[k] == queue[k]
    ensures RemoveAt(queue, i)[..i] == queue[..i]
  {
  }

  /** A FILE_DOWNLOADED item goes in only when nothing is queued for its nzb and script. */
  predicate Fresh(queue: seq<QueueItem>, item: QueueItem) {
    item.event == qeFileDownloaded ==>
      forall k :: 0 <= k < |queue| ==> queue[k].nzbId != item.nzbId || queue[k].script != item.script
  }

  /** Nothing came in but items of the nzb. */
  predicate Grown(before: seq<QueueItem>, after: seq<QueueItem>, nzbId: int) {
    forall i :: 0 <= i < |after| ==> after[i] in before || after[i].nzbId == nzbId
  }

  function FreshIn(queue: seq<QueueItem>): QueueItem -> bool {
    (item: QueueItem) => Fresh(queue, item)
  }

  function OfOthers(nzbId: int): QueueItem -> bool {
    (item: QueueItem) => item.nzbId != nzbId
  }

  function Items(nzbId: int, event: Event, scripts: seq<string>): seq<QueueItem> {
    seq(|scripts|, k requires 0 <= k < |scripts| => QueueItem(nzbId, scripts[k], event))
  }

  /** Whatever is wanted is queued, unless it is a FILE_DOWNLOADED event and something was queued for its script. */
  lemma WantedComesIn(queue: seq<QueueItem>, wanted: seq<QueueItem>, k: nat)
    requires k < |wanted|
    ensures wanted[k] in Filter(FreshIn(queue), wanted) <==>
      !(wanted[k].event == qeFileDownloaded && exists i ::
          0 <= i < |queue| && queue[i].nzbId == wanted[k].nzbId && queue[i].script == wanted[k].script)
  {
    FilterMembers(FreshIn(queue), wanted);
  }

  predicate OnlyDownloaded(queue: seq<QueueItem>, nzbId: int) {
    forall i :: 0 <= i < |queue| && queue[i].nzbId == nzbId ==> queue[i].event == qeNzbDownloaded
  }

  lemma OnlyDownloadedComeBack(kept: seq<QueueItem>, nzbId: int, waiting: seq<QueueItem>)
    requires forall i :: 0 <= i < |kept| ==> kept[i].nzbId != nzbId
    requires OnlyDownloaded(waiting, nzbId)
    ensures OnlyDownloaded(kept + Filter(FreshIn(kept), waiting), nzbId)
    ensures waiting != [] ==> OnlyDownloaded(kept + Filter(FreshIn(kept), waiting[1..]), nzbId)
  {
    FilterMembers(FreshIn(kept), waiting);
    if waiting != [] {
      FilterMembers(FreshIn(kept), waiting[1..]);
    }
  }

  lemma ItemsOfMore(nzbId: int, event: Event, scripts: seq<string>, script: string)
    ensures Items(nzbId, event, scripts + [script]) == Items(nzbId, event, scripts) + [QueueItem(nzbId, script, event)]
  {
  }

  lemma OtherScripts(nzbId: int, event: Event, scripts: seq<string>, script: string)
    requires script !in scripts
    ensures forall k :: 0 <= k < |scripts| ==> Items(nzbId, event, scripts)[k].script != script
  {
    forall k | 0 <= k < |scripts|
      ensures Items(nzbId, event, scripts)[k].script != script
    {
      assert scripts[k] in scripts;
    }
  }

  lemma UsableSoFar(usable: string -> bool, extensions: seq<string>, i: nat)
    requires i < |extensions| && Distinct(extensions)
    ensures Filter(usable, extensions[..i + 1]) ==
      var before := Filter(usable, extensions[..i]);
      if usable(extensions[i]) then before + [extensions[i]] else before
    ensures extensions[i] !in Filter(usable, extensions[..i])
  {
    assert extensions[..i + 1] == extensions[..i] + [extensions[i]];
    FilterConcat(usable, extensions[..i], [extensions[i]]);
    FilterMembers(usable, extensions[..i]);
  }

  /** Items of other scripts do not make an item stale. */
  lemma FreshStays(queue: seq<QueueItem>, waiting: seq<QueueItem>, item: QueueItem)
    requires forall k :: 0 <= k < |waiting| ==> waiting[k].script != item.script
    ensures Fresh(queue + Filter(FreshIn(queue), waiting), item) == Fresh(queue, item)
    ensures Filter(FreshIn(queue), waiting + [item]) ==
      if Fresh(queue, item) then Filter(FreshIn(queue), waiting) + [item] else Filter(FreshIn(queue), waiting)
  {
    var added := Filter(FreshIn(queue), waiting);
    FilterMembers(FreshIn(queue), waiting);
    FilterConcat(FreshIn(queue), waiting, [item]);
    assert forall k :: 0 <= k < |added| ==> added[k].script != item.script;
    assert forall k :: 0 <= k < |queue| ==> (queue + added)[k] == queue[k];
  }

  /** An nzb as EnqueueScript sees it. Whether it skips scripts is settled when it is created or loaded. */
  class NzbInfo {
    const id: int
    const skipScripts: bool
    var queueScriptTime: int

    constructor (id: int, skipScripts: bool)
      ensures this.id == id && this.skipScripts == skipScripts && queueScriptTime == 0
    {
      this.id, this.skipScripts := id, skipScripts;
      queueScriptTime := 0;
    }
  }

  class QueueScriptCoordinator {
    var queue: seq<QueueItem>
    var curItem: Option<QueueItem>
    var hasQueueScripts: bool
    var stopped: bool
    var running: seq<QueueItem>  // the controllers whose script is executing

    /** Holds whenever the queue lock is free. */
    predicate Valid()
      reads this
    {
      && (queue != [] ==> curItem.Some?)
      && |running| <= 1
      && (running != [] ==> curItem == Some(running[0]))
      && UniqueFileEvents(queue)
    }

    /** The slot is only ever taken by a script that executes. */
    predicate Live()
      reads this
    {
      curItem.Some? && !stopped ==> running == [curItem.value]
    }

    constructor (hasQueueScripts: bool)
      ensures Valid() && Live() && queue == [] && curItem == None && !stopped && running == []
      ensures this.hasQueueScripts == hasQueueScripts
    {
      queue, curItem, stopped, running := [], None, false, [];
      this.hasQueueScripts := hasQueueScripts;
    }

    /** A controller starts unless the nzb is to be left alone. */
    method StartScript(item: QueueItem, skipScripts: bool)
      modifies this`running
      ensures running == if skipScripts then old(running) else old(running) + [item]
    {
      if skipScripts {
        return;
      }
      running := running + [item];
    }

    /** The slot after CheckQueue refines: filter, then take the first maximum and leave the rest in order. */
    ghost predicate CheckedFrom(before: seq<QueueItem>, nzbs: Nzbs)
      reads this
    {
      var kept := Filter(Survives(nzbs), before);
      if kept == [] then queue == [] && curItem == None && running == []
      else var m := FirstMax(BY_EVENT, kept);
        && queue == RemoveAt(kept, m)
        && curItem == Some(kept[m])
        && running == if SkipsScripts(kept[m], nzbs) then [] else [kept[m]]
    }

    /** The loop of CheckQueue: erase what is ignored, restarting whenever that invalidates the candidate. */
    method ScanQueue(nzbs: Nzbs) returns (curNzb: Option<NzbState>, itCurItem: nat)
      requires UniqueFileEvents(queue)
      modifies this`queue
      ensures queue == Filter(Survives(nzbs), old(queue)) && UniqueFileEvents(queue)
      ensures curNzb.None? <==> queue == []
      ensures queue != [] ==> IsFirstMax(BY_EVENT, queue, itCurItem)
      ensures queue != [] ==> curNzb.value.skipScripts == SkipsScripts(queue[itCurItem], nzbs)
    {
      var maxEvent := qeFileDownloaded;
      curNzb, itCurItem := None, 0;
      var it := 0;
      ghost var keep := Survives(nzbs);
      while it < |queue|
        invariant 0 <= it <= |queue| && Filter(keep, queue) == Filter(keep, old(queue))
        invariant forall k :: 0 <= k < it ==> keep(queue[k])
        invariant curNzb.None? <==> it == 0
        invariant it > 0 ==> IsFirstMax(BY_EVENT, queue[..it], itCurItem) && maxEvent == queue[itCurItem].event
        invariant it > 0 ==> curNzb.value.skipScripts == SkipsScripts(queue[itCurItem], nzbs)
        invariant UniqueFileEvents(queue)
        decreases |queue|, |queue| - it
      {
        var item := queue[it];
        if Ignored(item, nzbs) {
          FilterWithout(keep, queue, it);
          ErasingKeepsUnique(queue, it);
          queue := RemoveAt(queue, it);
          if curNzb.Some? {
            // positions behind the erased item have shifted, so the candidate is found anew
            curNzb, it := None, 0;
          }
          continue;
        }
        FirstMaxExtends(BY_EVENT, queue, it, itCurItem);
        if curNzb.None? || Priority(item.event) > Priority(maxEvent) {
          itCurItem, curNzb, maxEvent := it, Some(nzbs[item.nzbId]), item.event;
        }
        it := it + 1;
      }
      FilterAll(keep, queue);
      assert queue[..it] == queue;
    }

    method CheckQueue(nzbs: Nzbs)
      requires Valid() && running == []
      modifies this`queue, this`curItem, this`running
      ensures Valid()
      ensures old(stopped) ==> queue == old(queue) && curItem == old(curItem) && running == []
      ensures !old(stopped) ==> CheckedFrom(old(queue), nzbs)
    {
      if stopped {
        return;
      }
      curItem := None;
      var curNzb, itCurItem := ScanQueue(nzbs);
      if curNzb.Some? {
        FirstMaxIsUnique(BY_EVENT, queue, itCurItem);
        curItem, queue := Some(queue[itCurItem]), RemoveAt(queue, itCurItem);
        StartScript(curItem.value, curNzb.value.skipScripts);
      }
    }

    method AlreadyQueued(nzbId: int, script: string) returns (b: bool)
      ensures b <==> exists k :: 0 <= k < |queue| && queue[k].nzbId == nzbId && queue[k].script == script
    {
      for i := 0 to |queue|
        invariant forall k :: 0 <= k < i ==> queue[k].nzbId != nzbId || queue[k].script != script
      {
        if queue[i].nzbId == nzbId && queue[i].script == script {
          return true;
        }
      }
      b := false;
    }

    /** One usable script of EnqueueScript: into the slot if it is free, otherwise to the end of the queue. */
    method EnqueueOne(item: QueueItem)
      requires Valid()
      modifies this`queue, this`curItem, this`running
      ensures Valid() && (old(Live()) ==> Live())
      ensures curItem == if old(curItem).Some? then old(curItem) else Some(item)
      ensures running == if old(curItem).Some? then old(running) else [item]
      ensures queue == if old(curItem).Some? && Fresh(old(queue), item) then old(queue) + [item] else old(queue)
    {
      if item.event == qeFileDownloaded {
        var alreadyQueued := AlreadyQueued(item.nzbId, item.script);
        if alreadyQueued {
          return;
        }
      }
      if curItem.Some? {
        queue := queue + [item];
      } else {
        curItem := Some(item);
        StartScript(item, false);
      }
    }

    /** The option EventInterval: -1 turns FILE_DOWNLOADED events off, a positive value spaces them out. */
    static predicate Throttled(event: Event, eventInterval: int, sinceLast: int) {
      event == qeFileDownloaded && (eventInterval == -1 || (eventInterval > 0 && 0 < sinceLast < eventInterval))
    }

    /** The state after the items `wanted` have come in, one by one, on top of the given state. */
    ghost predicate EnqueuedOn(queue0: seq<QueueItem>, curItem0: Option<QueueItem>, running0: seq<QueueItem>,
                               wanted: seq<QueueItem>)
      reads this
    {
      var waiting := if curItem0.None? && wanted != [] then wanted[1..] else wanted;
      && queue == queue0 + Filter(FreshIn(queue0), waiting)
      && curItem == (if curItem0.None? && wanted != [] then Some(wanted[0]) else curItem0)
      && running == (if curItem0.None? && wanted != [] then [wanted[0]] else running0)
    }

    /** The callback of EnqueueScript over the extension list. */
    method EnqueueUsable(nzb: NzbInfo, event: Event, curTime: int, extensions: seq<string>, usable: string -> bool)
      requires Valid() && Distinct(extensions)
      modifies this`queue, this`curItem, this`running, nzb`queueScriptTime
      ensures Valid() && (old(Live()) ==> Live())
      ensures EnqueuedOn(old(queue), old(curItem), old(running), Items(nzb.id, event, Filter(usable, extensions)))
      ensures Grown(old(queue), queue, nzb.id)
      ensures nzb.queueScriptTime == if Filter(usable, extensions) == [] then old(nzb.queueScriptTime) else curTime
    {
      ghost var queue0, curItem0, running0, live := queue, curItem, running, Live();
      ghost var scripts: seq<string> := [];
      for i := 0 to |extensions|
        invariant Valid() && (live ==> Live()) && Grown(queue0, queue, nzb.id)
        invariant scripts == Filter(usable, extensions[..i])
        invariant EnqueuedOn(queue0, curItem0, running0, Items(nzb.id, event, scripts))
        invariant nzb.queueScriptTime == if scripts == [] then old(nzb.queueScriptTime) else curTime
      {
        UsableSoFar(usable, extensions, i);
        if usable(extensions[i]) {
          EnqueueNext(nzb.id, extensions[i], event, queue0, curItem0, running0, scripts);
          nzb.queueScriptTime, scripts := curTime, scripts + [extensions[i]];
        }
      }
      assert extensions[..|extensions|] == extensions;
    }

    /** One more script after `scripts`. */
    method EnqueueNext(nzbId: int, script: string, event: Event, ghost queue0: seq<QueueItem>,
                       ghost curItem0: Option<QueueItem>, ghost running0: seq<QueueItem>, ghost scripts: seq<string>)
      requires Valid() && (curItem0.None? ==> queue0 == [])
      requires EnqueuedOn(queue0, curItem0, running0, Items(nzbId, event, scripts))
      requires Grown(queue0, queue, nzbId) && script !in scripts
      modifies this`queue, this`curItem, this`running
      ensures Valid() && (old(Live()) ==> Live()) && Grown(queue0, queue, nzbId)
      ensures EnqueuedOn(queue0, curItem0, running0, Items(nzbId, event, scripts + [script]))
    {
      var item := QueueItem(nzbId, script, event);
      ghost var wanted := Items(nzbId, event, scripts);
      ItemsOfMore(nzbId, event, scripts, script);
      ghost var waiting := if curItem0.None? && wanted != [] then wanted[1..] else wanted;
      OtherScripts(nzbId, event, scripts, script);
      FreshStays(queue0, waiting, item);
      if curItem0.None? && wanted != [] {
        assert (wanted + [item])[1..] == waiting + [item];
      }
      EnqueueOne(item);
    }

    /** The rest of EnqueueScript: nothing if the event is throttled, otherwise every usable script. */
    method EnqueueUnlessThrottled(nzb: NzbInfo, event: Event, curTime: int, eventInterval: int,
                                  extensions: seq<string>, usable: string -> bool)
      returns (ghost wanted: seq<QueueItem>)
      requires Valid() && Distinct(extensions)
      modifies this`queue, this`curItem, this`running, nzb`queueScriptTime
      ensures Valid() && (old(Live()) ==> Live()) && Grown(old(queue), queue, nzb.id)
      ensures wanted ==
        (if Throttled(event, eventInterval, curTime - old(nzb.queueScriptTime)) then []
         else Items(nzb.id, event, Filter(usable, extensions)))
      ensures EnqueuedOn(old(queue), old(curItem), old(running), wanted)
      ensures nzb.queueScriptTime == if wanted == [] then old(nzb.queueScriptTime) else curTime
    {
      wanted := [];
      if Throttled(event, eventInterval, curTime - nzb.queueScriptTime) {
        return;
      }
      wanted := Items(nzb.id, event, Filter(usable, extensions));
      EnqueueUsable(nzb, event, curTime, extensions, usable);
    }

    /** An nzb that has come to its end needs none of the scripts that wait for it. */
    method Purge(nzbId: int, event: Event)
      requires Valid()
      modifies this`queue
      ensures Valid() && (old(Live()) ==> Live()) && forall i :: 0 <= i < |queue| ==> queue[i] in old(queue)
      ensures queue == if event == qeNzbDownloaded then Filter(OfOthers(nzbId), old(queue)) else old(queue)
      ensures event == qeNzbDownloaded ==> forall i :: 0 <= i < |queue| ==> queue[i].nzbId != nzbId
    {
      if event == qeNzbDownloaded {
        DeleteQueued(nzbId);
      }
    }

    /** Queue the usable scripts for an event of an nzb. */
    method EnqueueScript(nzb: NzbInfo?, event: Event, curTime: int, eventInterval: int,
                         extensions: seq<string>, usable: string -> bool)
      requires Valid() && Distinct(extensions)
      modifies this`queue, this`curItem, this`running, nzb
      ensures Valid() && (old(Live()) ==> Live())
      ensures nzb != null && !nzb.skipScripts ==> Grown(old(queue), queue, nzb.id)
      ensures !hasQueueScripts || nzb == null || nzb.skipScripts ==>
        queue == old(queue) && curItem == old(curItem) && running == old(running)
      ensures hasQueueScripts && nzb != null && !nzb.skipScripts ==>
        var kept := if event == qeNzbDownloaded then Filter(OfOthers(nzb.id), old(queue)) else old(queue);
        var throttled := Throttled(event, eventInterval, curTime - old(nzb.queueScriptTime));
        var wanted := if throttled then [] else Items(nzb.id, event, Filter(usable, extensions));
        && EnqueuedOn(kept, old(curItem), old(running), wanted)
        && nzb.queueScriptTime == if wanted == [] then old(nzb.queueScriptTime) else curTime
      ensures hasQueueScripts && nzb != null && !nzb.skipScripts && event == qeNzbDownloaded ==>
        OnlyDownloaded(queue, nzb.id)
    {
      if !hasQueueScripts || nzb == null || nzb.skipScripts {
        return;
      }
      Purge(nzb.id, event);
      ghost var kept := queue;
      ghost var wanted := EnqueueUnlessThrottled(nzb, event, curTime, eventInterval, extensions, usable);
      if event == qeNzbDownloaded {
        OnlyDownloadedComeBack(kept, nzb.id, wanted);
      }
    }

    /** std::remove_if over the queue: every item of the nzb goes, the others stay in order. */
    method DeleteQueued(nzbId: int)
      requires Valid()
      modifies this`queue
      ensures Valid() && queue == Filter(OfOthers(nzbId), old(queue))
      ensures forall i :: 0 <= i < |queue| ==> queue[i].nzbId != nzbId && queue[i] in old(queue)
    {
      var i := 0;
      while i < |queue|
        invariant 0 <= i <= |queue| && UniqueFileEvents(queue)
        invariant Filter(OfOthers(nzbId), queue) == Filter(OfOthers(nzbId), old(queue))
        invariant forall k :: 0 <= k < i ==> OfOthers(nzbId)(queue[k])
        invariant old(queue) == [] ==> queue == []
        invariant forall k :: 0 <= k < |queue| ==> queue[k] in old(queue)
        decreases |queue| - i
      {
        if queue[i].nzbId == nzbId {
          FilterWithout(OfOthers(nzbId), queue, i);
          ErasingKeepsUnique(queue, i);
          queue := RemoveAt(queue, i);
        } else {
          i := i + 1;
        }
      }
      FilterAll(OfOthers(nzbId), queue);
    }

    /** A script ends: its controller frees the slot and hands it to the next item. */
    method ControllerFinishes(nzbs: Nzbs)
      requires Valid() && running != []
      modifies this`queue, this`curItem, this`running
      ensures Valid()
      ensures !old(stopped) ==> (Live() <==> StartsOne(old(queue), nzbs))
      ensures NoneSkips(old(queue), nzbs) ==> Live()
      ensures old(stopped) ==> queue == old(queue) && curItem == old(curItem) && running == []
      ensures !old(stopped) ==> CheckedFrom(old(queue), nzbs)
    {
      running := [];
      if NoneSkips(queue, nzbs) {
        SurvivorsStart(queue, nzbs);
      }
      CheckQueue(nzbs);
    }

    /** The scripts that are still to be started, the current one first, in the order of the stable sort. */
    ghost function Agenda(): seq<QueueItem>
      reads this
    {
      if curItem.Some? then [curItem.value] + Descending(BY_EVENT, queue, HIGHEST) else []
    }

    /** A free slot takes the head of the stable sort of what is not ignored. */
    method TakeNext(nzbs: Nzbs)
      requires Valid() && running == [] && !stopped && NoneSkips(queue, nzbs)
      modifies this`queue, this`curItem, this`running
      ensures Valid() && Agenda() == Descending(BY_EVENT, Filter(Survives(nzbs), old(queue)), HIGHEST)
      ensures Filter(Survives(nzbs), queue) == queue && NoneSkips(queue, nzbs)
      ensures curItem.Some? ==> |queue| < |old(queue)| && running == [curItem.value]
    {
      ghost var kept := Filter(Survives(nzbs), queue);
      FilterTwice(Survives(nzbs), queue);
      SurvivorsStart(queue, nzbs);
      NothingToSort(HIGHEST);
      if kept != [] {
        TakingTheMaximum(Survives(nzbs), kept);
      }
      CheckQueue(nzbs);
    }

    /** With no new events and the nzbs as they are, one script after the other is started in exactly the order of a
        stable sort by descending priority, and exactly the ignored items are dropped. */
    method Drain(nzbs: Nzbs) returns (started: seq<QueueItem>)
      requires Valid() && running == [] && !stopped && NoneSkips(queue, nzbs)
      modifies this`queue, this`curItem, this`running
      ensures started == Descending(BY_EVENT, Filter(Survives(nzbs), old(queue)), HIGHEST)
      ensures IsStartOrder(started, Filter(Survives(nzbs), old(queue)))
      ensures Valid() && queue == [] && curItem == None
    {
      started := [];
      TakeNext(nzbs);
      ghost var all := Agenda();
      DescendingIsStartOrder(Filter(Survives(nzbs), old(queue)));
      while curItem.Some?
        invariant Valid() && !stopped && NoneSkips(queue, nzbs)
        invariant curItem.Some? ==> running == [curItem.value]
        invariant started + Agenda() == all
        invariant Filter(Survives(nzbs), queue) == queue
        decreases if curItem.Some? then 1 + |queue| else 0
      {
        Associative(started, [curItem.value], Descending(BY_EVENT, queue, HIGHEST));
        started, running := started + running, [];
        TakeNext(nzbs);
      }
    }

    method HasJob(nzbId: int) returns (working: bool, active: bool)
      ensures active <==> curItem.Some? && curItem.value.nzbId == nzbId
      ensures working <==> active || exists k :: 0 <= k < |queue| && queue[k].nzbId == nzbId
    {
      active := curItem.Some? && curItem.value.nzbId == nzbId;
      working := active;
      if !working {
        for i := 0 to |queue|
          invariant !working && forall k :: 0 <= k < i ==> queue[k].nzbId != nzbId
        {
          working := queue[i].nzbId == nzbId;
          if working {
            break;
          }
        }
      }
    }

    /** In a valid state the count is positive exactly while the slot is taken. */
    method GetQueueSize() returns (n: nat)
      requires Valid()
      ensures n == |queue| + if curItem.Some? then 1 else 0
      ensures n == 0 <==> curItem == None
    {
      n := |queue|;
      if curItem.Some? {
        n := n + 1;
      }
    }
  }

  /** Only FILE_DOWNLOADED events are ever held back: by -1 always, by 0 never, and by a number of seconds when less
      time than that, but some, has gone by. */
  lemma ThrottledIff(event: Event, sinceLast: int)
    ensures forall interval: int :: QueueScriptCoordinator.Throttled(event, interval, sinceLast) ==>
      event == qeFileDownloaded && interval >= -1 && interval != 0
    ensures QueueScriptCoordinator.Throttled(qeFileDownloaded, -1, sinceLast)
    ensures forall interval: int | interval > 0 ::
      QueueScriptCoordinator.Throttled(qeFileDownloaded, interval, sinceLast) <==> 1 <= sinceLast < interval
  {
  }

  /** What other threads do to the scheduler, in any order. */
  datatype Step =
    | Enqueue(nzb: NzbInfo, event: Event, curTime: int)
    | Finish(nzbs: Nzbs)
    | Stop

  /** Whether an nzb is left alone does not change over the run: exactly those with an id in `skipped` are. */
  predicate FixedSkips(steps: seq<Step>, skipped: set<int>) {
    && (forall i :: 0 <= i < |steps| && steps[i].Enqueue? ==>
          (steps[i].nzb.skipScripts <==> steps[i].nzb.id in skipped))
    && (forall i, id :: 0 <= i < |steps| && steps[i].Finish? && id in steps[i].nzbs ==>
          (steps[i].nzbs[id].skipScripts <==> id in skipped))
  }

  ghost predicate Avoids(queue: seq<QueueItem>, ids: set<int>) {
    forall i :: 0 <= i < |queue| ==> queue[i].nzbId !in ids
  }

  lemma {:induction false} FilterAvoids(p: QueueItem -> bool, queue: seq<QueueItem>, ids: set<int>)
    requires Avoids(queue, ids)
    ensures Avoids(Filter(p, queue), ids)
  {
    if queue != [] {
      FilterAvoids(p, queue[1..], ids);
    }
  }

  /** Every reachable state is valid, and with fixed skip flags a taken slot means a script that executes. */
  method RunSteps(c: QueueScriptCoordinator, steps: seq<Step>, eventInterval: int, extensions: seq<string>,
                  usable: string -> bool, ghost skipped: set<int>)
    requires c.Valid() && c.Live() && Distinct(extensions) && FixedSkips(steps, skipped)
    requires Avoids(c.queue, skipped)
    modifies c, set s | s in steps && s.Enqueue? :: s.nzb
    ensures c.Valid() && c.Live()
    decreases |steps|
  {
    if steps == [] {
      return;
    }
    match steps[0] {
      case Enqueue(nzb, event, curTime) =>
        c.EnqueueScript(nzb, event, curTime, eventInterval, extensions, usable);
      case Finish(nzbs) =>
        if c.running != [] {
          FilterAvoids(Survives(nzbs), c.queue, skipped);
          c.ControllerFinishes(nzbs);
        }
      case Stop =>
        c.stopped := true;
    }
    RunSteps(c, steps[1..], eventInterval, extensions, usable, skipped);
  }

  function OfEvent(e: Event): QueueItem -> bool {
    (item: QueueItem) => item.event == e
  }

  /** All items of one event, in the order in which they were queued, after those of every event that the list of events
      names later. */
  ghost predicate IsStartOrder(started: seq<QueueItem>, queue: seq<QueueItem>) {
    && (forall e: Event :: Filter(OfEvent(e), started) == Filter(OfEvent(e), queue))
    && (forall i, j :: 0 <= i < j < |started| ==> !ListedAfter(started[j].event, started[i].event))
  }

  ghost predicate ListedAfter(e: Event, f: Event) {
    exists a, b :: 0 <= b < a < |EVENTS| && EVENTS[a] == e && EVENTS[b] == f
  }

  lemma ListedAfterIff(e: Event, f: Event)
    ensures ListedAfter(e, f) <==> Priority(e) > Priority(f)
  {
    PriorityPointsTo(e);
    PriorityPointsTo(f);
    if ListedAfter(e, f) {
      var a, b :| 0 <= b < a < |EVENTS| && EVENTS[a] == e && EVENTS[b] == f;
      PriorityIsPosition(a);
      PriorityIsPosition(b);
    }
  }

  /** The item that takes the slot: the earliest one with an event that no other item's event comes after. */
  lemma TakesTheHighest(queue: seq<QueueItem>, m: nat)
    requires m < |queue|
    ensures IsFirstMax(BY_EVENT, queue, m) <==>
      && (forall k :: 0 <= k < |queue| ==> !ListedAfter(queue[k].event, queue[m].event))
      && (forall k :: 0 <= k < m ==> queue[k].event != queue[m].event)
  {
    forall k | 0 <= k < |queue|
      ensures ListedAfter(queue[k].event, queue[m].event) <==> BY_EVENT(queue[k]) > BY_EVENT(queue[m])
      ensures queue[k].event == queue[m].event <==> BY_EVENT(queue[k]) == BY_EVENT(queue[m])
    {
      ListedAfterIff(queue[k].event, queue[m].event);
      PriorityPointsTo(queue[k].event);
      PriorityPointsTo(queue[m].event);
    }
  }

  lemma DescendingIsStartOrder(queue: seq<QueueItem>)
    ensures IsStartOrder(Descending(BY_EVENT, queue, HIGHEST), queue)
  {
    var started := Descending(BY_EVENT, queue, HIGHEST);
    forall e: Event
      ensures Filter(OfEvent(e), started) == Filter(OfEvent(e), queue)
    {
      DescendingIsStable(BY_EVENT, queue, HIGHEST, Priority(e));
      EventIsKey(e, started);
      EventIsKey(e, queue);
    }
    DescendingIsSorted(BY_EVENT, queue, HIGHEST);
    forall i, j | 0 <= i < j < |started|
      ensures !ListedAfter(started[j].event, started[i].event)
    {
      assert BY_EVENT(started[i]) >= BY_EVENT(started[j]);
      ListedAfterIff(started[j].event, started[i].event);
    }
  }

  lemma {:induction false} EventIsKey(e: Event, queue: seq<QueueItem>)
    ensures Filter(OfEvent(e), queue) == WithKey(BY_EVENT, queue, Priority(e))
  {
    if queue != [] {
      PriorityPointsTo(e);
      PriorityPointsTo(queue[0].event);
      EventIsKey(e, queue[1..]);
    }
  }

  lemma TakingTheMaximum(keep: QueueItem -> bool, kept: seq<QueueItem>)
    requires kept != [] && Filter(keep, kept) == kept
    ensures var m := FirstMax(BY_EVENT, kept);
      && Descending(BY_EVENT, kept, HIGHEST) == [kept[m]] + Descending(BY_EVENT, RemoveAt(kept, m), HIGHEST)
      && Filter(keep, RemoveAt(kept, m)) == RemoveAt(kept, m)
  {
    var m := FirstMax(BY_EVENT, kept);
    FirstMaxHeadsTheSort(BY_EVENT, kept, m, HIGHEST);
    AllKept(keep, kept, m);
  }

  lemma SurvivorsStart(queue: seq<QueueItem>, nzbs: Nzbs)
    requires NoneSkips(queue, nzbs)
    ensures StartsOne(queue, nzbs) && NoneSkips(Filter(Survives(nzbs), queue), nzbs)
    ensures var kept := Filter(Survives(nzbs), queue);
      kept != [] ==> NoneSkips(RemoveAt(kept, FirstMax(BY_EVENT, kept)), nzbs)
  {
    FilterMembers(Survives(nzbs), queue);
  }

  lemma AllKept(keep: QueueItem -> bool, kept: seq<QueueItem>, m: nat)
    requires Filter(keep, kept) == kept && m < |kept|
    ensures Filter(keep, RemoveAt(kept, m)) == RemoveAt(kept, m)
  {
    FilterMembers(keep, kept);
    var rest := RemoveAt(kept, m);
    forall i | 0 <= i < |rest|
      ensures keep(rest[i])
    {
      assert rest[i] == kept[if i < m then i else i + 1];
      assert keep(Filter(keep, kept)[if i < m then i else i + 1]);
    }
    FilterAll(keep, rest);
  }

  lemma {:induction false} NothingToSort(top: nat)
    ensures Descending(BY_EVENT, [], top) == []
  {
    if top > 0 {
      NothingToSort(top - 1);
    }
  }
}
