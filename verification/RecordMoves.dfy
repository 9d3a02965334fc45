/** The drag-and-drop move of webui/fasttable.js, which repairs its own drop target. */
module RecordMoves {
  import opened Wrappers
  import opened Sequences

  datatype Record = Record(id: int, fields: seq<string>)

  predicate UniqueIds(s: seq<Record>) {
    forall i, j :: 0 <= i < j < |s| ==> s[i].id != s[j].id
  }

  function Moved(ids: seq<int>): Record -> bool {
    (r: Record) => r.id in ids
  }

  function Kept(ids: seq<int>): Record -> bool {
    (r: Record) => r.id !in ids
  }

  /** Splitting off one more record. */
  lemma SplitOne(ids: seq<int>, s: seq<Record>, n: nat)
    requires n < |s|
    ensures Filter(Moved(ids), s[..n + 1]) ==
      if s[n].id in ids then Filter(Moved(ids), s[..n]) + [s[n]] else Filter(Moved(ids), s[..n])
    ensures Filter(Kept(ids), s[..n + 1]) ==
      if s[n].id in ids then Filter(Kept(ids), s[..n]) else Filter(Kept(ids), s[..n]) + [s[n]]
  {
    assert s[..n + 1] == s[..n] + [s[n]];
    FilterConcat(Moved(ids), s[..n], [s[n]]);
    FilterConcat(Kept(ids), s[..n], [s[n]]);
  }

  /** One record of the first loop, which has the kept ones before position `i` and those to come from there on. */
  lemma TakeStep(ids: seq<int>, s: seq<Record>, n: nat, content: seq<Record>, i: nat)
    requires n < |s| && i < |content| && content[..i] == Filter(Kept(ids), s[..n]) && content[i..] == s[n..]
    ensures content[i] == s[n]
    ensures var next := if s[n].id in ids then RemoveAt(content, i) else content;
      var k := if s[n].id in ids then i else i + 1;
      && next[..k] == Filter(Kept(ids), s[..n + 1]) && next[k..] == s[n + 1..]
      && Filter(Moved(ids), s[..n + 1]) ==
           (if s[n].id in ids then Filter(Moved(ids), s[..n]) + [s[n]] else Filter(Moved(ids), s[..n]))
  {
    SplitOne(ids, s, n);
    assert content[i..][0] == s[n..][0] && content[i..][1..] == s[n..][1..] == s[n + 1..];
    assert content[i + 1..] == content[i..][1..];
    assert RemoveAt(content, i)[..i] == content[..i] && RemoveAt(content, i)[i..] == content[i + 1..];
    assert content[..i + 1] == content[..i] + [content[i]];
  }

  /** How many kept records stand before position `t`. */
  function KeptBefore(ids: seq<int>, s: seq<Record>, t: nat): nat
    requires t <= |s|
  {
    |Filter(Kept(ids), s[..t])|
  }

  /** Where the drop target stands after `n` records: itself while it is ahead or kept; once moved, the kept record
      before it, or else the first record that is left. */
  predicate Repaired(ids: seq<int>, s: seq<Record>, t: nat, after: bool, n: nat, dropId: Option<int>, dropAfter: bool)
    requires t < |s| && n <= |s|
  {
    var kept, before := Filter(Kept(ids), s[..n]), KeptBefore(ids, s, t);
    if s[t].id !in ids || n <= t then dropId == Some(s[t].id) && dropAfter == after
    else if before > 0 then before <= |kept| && dropId == Some(kept[before - 1].id) && dropAfter
    else if kept != [] then dropId == Some(kept[0].id) && !dropAfter
    else if n < |s| then dropId == Some(s[n].id) && !dropAfter
    else dropId == None
  }

  lemma KeepOne(ids: seq<int>, s: seq<Record>, t: nat, after: bool, n: nat, dropId: Option<int>, dropAfter: bool)
    requires UniqueIds(s) && t < |s| && n < |s| && Repaired(ids, s, t, after, n, dropId, dropAfter)
    requires s[n].id !in ids
    ensures Repaired(ids, s, t, after, n + 1, dropId, dropAfter)
  {
    SplitOne(ids, s, n);
  }

  lemma MoveOne(ids: seq<int>, s: seq<Record>, t: nat, after: bool, n: nat, dropId: Option<int>, dropAfter: bool)
    requires UniqueIds(s) && t < |s| && n < |s| && Repaired(ids, s, t, after, n, dropId, dropAfter)
    requires s[n].id in ids
    ensures var kept := Filter(Kept(ids), s[..n]);
      if dropId != Some(s[n].id) then Repaired(ids, s, t, after, n + 1, dropId, dropAfter)
      else if kept != [] then Repaired(ids, s, t, after, n + 1, Some(kept[|kept| - 1].id), true)
      else if n + 1 < |s| then Repaired(ids, s, t, after, n + 1, Some(s[n + 1].id), false)
      else Repaired(ids, s, t, after, n + 1, None, dropAfter)
  {
    SplitOne(ids, s, n);
    FilterMembers(Kept(ids), s[..n]);
  }

  class TableData {
    var content: seq<Record>
    var dropId: Option<int>
    var dropAfter: bool

    /** The record `id`, which stood after position `i`, has been taken out. If it was the drop target, find another. */
    method RepairTarget(id: int, i: int, ghost ids: seq<int>, ghost s: seq<Record>, ghost t: nat, ghost after: bool,
                        ghost n: nat)
      requires UniqueIds(s) && t < |s| && n < |s| && Repaired(ids, s, t, after, n, dropId, dropAfter)
      requires s[n].id == id && id in ids
      requires -1 <= i < |content| && content[..i + 1] == Filter(Kept(ids), s[..n]) && content[i + 1..] == s[n + 1..]
      modifies this`dropId, this`dropAfter
      ensures Repaired(ids, s, t, after, n + 1, dropId, dropAfter)
    {
      MoveOne(ids, s, t, after, n, dropId, dropAfter);
      ghost var kept := content[..i + 1];
      if Some(id) == dropId {
        if i >= 0 {
          dropId, dropAfter := Some(content[i].id), true;
        } else if i + 1 < |content| {
          dropId, dropAfter := Some(content[i + 1].id), false;
        } else {
          dropId := None;
        }
      }
    }

    /** The loop stands at position `i` of the list and has seen the first `n` records of `all`. */
    predicate Divides(movedIds: seq<int>, all: seq<Record>, n: nat, i: nat, movedRecords: seq<Record>)
      reads this`content
    {
      && n <= |all| && i <= |content|
      && content[..i] == Filter(Kept(movedIds), all[..n]) && content[i..] == all[n..]
      && movedRecords == Filter(Moved(movedIds), all[..n])
    }

    /** One record of the first loop. */
    method TakeTurn(movedIds: seq<int>, i: nat, movedRecords: seq<Record>, ghost all: seq<Record>, ghost t: nat,
                    ghost after: bool, ghost n: nat)
      returns (next: nat, records: seq<Record>)
      requires UniqueIds(all) && t < |all| && i < |content| && Divides(movedIds, all, n, i, movedRecords)
      requires Repaired(movedIds, all, t, after, n, dropId, dropAfter)
      modifies this
      ensures n < |all| && Divides(movedIds, all, n + 1, next, records)
      ensures Repaired(movedIds, all, t, after, n + 1, dropId, dropAfter)
    {
      var item := content[i];
      assert |content[i..]| == |all[n..]|;
      TakeStep(movedIds, all, n, content, i);
      var at: int := i;
      records := movedRecords;
      if item.id in movedIds {
        records := records + [item];
        content := RemoveAt(content, at);
        at := at - 1;
        RepairTarget(item.id, at, movedIds, all, t, after, n);
      } else {
        KeepOne(movedIds, all, t, after, n, dropId, dropAfter);
      }
      next := at + 1;
    }

    /** The first loop of moveRows: take the moved records out. */
    method TakeOut(movedIds: seq<int>, ghost t: nat) returns (movedRecords: seq<Record>)
      requires UniqueIds(content) && t < |content| && dropId == Some(content[t].id)
      modifies this
      ensures content == Filter(Kept(movedIds), old(content)) && movedRecords == Filter(Moved(movedIds), old(content))
      ensures Repaired(movedIds, old(content), t, old(dropAfter), |old(content)|, dropId, dropAfter)
    {
      movedRecords := [];
      ghost var all, n := content, 0;
      var i: nat := 0;
      while i < |content|
        invariant Divides(movedIds, all, n, i, movedRecords)
        invariant Repaired(movedIds, all, t, old(dropAfter), n, dropId, dropAfter)
        decreases |all| - n
      {
        i, movedRecords := TakeTurn(movedIds, i, movedRecords, all, t, old(dropAfter), n);
        n := n + 1;
      }
      assert content[..i] == content && |all[n..]| == 0 && all[..n] == all;
    }

    /** The second loop of moveRows: put the moved records back, one by one, at the drop target. */
    method PutBack(movedRecords: seq<Record>, ghost j: nat)
      requires UniqueIds(content) && j < |content| && dropId == Some(content[j].id)
      modifies this`content
      ensures var k := if dropAfter then j + 1 else j;
        content == old(content)[..k] + movedRecords + old(content)[k..]
    {
      var i := 0;
      while Some(content[i].id) != dropId
        invariant 0 <= i <= j
        decreases j - i
      {
        i := i + 1;
      }
      var k := if dropAfter then i + 1 else i;
      ghost var kept := content;
      var m := |movedRecords|;
      while m > 0
        invariant 0 <= m <= |movedRecords| && k <= |kept|
        invariant content == kept[..k] + movedRecords[m..] + kept[k..]
      {
        m := m - 1;
        InsertMore(kept, k, movedRecords, m);
        content := content[..k] + [movedRecords[m]] + content[k..];
      }
    }

    /** The drop target is the record at `j`, and says position `k`. */
    predicate StandsAt(kept: seq<Record>, j: nat, k: nat)
      requires j < |kept|
      reads this
    {
      dropId == Some(kept[j].id) && k == if dropAfter then j + 1 else j
    }

    method MoveRows(movedIds: seq<int>, ghost t: nat)
      requires UniqueIds(content) && t < |content| && dropId == Some(content[t].id)
      modifies this
      ensures content == MoveTo(movedIds, old(content), t, old(dropAfter))
      // the anchor reported to the server is a kept record, and the block stands right beside it
      ensures var kept := Filter(Kept(movedIds), old(content));
        if kept == [] then dropId == None
        else exists j :: 0 <= j < |kept| && StandsAt(kept, j, BlockPosition(movedIds, old(content), t, old(dropAfter)))
    {
      ghost var all, after := content, dropAfter;
      var movedRecords := TakeOut(movedIds, t);
      if dropId == None {
        var _ := Anchored(movedIds, all, t, after, dropId, dropAfter);
        content := content + movedRecords;
        return;
      }
      ghost var j := Anchored(movedIds, all, t, after, dropId, dropAfter);
      PutBack(movedRecords, j);
      assert StandsAt(Filter(Kept(movedIds), all), j, BlockPosition(movedIds, all, t, after));
    }
  }

  /** After how many kept records the block of moved ones goes: where the target says if it is kept, otherwise after
      exactly the kept records that preceded it. */
  function BlockPosition(ids: seq<int>, s: seq<Record>, t: nat, after: bool): nat
    requires t < |s|
  {
    KeptBefore(ids, s, t) + if s[t].id !in ids && after then 1 else 0
  }

  /** The kept records in their order, with all moved ones as one block in theirs. */
  function MoveTo(ids: seq<int>, s: seq<Record>, t: nat, after: bool): seq<Record>
    requires t < |s|
  {
    KeptAround(ids, s, t);
    var kept, k := Filter(Kept(ids), s), BlockPosition(ids, s, t, after);
    kept[..k] + Filter(Moved(ids), s) + kept[k..]
  }

  /** The records that move and those that stay keep their order, and a target that stays has the block right beside it,
      on the side asked for. */
  lemma MovesBesideTheTarget(ids: seq<int>, s: seq<Record>, t: nat, after: bool) returns (p: nat)
    requires t < |s|
    ensures var r, moved := MoveTo(ids, s, t, after), Filter(Moved(ids), s);
      && Filter(Moved(ids), r) == moved && Filter(Kept(ids), r) == Filter(Kept(ids), s)
      && if s[t].id in ids then true else
        && p < |r| && r[p] == s[t]
        && if after then p + 1 + |moved| <= |r| && r[p + 1..p + 1 + |moved|] == moved
           else |moved| <= p && r[p - |moved|..p] == moved
  {
    var k, moved, kept := BlockPosition(ids, s, t, after), Filter(Moved(ids), s), Filter(Kept(ids), s);
    KeptAround(ids, s, t);
    BlockKeepsTheOrder(ids, s, k);
    p := if after then KeptBefore(ids, s, t) else KeptBefore(ids, s, t) + |moved|;
    var r := kept[..k] + moved + kept[k..];
    assert r[k..k + |moved|] == moved;
  }

  lemma BlockKeepsTheOrder(ids: seq<int>, s: seq<Record>, k: nat)
    requires k <= |Filter(Kept(ids), s)|
    ensures var kept, moved := Filter(Kept(ids), s), Filter(Moved(ids), s);
      var r := kept[..k] + moved + kept[k..];
      Filter(Moved(ids), r) == moved && Filter(Kept(ids), r) == kept
  {
    var kept, moved := Filter(Kept(ids), s), Filter(Moved(ids), s);
    assert kept == kept[..k] + kept[k..];
    FilterMembers(Kept(ids), s);
    FilterMembers(Moved(ids), s);
    FilterAll(Kept(ids), kept[..k]);
    FilterAll(Kept(ids), kept[k..]);
    FilterNone(Moved(ids), kept[..k]);
    FilterNone(Moved(ids), kept[k..]);
    FilterAll(Moved(ids), moved);
    FilterNone(Kept(ids), moved);
    FilterInside(Moved(ids), kept[..k], moved, kept[k..]);
    FilterAround(Kept(ids), kept[..k], moved, kept[k..]);
  }

  lemma FilterInside(p: Record -> bool, a: seq<Record>, b: seq<Record>, c: seq<Record>)
    requires Filter(p, a) == [] && Filter(p, b) == b && Filter(p, c) == []
    ensures Filter(p, a + b + c) == b
  {
    FilterConcat(p, a + b, c);
    FilterConcat(p, a, b);
  }

  lemma FilterAround(p: Record -> bool, a: seq<Record>, b: seq<Record>, c: seq<Record>)
    requires Filter(p, a) == a && Filter(p, b) == [] && Filter(p, c) == c
    ensures Filter(p, a + b + c) == a + c
  {
    FilterConcat(p, a + b, c);
    FilterConcat(p, a, b);
  }

  lemma InsertMore(kept: seq<Record>, k: nat, moved: seq<Record>, m: nat)
    requires k <= |kept| && m < |moved|
    ensures var c := kept[..k] + moved[m + 1..] + kept[k..];
      c[..k] + [moved[m]] + c[k..] == kept[..k] + moved[m..] + kept[k..]
  {
  }

  lemma KeptAround(ids: seq<int>, s: seq<Record>, t: nat)
    requires t < |s|
    ensures KeptBefore(ids, s, t) <= |Filter(Kept(ids), s)|
    ensures s[t].id !in ids ==> KeptBefore(ids, s, t) < |Filter(Kept(ids), s)|
    ensures s[t].id !in ids ==> Filter(Kept(ids), s)[KeptBefore(ids, s, t)] == s[t]
  {
    SplitOne(ids, s, t);
    assert s == s[..t + 1] + s[t + 1..];
    FilterConcat(Kept(ids), s[..t + 1], s[t + 1..]);
    var a, b := Filter(Kept(ids), s[..t]), Filter(Kept(ids), s[t + 1..]);
    if s[t].id !in ids {
      assert Filter(Kept(ids), s) == a + [s[t]] + b;
    } else {
      assert Filter(Kept(ids), s) == a + b;
    }
  }

  lemma {:induction false} KeptUnique(ids: seq<int>, s: seq<Record>)
    requires UniqueIds(s)
    ensures UniqueIds(Filter(Kept(ids), s))
  {
    if s != [] {
      KeptUnique(ids, s[1..]);
      FilterMembers(Kept(ids), s[1..]);
    }
  }

  /** The repaired drop target stands in the kept records, beside the position of the block. */
  lemma Anchored(ids: seq<int>, s: seq<Record>, t: nat, after: bool, dropId: Option<int>, dropAfter: bool)
    returns (j: nat)
    requires UniqueIds(s) && t < |s| && Repaired(ids, s, t, after, |s|, dropId, dropAfter)
    ensures var kept := Filter(Kept(ids), s);
      && UniqueIds(kept)
      && (dropId == None <==> kept == [])
      && (kept == [] ==> Filter(Moved(ids), s) == s && BlockPosition(ids, s, t, after) == 0)
      && (kept != [] ==> j < |kept| && dropId == Some(kept[j].id))
      && (kept != [] ==> BlockPosition(ids, s, t, after) == if dropAfter then j + 1 else j)
  {
    var kept, before := Filter(Kept(ids), s), KeptBefore(ids, s, t);
    assert s[..|s|] == s;
    KeptUnique(ids, s);
    KeptAround(ids, s, t);
    FilterMembers(Kept(ids), s);
    if kept == [] {
      FilterAll(Moved(ids), s);
    }
    j := if s[t].id !in ids then before else if before > 0 then before - 1 else 0;
  }
}
