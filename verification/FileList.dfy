/** webui/edit.js: moving the checked files of a download to the top or the bottom of its list. */
module FileLists {
  import opened Sequences

  class File {
    const id: int
    var moved: bool
    var editMoved: bool

    constructor (id: int)
      ensures this.id == id && !moved && !editMoved
    {
      this.id, moved, editMoved := id, false, false;
    }
  }

  datatype Action = Top | Bottom

  function IsChecked(checkedRows: set<int>): File -> bool {
    (f: File) => f.id in checkedRows
  }

  function IsUnchecked(checkedRows: set<int>): File -> bool {
    (f: File) => f.id !in checkedRows
  }

  function Checked(checkedRows: set<int>, s: seq<File>): seq<File> {
    Filter(IsChecked(checkedRows), s)
  }

  function Unchecked(checkedRows: set<int>, s: seq<File>): seq<File> {
    Filter(IsUnchecked(checkedRows), s)
  }

  /** A group to one side and the rest to the other, each in the order it had. */
  function Partitioned(action: Action, checkedRows: set<int>, s: seq<File>): seq<File> {
    match action
    case Top => Checked(checkedRows, s) + Unchecked(checkedRows, s)
    case Bottom => Unchecked(checkedRows, s) + Checked(checkedRows, s)
  }

  /** The list while it is scanned: `todo` is untouched, `done` has been divided. */
  function Between(action: Action, checkedRows: set<int>, todo: seq<File>, done: seq<File>): seq<File> {
    match action
    case Top => Checked(checkedRows, done) + todo + Unchecked(checkedRows, done)
    case Bottom => Unchecked(checkedRows, done) + todo + Checked(checkedRows, done)
  }

  lemma CheckedConcat(checkedRows: set<int>, a: seq<File>, b: seq<File>)
    ensures Checked(checkedRows, a + b) == Checked(checkedRows, a) + Checked(checkedRows, b)
    ensures Unchecked(checkedRows, a + b) == Unchecked(checkedRows, a) + Unchecked(checkedRows, b)
  {
    FilterConcat(IsChecked(checkedRows), a, b);
    FilterConcat(IsUnchecked(checkedRows), a, b);
  }

  lemma OneFile(checkedRows: set<int>, f: File)
    ensures Checked(checkedRows, [f]) == (if f.id in checkedRows then [f] else [])
    ensures Unchecked(checkedRows, [f]) == (if f.id in checkedRows then [] else [f])
  {
    if f.id in checkedRows {
      FilterAll(IsChecked(checkedRows), [f]);
      FilterNone(IsUnchecked(checkedRows), [f]);
    } else {
      FilterNone(IsChecked(checkedRows), [f]);
      FilterAll(IsUnchecked(checkedRows), [f]);
    }
  }

  /** The file that the scan towards the top looks at, and the list once it has moved. */
  lemma TopStep(checkedRows: set<int>, todo: seq<File>, f: File, done: seq<File>)
    ensures var s, u := Between(Top, checkedRows, todo + [f], done), Unchecked(checkedRows, done);
      && |s| > |u| && s[|s| - 1 - |u|] == f
      && Between(Top, checkedRows, todo, [f] + done) ==
           (if f.id in checkedRows then [f] + RemoveAt(s, |s| - 1 - |u|) else s)
      && Unchecked(checkedRows, [f] + done) == (if f.id in checkedRows then u else [f] + u)
  {
    CheckedConcat(checkedRows, [f], done);
    OneFile(checkedRows, f);
    var c, u := Checked(checkedRows, done), Unchecked(checkedRows, done);
    assert Checked(checkedRows, [f] + done) == if f.id in checkedRows then [f] + c else c;
    Around(c, todo, f, u);
  }

  /** The file that the scan towards the bottom looks at, and the list once it has moved. */
  lemma BottomStep(checkedRows: set<int>, todo: seq<File>, f: File, done: seq<File>)
    ensures var s, u := Between(Bottom, checkedRows, [f] + todo, done), Unchecked(checkedRows, done);
      && |s| > |u| && s[|u|] == f
      && Between(Bottom, checkedRows, todo, done + [f]) == (if f.id in checkedRows then RemoveAt(s, |u|) + [f] else s)
      && Unchecked(checkedRows, done + [f]) == (if f.id in checkedRows then u else u + [f])
  {
    CheckedConcat(checkedRows, done, [f]);
    OneFile(checkedRows, f);
    var c, u := Checked(checkedRows, done), Unchecked(checkedRows, done);
    assert Checked(checkedRows, done + [f]) == if f.id in checkedRows then c + [f] else c;
    Inside(u, f, todo, c);
  }

  /** The list when a scan of `was` stands at `k`: towards the top from the end, towards the bottom from the start. */
  function Scanned(action: Action, checkedRows: set<int>, was: seq<File>, k: nat): seq<File>
    requires k <= |was|
  {
    match action
    case Top => Between(Top, checkedRows, was[..k], was[k..])
    case Bottom => Between(Bottom, checkedRows, was[k..], was[..k])
  }

  /** How many files the scan has left where they were. */
  function Passed(action: Action, checkedRows: set<int>, was: seq<File>, k: nat): nat
    requires k <= |was|
  {
    |Unchecked(checkedRows, if action == Top then was[k..] else was[..k])|
  }

  lemma Ends(action: Action, checkedRows: set<int>, was: seq<File>)
    ensures Scanned(action, checkedRows, was, 0) == (if action == Top then Partitioned(Top, checkedRows, was) else was)
    ensures Scanned(action, checkedRows, was, |was|) ==
      if action == Top then was else Partitioned(Bottom, checkedRows, was)
    ensures Passed(action, checkedRows, was, if action == Top then |was| else 0) == 0
  {
    assert was[..0] == [] && was[0..] == was && was[..|was|] == was && was[|was|..] == [];
  }

  /** Where the scan has seen all files. */
  function Goal(action: Action, was: seq<File>): nat {
    if action == Top then 0 else |was|
  }

  /** As long as there are files to see, the scan is not at the end of the list. */
  lemma PassedIsLess(action: Action, checkedRows: set<int>, was: seq<File>, k: nat)
    requires k <= |was|
    ensures Passed(action, checkedRows, was, k) <= if action == Top then |was| - k else k
  {
    var done := if action == Top then was[k..] else was[..k];
    PartitionKeepsTheFiles(action, checkedRows, done);
    var parts := Partitioned(action, checkedRows, done);
    assert |multiset(done)| == |done| && |multiset(parts)| == |parts|;
  }

  lemma ScannedLength(action: Action, checkedRows: set<int>, was: seq<File>, k: nat)
    requires k <= |was|
    ensures |Scanned(action, checkedRows, was, k)| == |was|
  {
    var done := if action == Top then was[k..] else was[..k];
    PartitionKeepsTheFiles(action, checkedRows, done);
    var parts := Partitioned(action, checkedRows, done);
    assert |multiset(done)| == |done| && |multiset(parts)| == |parts|;
  }

  lemma SplitAt(was: seq<File>, k: nat)
    requires k < |was|
    ensures was[..k + 1] == was[..k] + [was[k]] && was[k..] == [was[k]] + was[k + 1..]
  {
  }

  lemma TopTurn(checkedRows: set<int>, was: seq<File>, k: nat)
    requires k <= |was|
    ensures var s, u := Scanned(Top, checkedRows, was, k), Passed(Top, checkedRows, was, k);
      && |s| == |was|
      && if k == 0 then true else
        && |s| > u && s[|s| - 1 - u] == was[k - 1]
        && Scanned(Top, checkedRows, was, k - 1) ==
             (if was[k - 1].id in checkedRows then [was[k - 1]] + RemoveAt(s, |s| - 1 - u) else s)
        && Passed(Top, checkedRows, was, k - 1) == (if was[k - 1].id in checkedRows then u else u + 1)
  {
    ScannedLength(Top, checkedRows, was, k);
    if k > 0 {
      TopStep(checkedRows, was[..k - 1], was[k - 1], was[k..]);
      SplitAt(was, k - 1);
    }
  }

  lemma BottomTurn(checkedRows: set<int>, was: seq<File>, k: nat)
    requires k <= |was|
    ensures var s, u := Scanned(Bottom, checkedRows, was, k), Passed(Bottom, checkedRows, was, k);
      && |s| == |was|
      && if k == |was| then true else
        && |s| > u && s[u] == was[k]
        && Scanned(Bottom, checkedRows, was, k + 1) ==
             (if was[k].id in checkedRows then RemoveAt(s, u) + [was[k]] else s)
        && Passed(Bottom, checkedRows, was, k + 1) == (if was[k].id in checkedRows then u else u + 1)
  {
    ScannedLength(Bottom, checkedRows, was, k);
    if k < |was| {
      BottomStep(checkedRows, was[k + 1..], was[k], was[..k]);
      SplitAt(was, k);
    }
  }

  /** Where a file of the divided list was before. */
  ghost function PositionOf(f: File, action: Action, checkedRows: set<int>, was: seq<File>): (m: nat)
    requires f in Scanned(action, checkedRows, was, Goal(action, was))
    ensures m < |was| && was[m] == f
  {
    Ends(action, checkedRows, was);
    PartitionKeepsTheFiles(action, checkedRows, was);
    assert f in multiset(Partitioned(action, checkedRows, was));
    assert f in was;
    var m :| 0 <= m < |was| && was[m] == f;
    m
  }

  lemma NoneChecked(action: Action, s: seq<File>)
    ensures Partitioned(action, {}, s) == s
  {
    FilterNone(IsChecked({}), s);
    FilterAll(IsUnchecked({}), s);
    assert [] + s == s && s + [] == s;
  }

  lemma Around<T>(a: seq<T>, b: seq<T>, f: T, c: seq<T>)
    ensures var s := a + (b + [f]) + c;
      && |s| > |c| && s[|s| - 1 - |c|] == f
      && [f] + RemoveAt(s, |s| - 1 - |c|) == [f] + a + b + c && s == a + b + ([f] + c)
  {
  }

  lemma Inside<T>(a: seq<T>, f: T, b: seq<T>, c: seq<T>)
    ensures var s := a + ([f] + b) + c;
      && |s| > |a| && s[|a|] == f
      && RemoveAt(s, |a|) + [f] == a + b + (c + [f]) && s == (a + [f]) + b + c
  {
  }

  /** Dividing loses no file and repeats none. */
  lemma {:induction false} PartitionKeepsTheFiles(action: Action, checkedRows: set<int>, s: seq<File>)
    ensures multiset(Partitioned(action, checkedRows, s)) == multiset(s)
  {
    if s != [] {
      PartitionKeepsTheFiles(action, checkedRows, s[1..]);
      assert s == [s[0]] + s[1..];
      CheckedConcat(checkedRows, [s[0]], s[1..]);
      OneFile(checkedRows, s[0]);
    }
  }

  /** At the top no checked file stands behind an unchecked one, at the bottom none before. */
  lemma PartitionDivides(action: Action, checkedRows: set<int>, s: seq<File>, i: nat, j: nat)
    requires i < j < |Partitioned(action, checkedRows, s)|
    ensures var r := Partitioned(action, checkedRows, s);
      match action
      case Top => r[j].id in checkedRows ==> r[i].id in checkedRows
      case Bottom => r[i].id in checkedRows ==> r[j].id in checkedRows
  {
    FilterMembers(IsChecked(checkedRows), s);
    FilterMembers(IsUnchecked(checkedRows), s);
  }

  /** Both groups keep their order. */
  lemma PartitionIsStable(action: Action, checkedRows: set<int>, s: seq<File>)
    ensures var r := Partitioned(action, checkedRows, s);
      && Checked(checkedRows, r) == Checked(checkedRows, s)
      && Unchecked(checkedRows, r) == Unchecked(checkedRows, s)
  {
    var c, u := Checked(checkedRows, s), Unchecked(checkedRows, s);
    Divided(checkedRows, s);
    CheckedConcat(checkedRows, c, u);
    CheckedConcat(checkedRows, u, c);
    assert c + [] == c && [] + c == c && u + [] == u && [] + u == u;
  }

  /** A second move of the same files changes nothing. */
  lemma PartitionTwice(action: Action, checkedRows: set<int>, s: seq<File>)
    ensures Partitioned(action, checkedRows, Partitioned(action, checkedRows, s)) == Partitioned(action, checkedRows, s)
  {
    var c, u := Checked(checkedRows, s), Unchecked(checkedRows, s);
    CheckedConcat(checkedRows, c, u);
    CheckedConcat(checkedRows, u, c);
    Divided(checkedRows, s);
    assert c + [] == c && [] + c == c && u + [] == u && [] + u == u;
  }

  lemma Divided(checkedRows: set<int>, s: seq<File>)
    ensures var c, u := Checked(checkedRows, s), Unchecked(checkedRows, s);
      && Checked(checkedRows, c) == c && Unchecked(checkedRows, c) == []
      && Checked(checkedRows, u) == [] && Unchecked(checkedRows, u) == u
  {
    FilterMembers(IsChecked(checkedRows), s);
    FilterMembers(IsUnchecked(checkedRows), s);
    FilterAll(IsChecked(checkedRows), Checked(checkedRows, s));
    FilterNone(IsChecked(checkedRows), Unchecked(checkedRows, s));
    FilterAll(IsUnchecked(checkedRows), Unchecked(checkedRows, s));
    FilterNone(IsUnchecked(checkedRows), Checked(checkedRows, s));
  }

  class DownloadsEditDialog {
    var files: seq<File>

    constructor (files: seq<File>)
      ensures this.files == files
    {
      this.files := files;
    }

    /** The flags when the files from `from` up to `to` have been looked at; `edited` is what editMoved was. */
    ghost predicate FlagsTell(checkedRows: set<int>, was: seq<File>, edited: seq<bool>, from: nat, to: nat)
      reads was
    {
      && |edited| == |was|
      && forall m :: 0 <= m < |was| ==> FileTells(was[m], from <= m < to && was[m].id in checkedRows, edited[m])
    }

    ghost predicate FileTells(f: File, isMoved: bool, edited: bool)
      reads f
    {
      f.moved == isMoved && f.editMoved == (edited || isMoved)
    }

    ghost function EditMoved(s: seq<File>): (r: seq<bool>)
      reads s
      ensures |r| == |s| && forall m :: 0 <= m < |s| ==> r[m] == s[m].editMoved
    {
      seq(|s|, m requires 0 <= m < |s| reads s => s[m].editMoved)
    }

    method ClearMoved()
      modifies files`moved
      ensures forall k :: 0 <= k < |files| ==> !files[k].moved
    {
      var i := 0;
      while i < |files|
        invariant i <= |files| && forall k :: 0 <= k < i ==> !files[k].moved
      {
        files[i].moved := false;
        i := i + 1;
      }
    }

    /** The file at `m` of the old list moves: the flags now tell about it too. */
    method MarkMoved(file: File, ghost checkedRows: set<int>, ghost was: seq<File>, ghost edited: seq<bool>,
                     ghost m: nat, ghost from: nat, ghost to: nat)
      requires Distinct(was) && m < |was| && was[m] == file && file.id in checkedRows
      requires FlagsTell(checkedRows, was, edited, from, to) && (from == m + 1 || to == m) && from <= to
      modifies file
      ensures FlagsTell(checkedRows, was, edited, if from == m + 1 then m else from, if to == m then m + 1 else to)
    {
      file.moved := true;
      file.editMoved := true;
    }

    /** A scan of `was` stands at `k`, and looks at position `i` from its side next. */
    ghost predicate ScanAt(action: Action, checkedRows: set<int>, was: seq<File>, edited: seq<bool>, k: nat, i: int)
      requires k <= |was|
      reads this`files, was
    {
      && files == Scanned(action, checkedRows, was, k)
      && Passed(action, checkedRows, was, k) <= i
      && (k != Goal(action, was) ==> i == Passed(action, checkedRows, was, k))
      && FlagsTell(checkedRows, was, edited, if action == Top then k else 0, if action == Top then |was| else k)
    }

    /** The body of the loop of `editActionClick('top')`. */
    method TopLoopBody(checkedRows: set<int>, i: nat, ghost was: seq<File>, ghost edited: seq<bool>, ghost k: nat)
      returns (next: nat)
      requires Distinct(was) && k <= |was| && i < |files| && ScanAt(Top, checkedRows, was, edited, k, i)
      modifies this`files, was
      ensures ScanAt(Top, checkedRows, was, edited, if k > 0 then k - 1 else 0, next)
      ensures |files| == |was| && (k == 0 ==> next == i + 1)
    {
      TopTurn(checkedRows, was, k);
      ScannedLength(Top, checkedRows, was, if k > 0 then k - 1 else 0);
      var n := |files| - 1 - i;
      var file := files[n];
      ghost var m := if k > 0 then k - 1 else PositionOf(file, Top, checkedRows, was);
      assert file == was[m];
      next := i + 1;
      if file.id in checkedRows && !file.moved {
        files := RemoveAt(files, n);
        files := [file] + files;
        MarkMoved(file, checkedRows, was, edited, m, k, |was|);
        next := i;
      }
    }

    /** The loop of `editActionClick('top')`: it runs backwards over the list that it is changing. */
    method MoveToTop(checkedRows: set<int>, ghost edited: seq<bool>)
      requires Distinct(files) && FlagsTell(checkedRows, files, edited, |files|, |files|)
      modifies this`files, files
      ensures files == Partitioned(Top, checkedRows, old(files))
      ensures FlagsTell(checkedRows, old(files), edited, 0, |old(files)|)
    {
      ghost var was := files;
      ghost var k: nat := |was|;
      var i: nat := 0;
      Ends(Top, checkedRows, was);
      ScannedLength(Top, checkedRows, was, 0);
      while i < |files|
        invariant 0 <= k <= |was| == |files| && ScanAt(Top, checkedRows, was, edited, k, i)
        decreases k, |files| - i
      {
        i := TopLoopBody(checkedRows, i, was, edited, k);
        k := if k > 0 then k - 1 else 0;
      }
      PassedIsLess(Top, checkedRows, was, k);
    }

    /** The body of the loop of `editActionClick('bottom')`. */
    method BottomLoopBody(checkedRows: set<int>, i: nat, ghost was: seq<File>, ghost edited: seq<bool>, ghost k: nat)
      returns (next: nat)
      requires Distinct(was) && k <= |was| && i < |files| && ScanAt(Bottom, checkedRows, was, edited, k, i)
      modifies this`files, was
      ensures ScanAt(Bottom, checkedRows, was, edited, if k < |was| then k + 1 else k, next)
      ensures |files| == |was| && (k == |was| ==> next == i + 1)
    {
      BottomTurn(checkedRows, was, k);
      ScannedLength(Bottom, checkedRows, was, if k < |was| then k + 1 else k);
      var file := files[i];
      ghost var m := if k < |was| then k else PositionOf(file, Bottom, checkedRows, was);
      assert file == was[m];
      next := i + 1;
      if file.id in checkedRows && !file.moved {
        files := RemoveAt(files, i);
        files := files + [file];
        MarkMoved(file, checkedRows, was, edited, m, 0, k);
        next := i;
      }
    }

    /** The loop of `editActionClick('bottom')`. */
    method MoveToBottom(checkedRows: set<int>, ghost edited: seq<bool>)
      requires Distinct(files) && FlagsTell(checkedRows, files, edited, 0, 0)
      modifies this`files, files
      ensures files == Partitioned(Bottom, checkedRows, old(files))
      ensures FlagsTell(checkedRows, old(files), edited, 0, |old(files)|)
    {
      ghost var was := files;
      ghost var k: nat := 0;
      var i: nat := 0;
      Ends(Bottom, checkedRows, was);
      ScannedLength(Bottom, checkedRows, was, |was|);
      while i < |files|
        invariant 0 <= k <= |was| == |files| && ScanAt(Bottom, checkedRows, was, edited, k, i)
        decreases |was| - k, |files| - i
      {
        i := BottomLoopBody(checkedRows, i, was, edited, k);
        k := if k < |was| then k + 1 else k;
      }
      PassedIsLess(Bottom, checkedRows, was, k);
    }

    /** `editActionClick` for the two actions. */
    method EditActionClick(action: Action, checkedRows: set<int>, checkedCount: nat)
      requires Distinct(files)
      requires checkedCount == 0 <==> checkedRows == {}
      modifies this`files, files
      ensures files == Partitioned(action, checkedRows, old(files))
      ensures forall f :: f in old(files) ==> f.editMoved == (old(f.editMoved) || f.id in checkedRows)
      ensures checkedCount > 0 ==> forall f :: f in old(files) ==> f.moved == (f.id in checkedRows)
      ensures checkedCount == 0 ==> files == old(files) && forall f :: f in files ==> f.moved == old(f.moved)
    {
      if |files| == 0 {
        return;
      }
      if checkedCount == 0 {
        NoneChecked(action, files);
        return;
      }
      ghost var edited := EditMoved(files);
      ClearMoved();
      match action
      case Top => MoveToTop(checkedRows, edited);
      case Bottom => MoveToBottom(checkedRows, edited);
    }
  }
}
