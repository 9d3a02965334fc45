/** The in-place updates of webui/fasttable.js: live node lists that shrink while they are read. */
module TableDiffs {
  import opened Sequences

  /** A DOM node without children that matter here: its identity, and its outer html. */
  datatype Node = Node(identity: int, html: string)

  /** Where the new node differs it replaces the old one; where it does not, the old one stays. */
  function Patched(old_: Node, new_: Node): (r: Node)
    ensures r.html == new_.html && r in {old_, new_} && (r == old_ || old_.html != new_.html)
  {
    if old_.html != new_.html then new_ else old_
  }

  /** What a row shows: its class, the id of its record, and its cells. */
  datatype View = View(className: string, fasttableId: int, cells: seq<Node>)

  /** The old row after the update: its cells show as in the new row, and those with the same html stay. A new row with
      more cells is merged as far as the old row goes. */
  function Merge(o: View, n: View): View
    requires |o.cells| <= |n.cells|
  {
    View(n.className, n.fasttableId, seq(|o.cells|, j requires 0 <= j < |o.cells| => Patched(o.cells[j], n.cells[j])))
  }

  class Row {
    var className: string
    var fasttableId: int
    var cells: seq<Node>

    constructor (className: string, fasttableId: int, cells: seq<Node>)
      ensures Shown() == View(className, fasttableId, cells)
    {
      this.className, this.fasttableId, this.cells := className, fasttableId, cells;
    }

    function Shown(): View
      reads this
    {
      View(className, fasttableId, cells)
    }
  }

  class Table {
    var rows: seq<Row>

    constructor (rows: seq<Row>)
      ensures this.rows == rows
    {
      this.rows := rows;
    }
  }

  /** The update of one existing row. A node that moves to the old row leaves the new one. */
  method UpdateRow(oldTR: Row, newTR: Row)
    requires oldTR != newTR && |oldTR.cells| <= |newTR.cells|
    modifies oldTR, newTR`cells
    ensures oldTR.Shown() == Merge(old(oldTR.Shown()), old(newTR.Shown()))
  {
    oldTR.className, oldTR.fasttableId := newTR.className, newTR.fasttableId;
    var j, n := 0, 0;
    while j < |oldTR.cells|
      invariant 0 <= n <= j <= |oldTR.cells| == |old(oldTR.cells)| && n <= |newTR.cells|
      invariant newTR.cells[n..] == old(newTR.cells)[j..]
      invariant forall k :: j <= k < |oldTR.cells| ==> oldTR.cells[k] == old(oldTR.cells)[k]
      invariant forall k :: 0 <= k < j ==> oldTR.cells[k] == Patched(old(oldTR.cells)[k], old(newTR.cells)[k])
      invariant oldTR.className == newTR.className && oldTR.fasttableId == newTR.fasttableId
    {
      var oldTD := oldTR.cells[j];
      var newTD := newTR.cells[n];
      assert newTD == old(newTR.cells)[j..][0];
      assert newTR.cells[n..][1..] == old(newTR.cells)[j..][1..];
      if oldTD.html != newTD.html {
        oldTR.cells := oldTR.cells[j := newTD];
        newTR.cells := RemoveAt(newTR.cells, n);
        n := n - 1;
      }
      j, n := j + 1, n + 1;
    }
  }

  ghost function Views(rows: seq<Row>): (v: seq<View>)
    reads rows
    ensures |v| == |rows|
    ensures forall k :: 0 <= k < |rows| ==> v[k] == rows[k].Shown()
  {
    seq(|rows|, k requires 0 <= k < |rows| reads rows => rows[k].Shown())
  }

  /** The new rows have at least as many cells as the data rows at their places; with fewer, the code fails. */
  ghost predicate WideEnough(was: seq<View>, new_: seq<View>, headerRows: nat) {
    forall k :: headerRows <= k < |was| && k - headerRows < |new_| ==> |was[k].cells| <= |new_[k - headerRows].cells|
  }

  /** What row `k` shows after the first `i` data rows are merged with the new rows. */
  ghost function MergedTo(was: seq<View>, new_: seq<View>, headerRows: nat, i: nat, k: nat): View
    requires WideEnough(was, new_, headerRows) && k < |was|
  {
    if headerRows <= k < headerRows + i && k - headerRows < |new_| then Merge(was[k], new_[k - headerRows]) else was[k]
  }

  ghost predicate RowsMerged(rows: seq<Row>, was: seq<View>, new_: seq<View>, headerRows: nat, i: nat)
    requires WideEnough(was, new_, headerRows)
    reads rows
  {
    |was| == |rows| && forall k :: 0 <= k < |rows| ==> rows[k].Shown() == MergedTo(was, new_, headerRows, i, k)
  }

  ghost predicate RowsStill(rows: seq<Row>, shown: seq<View>, from: nat)
    reads rows
  {
    |shown| == |rows| && forall k :: from <= k < |rows| ==> rows[k].Shown() == shown[k]
  }

  ghost predicate Apart(oldRows: seq<Row>, newRows: seq<Row>) {
    && (forall j, k :: 0 <= j < k < |oldRows| ==> oldRows[j] != oldRows[k])
    && (forall j, k :: 0 <= j < k < |newRows| ==> newRows[j] != newRows[k])
    && (forall j, k :: 0 <= j < |oldRows| && 0 <= k < |newRows| ==> oldRows[j] != newRows[k])
  }

  /** One turn of the loop of updateTBody that finds an old row for the new one. */
  method MergeRow(oldTR: Row, newTR: Row, ghost oldRows: seq<Row>, ghost newRows: seq<Row>,
                  ghost was: seq<View>, ghost new_: seq<View>, headerRows: nat, i: nat)
    requires Apart(oldRows, newRows) && WideEnough(was, new_, headerRows)
    requires headerRows + i < |oldRows| && oldRows[headerRows + i] == oldTR && i < |newRows| && newRows[i] == newTR
    requires RowsMerged(oldRows, was, new_, headerRows, i) && RowsStill(newRows, new_, i)
    modifies oldTR, newTR`cells
    ensures RowsMerged(oldRows, was, new_, headerRows, i + 1) && RowsStill(newRows, new_, i + 1)
  {
    UpdateRow(oldTR, newTR);
  }

  /** The live lists after `moved` of the new rows, from position `i` on, have come over to the old table. */
  predicate ListsAt(oldRows: seq<Row>, newRows: seq<Row>, oldNow: seq<Row>, newNow: seq<Row>, i: nat, moved: nat) {
    && i + moved <= |newRows|
    && if moved == 0 then oldNow == oldRows && newNow == newRows
       else oldNow == oldRows + newRows[i..i + moved] && newNow == newRows[..i] + newRows[i + moved..]
  }

  lemma RowMoves(oldRows: seq<Row>, newRows: seq<Row>, oldNow: seq<Row>, newNow: seq<Row>, i: nat, moved: nat)
    requires ListsAt(oldRows, newRows, oldNow, newNow, i, moved) && i < |newNow|
    ensures ListsAt(oldRows, newRows, oldNow + [newNow[i]], RemoveAt(newNow, i), i, moved + 1)
  {
    if moved > 0 {
      assert newNow[i] == newRows[i + moved];
      assert newRows[i..i + moved] + [newNow[i]] == newRows[i..i + moved + 1];
    }
  }

  lemma AllMoved(oldRows: seq<Row>, newRows: seq<Row>, oldNow: seq<Row>, newNow: seq<Row>, i: nat, moved: nat, m: nat)
    requires ListsAt(oldRows, newRows, oldNow, newNow, i, moved) && |newNow| <= i <= m && (moved > 0 ==> i == m)
    ensures oldNow == oldRows + Beyond(newRows, m)
  {
    if moved > 0 {
      assert newRows[i..i + moved] == newRows[m..];
    }
  }

  /** appendChild: the row leaves the live list of the new table. */
  method AppendRow(oldTable: Table, newTable: Table, newTR: Row, i: nat,
                   ghost oldRows: seq<Row>, ghost newRows: seq<Row>, ghost moved: nat)
    requires oldTable != newTable && i < |newTable.rows| && newTable.rows[i] == newTR
    requires ListsAt(oldRows, newRows, oldTable.rows, newTable.rows, i, moved)
    modifies oldTable, newTable
    ensures ListsAt(oldRows, newRows, oldTable.rows, newTable.rows, i, moved + 1)
    ensures |newTable.rows| == old(|newTable.rows|) - 1
  {
    RowMoves(oldRows, newRows, oldTable.rows, newTable.rows, i, moved);
    newTable.rows := RemoveAt(newTable.rows, i);
    oldTable.rows := oldTable.rows + [newTR];
  }

  /** The loop of updateTBody: merge the rows that are there, then move the others over from the new table. */
  method MergeRows(oldTable: Table, newTable: Table, headerRows: nat, ghost was: seq<View>, ghost new_: seq<View>)
    requires oldTable != newTable && headerRows <= |oldTable.rows| && Apart(oldTable.rows, newTable.rows)
    requires WideEnough(was, new_, headerRows)
    requires RowsMerged(oldTable.rows, was, new_, headerRows, 0) && RowsStill(newTable.rows, new_, 0)
    modifies oldTable, newTable, oldTable.rows, newTable.rows
    ensures oldTable.rows == old(oldTable.rows) + Beyond(old(newTable.rows), |was| - headerRows)
    ensures RowsMerged(old(oldTable.rows), was, new_, headerRows, |new_|)
    ensures RowsStill(old(newTable.rows), new_, |was| - headerRows)
  {
    ghost var oldRows, newRows := oldTable.rows, newTable.rows;
    var oldTRsLength := |oldTable.rows| - headerRows;
    var i := 0;
    ghost var moved := 0;
    while i < |newTable.rows|
      invariant 0 <= i <= oldTRsLength && 0 <= moved && (moved > 0 ==> i == oldTRsLength)
      invariant ListsAt(oldRows, newRows, oldTable.rows, newTable.rows, i, moved)
      invariant RowsMerged(oldRows, was, new_, headerRows, i) && RowsStill(newRows, new_, i)
      decreases |newTable.rows|, |newTable.rows| - i
    {
      var newTR := newTable.rows[i];
      if i < oldTRsLength {
        MergeRow(oldTable.rows[i + headerRows], newTR, oldRows, newRows, was, new_, headerRows, i);
        i := i + 1;
      } else {
        AppendRow(oldTable, newTable, newTR, i, oldRows, newRows, moved);
        moved := moved + 1;
      }
    }
    AllMoved(oldRows, newRows, oldTable.rows, newTable.rows, i, moved, oldTRsLength);
  }

  /** The elements from position `n` on; none when the sequence is shorter. */
  function Beyond<T>(s: seq<T>, n: nat): seq<T> {
    if n < |s| then s[n..] else []
  }

  /** What row `k` below the header is to show after the update. */
  ghost function Updated(was: seq<View>, new_: seq<View>, headerRows: nat, k: nat): View
    requires WideEnough(was, new_, headerRows) && k < |new_|
  {
    if headerRows + k < |was| then Merge(was[headerRows + k], new_[k]) else new_[k]
  }

  /** All that can be seen of a row: the identity of its nodes is left out. */
  function Html(v: View): (string, int, seq<string>) {
    (v.className, v.fasttableId, seq(|v.cells|, j requires 0 <= j < |v.cells| => v.cells[j].html))
  }

  /** The row has no old row to be merged with, or one of the same width. */
  predicate Fits(was: seq<View>, new_: seq<View>, headerRows: nat, k: nat)
    requires k < |new_|
  {
    headerRows + k < |was| ==> |was[headerRows + k].cells| == |new_[k].cells|
  }

  /** A cell that shows the same is the node it was. */
  predicate KeepsCells(was: View, new_: View, updated: View) {
    && |updated.cells| == |was.cells| <= |new_.cells|
    && forall j :: 0 <= j < |was.cells| && was.cells[j].html == new_.cells[j].html ==> updated.cells[j] == was.cells[j]
  }

  /** An updated row cannot be told from the new one exactly if they are equally wide, and unchanged cells stay. */
  lemma UpdateLooksLikeRewrite(was: seq<View>, new_: seq<View>, headerRows: nat, k: nat)
    requires WideEnough(was, new_, headerRows) && k < |new_|
    ensures Html(Updated(was, new_, headerRows, k)) == Html(new_[k]) <==> Fits(was, new_, headerRows, k)
    ensures headerRows + k < |was| ==> KeepsCells(was[headerRows + k], new_[k], Updated(was, new_, headerRows, k))
  {
    var v := Updated(was, new_, headerRows, k);
    assert forall j :: 0 <= j < |v.cells| ==> v.cells[j].html == new_[k].cells[j].html;
    assert |Html(v).2| == |v.cells| && |Html(new_[k]).2| == |new_[k].cells|;
    assert |v.cells| == |new_[k].cells| ==> Html(v).2 == Html(new_[k]).2;
  }

  /** Deletes rows from the end until `maxTRs` are left. */
  method DeleteSurplus(table: Table, maxTRs: nat)
    modifies table
    ensures table.rows == old(table.rows)[..if maxTRs < |old(table.rows)| then maxTRs else |old(table.rows)|]
  {
    while |table.rows| > maxTRs
      invariant table.rows == old(table.rows)[..|table.rows|] && |table.rows| <= |old(table.rows)|
      invariant if |old(table.rows)| <= maxTRs then |table.rows| == |old(table.rows)| else maxTRs <= |table.rows|
    {
      table.rows := table.rows[..|table.rows| - 1];
    }
  }

  /** The table is its old rows and then the rows of the new table that found none, cut to the new length. */
  ghost predicate RowsReused(rows: seq<Row>, oldRows: seq<Row>, newRows: seq<Row>, headerRows: nat)
    requires headerRows <= |oldRows|
  {
    && |rows| == headerRows + |newRows|
    && forall k :: 0 <= k < |rows| ==> rows[k] == if k < |oldRows| then oldRows[k] else newRows[k - headerRows]
  }

  /** The header shows what it did, and every other row what a full rewrite would, if it is equally wide. */
  ghost predicate RowsShow(rows: seq<Row>, was: seq<View>, new_: seq<View>, headerRows: nat)
    requires WideEnough(was, new_, headerRows)
    reads rows
  {
    && |rows| == headerRows + |new_| && headerRows <= |was|
    && (forall k :: 0 <= k < headerRows ==> rows[k].Shown() == was[k])
    && (forall k :: headerRows <= k < |rows| ==> rows[k].Shown() == Updated(was, new_, headerRows, k - headerRows))
    && (forall k :: headerRows <= k < |rows| ==>
          (Html(rows[k].Shown()) == Html(new_[k - headerRows]) <==> Fits(was, new_, headerRows, k - headerRows)))
  }

  lemma UpdatedRowsShow(rows: seq<Row>, oldRows: seq<Row>, newRows: seq<Row>, was: seq<View>, new_: seq<View>,
                        headerRows: nat)
    requires WideEnough(was, new_, headerRows) && headerRows <= |oldRows|
    requires RowsReused(rows, oldRows, newRows, headerRows)
    requires RowsMerged(oldRows, was, new_, headerRows, |new_|) && RowsStill(newRows, new_, |was| - headerRows)
    ensures RowsShow(rows, was, new_, headerRows)
  {
    forall k | headerRows <= k < |rows|
      ensures rows[k].Shown() == Updated(was, new_, headerRows, k - headerRows)
      ensures Html(rows[k].Shown()) == Html(new_[k - headerRows]) <==> Fits(was, new_, headerRows, k - headerRows)
    {
      UpdateLooksLikeRewrite(was, new_, headerRows, k - headerRows);
    }
  }

  /** `updateTBody`: the header stays, old rows are reused in place, missing ones come over from the new table. */
  method UpdateTBody(oldTable: Table, newTable: Table, headerRows: nat)
    requires oldTable != newTable && headerRows <= |oldTable.rows| && Apart(oldTable.rows, newTable.rows)
    requires WideEnough(Views(oldTable.rows), Views(newTable.rows), headerRows)
    modifies oldTable, newTable, oldTable.rows, newTable.rows
    ensures RowsReused(oldTable.rows, old(oldTable.rows), old(newTable.rows), headerRows)
    ensures RowsShow(oldTable.rows, old(Views(oldTable.rows)), old(Views(newTable.rows)), headerRows)
  {
    ghost var was, new_ := Views(oldTable.rows), Views(newTable.rows);
    ghost var oldRows, newRows := oldTable.rows, newTable.rows;
    var newTRsLength := |newTable.rows|;
    MergeRows(oldTable, newTable, headerRows, was, new_);
    ghost var rows := CutRows(oldRows, newRows, headerRows);
    UpdatedRowsShow(rows, oldRows, newRows, was, new_, headerRows);
    ghost var all := oldTable.rows;
    assert |all| >= headerRows + |newRows| && rows == all[..headerRows + |newRows|];
    DeleteSurplus(oldTable, newTRsLength + headerRows);
    assert oldTable.rows == rows && RowsShow(rows, was, new_, headerRows);
  }

  ghost function CutRows(oldRows: seq<Row>, newRows: seq<Row>, headerRows: nat): (rows: seq<Row>)
    requires headerRows <= |oldRows|
    ensures RowsReused(rows, oldRows, newRows, headerRows)
  {
    (oldRows + Beyond(newRows, |oldRows| - headerRows))[..headerRows + |newRows|]
  }

  /** The items a pager is to have: at old positions the old ones where nothing differs, all else new. */
  function Repaged(was: seq<Node>, new_: seq<Node>): (r: seq<Node>)
    ensures |r| == |new_|
    ensures forall k :: 0 <= k < |new_| ==> r[k].html == new_[k].html
    ensures forall k :: 0 <= k < |new_| && k < |was| && was[k].html == new_[k].html ==> r[k] == was[k]
    ensures forall k :: 0 <= k < |new_| && !(k < |was| && was[k].html == new_[k].html) ==> r[k] == new_[k]
  {
    seq(|new_|, k requires 0 <= k < |new_| => if k < |was| then Patched(was[k], new_[k]) else new_[k])
  }

  /** A pager's list element with its live list of items. */
  class PagerList {
    var items: seq<Node>

    constructor (items: seq<Node>)
      ensures this.items == items
    {
      this.items := items;
    }

    /** The old list at position `n` of the scan: done up to `n`, untouched from there. */
    ghost predicate DoneUpTo(was: seq<Node>, new_: seq<Node>, n: nat)
      requires n <= |new_|
      reads this
    {
      && |items| == (if n <= |was| then |was| else n)
      && (forall k :: 0 <= k < n ==> items[k] == Repaged(was, new_)[k])
      && (forall k :: n <= k < |was| ==> items[k] == was[k])
    }

    /** `updatePagerContent`: items move out of `newPager` while its live list is scanned. */
    method UpdateContent(newPager: PagerList)
      requires newPager != this
      modifies this, newPager
      ensures items == Repaged(old(items), old(newPager.items))
    {
      ghost var was, new_ := items, newPager.items;
      var oldLIsLength, newLIsLength := |items|, |newPager.items|;
      var i, n := 0, 0;
      while i < |newPager.items|
        invariant 0 <= i <= n <= |new_| && i <= |newPager.items|
        invariant newPager.items[i..] == new_[n..]
        invariant DoneUpTo(was, new_, n)
        decreases |newPager.items| - i
      {
        var newLI := newPager.items[i];
        assert newLI == new_[n..][0] && newPager.items[i..][1..] == new_[n..][1..];
        if n < oldLIsLength {
          var oldLI := items[n];
          if oldLI.html != newLI.html {
            items := items[n := newLI];
            newPager.items := RemoveAt(newPager.items, i);
            i := i - 1;
          }
        } else {
          newPager.items := RemoveAt(newPager.items, i);
          items := items + [newLI];
          i := i - 1;
        }
        i, n := i + 1, n + 1;
      }
      assert |new_[n..]| == 0;
      while |items| > newLIsLength
        invariant |items| >= newLIsLength
        invariant forall k :: 0 <= k < newLIsLength ==> items[k] == Repaged(was, new_)[k]
      {
        items := items[..|items| - 1];
      }
    }
  }
}
