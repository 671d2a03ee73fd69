/** Building a wafer grid from a stream of STDF part result records (the
    `StdfToGrid` sink of `parse_stdf_file`): the records are reduced to a set
    of chips keyed by place, the chips are split into rows, each row is sorted
    by column, and every row is padded with missing dies. */
module Stdf {
  import opened Results
  import opened ChipsGrid
  import opened Classifier

  /** The fields of a part result record (PRR) the sink reads: `X_COORD`,
      `Y_COORD` and the `PART_FLG` byte. */
  datatype Record = Record(x: int, y: int, flag: bv8)

  /** A die with its coordinates. The chip set compares chips by row and
      column only (`Chip.__eq__`, `Chip.__hash__`). */
  datatype Chip = Chip(row: int, column: int, state: State)

  /** The exceptions the sink raises on a record stream it cannot shape. */
  datatype StdfError =
    | NoRecords              // `max` of the empty row dictionary: ValueError
    | MissingRow(row: int)   // a row index below the largest has no chip: KeyError
    | NoRows                 // `max` over no rows in `make_square_from_table`: ValueError

  /** `is_fail_prr`: bit 3 of the part flag says the part failed. */
  function IsFailPrr(flag: bv8): (fail: bool)
    ensures fail <==> (flag as int / 8) % 2 == 1
  {
    (flag & 8) >> 3 != 0
  }

  /** The chip `after_send` builds from a record: the row is the Y
      coordinate, the column the X coordinate. */
  function ChipOf(rec: Record): Chip {
    Chip(rec.y, rec.x, if IsFailPrr(rec.flag) then Fail else Pass)
  }

  // ----- The chip set -----

  /** No two chips share a place: the chip set is a set under `Chip.__eq__`. */
  predicate DistinctPlaces(chips: seq<Chip>) {
    forall i, j :: 0 <= i < j < |chips| ==>
      chips[i].row != chips[j].row || chips[i].column != chips[j].column
  }

  /** The position of the chip at (row, column), if there is one. */
  function Find(chips: seq<Chip>, row: int, column: int): (o: Option<nat>)
    ensures o.Some? ==> o.value < |chips| && chips[o.value].row == row && chips[o.value].column == column
    ensures o.None? ==> forall i :: 0 <= i < |chips| ==> chips[i].row != row || chips[i].column != column
    decreases |chips|
  {
    if |chips| == 0 then None
    else if chips[0].row == row && chips[0].column == column then Some(0)
    else match Find(chips[1..], row, column)
      case None => None
      case Some(i) => Some(i + 1)
  }

  /** In a set, the chip at a place is found where it stands. */
  lemma {:induction false} FindAt(chips: seq<Chip>, j: int)
    requires DistinctPlaces(chips) && 0 <= j < |chips|
    ensures Find(chips, chips[j].row, chips[j].column) == Some(j)
    decreases |chips|
  {
    if j > 0 {
      assert chips[1..][j - 1] == chips[j];
      FindAt(chips[1..], j - 1);
    }
  }

  /** The state of the chip at (row, column), if the set holds one. */
  function StateAt(chips: seq<Chip>, row: int, column: int): Option<State> {
    match Find(chips, row, column)
    case None => None
    case Some(i) => Some(chips[i].state)
  }

  /** `after_send` for a PRR record: a chip at a new place is added; a failed
      chip replaces the one already at its place; a passed chip leaves the set
      as it is, since `set.add` keeps the element it already holds. */
  function AfterSend(chips: seq<Chip>, rec: Record): (r: seq<Chip>)
    ensures |r| <= |chips| + 1
  {
    var c := ChipOf(rec);
    match Find(chips, c.row, c.column)
    case None => chips + [c]
    case Some(i) => if c.state == Fail then chips[..i] + chips[i + 1..] + [c] else chips
  }

  /** After a record the set still has one chip per place; the record's place
      holds a failed chip when the record failed, keeps its chip when the
      record passed, and gets a passed chip when it was empty; every other
      place is unchanged. */
  lemma AfterSendSpec(chips: seq<Chip>, rec: Record)
    requires DistinctPlaces(chips)
    ensures DistinctPlaces(AfterSend(chips, rec))
    ensures forall row, column :: StateAt(AfterSend(chips, rec), row, column) ==
              if row == rec.y && column == rec.x then
                if IsFailPrr(rec.flag) then Some(Fail)
                else if StateAt(chips, row, column).Some? then StateAt(chips, row, column)
                else Some(Pass)
              else StateAt(chips, row, column)
  {
    var c := ChipOf(rec);
    var r := AfterSend(chips, rec);
    match Find(chips, c.row, c.column)
    case None =>
      assert r == chips + [c];
      forall row, column ensures StateAt(r, row, column) ==
          if row == rec.y && column == rec.x then Some(c.state) else StateAt(chips, row, column)
      {
        if row == rec.y && column == rec.x {
          FindAt(r, |chips|);
        } else if Find(chips, row, column).Some? {
          var j := Find(chips, row, column).value;
          assert r[j] == chips[j];
          FindAt(r, j);
        }
      }
    case Some(i) =>
      if c.state == Fail {
        assert r == chips[..i] + chips[i + 1..] + [c];
        ReplaceChipDistinct(chips, i, c);
        forall row, column ensures StateAt(r, row, column) ==
            if row == rec.y && column == rec.x then Some(Fail) else StateAt(chips, row, column)
        {
          ReplaceChipState(chips, i, c, row, column);
        }
      }
  }

  /** Removing the chip at position `i` and adding `c` at the same place
      keeps one chip per place. */
  lemma ReplaceChipDistinct(chips: seq<Chip>, i: nat, c: Chip)
    requires DistinctPlaces(chips) && i < |chips|
    requires chips[i].row == c.row && chips[i].column == c.column
    ensures DistinctPlaces(chips[..i] + chips[i + 1..] + [c])
  {
    var rest := chips[..i] + chips[i + 1..];
    var r := rest + [c];
    assert forall k :: 0 <= k < |rest| ==> rest[k] == chips[if k < i then k else k + 1];
    forall a, b | 0 <= a < b < |r|
      ensures r[a].row != r[b].row || r[a].column != r[b].column
    {
      if b == |rest| {
        assert r[a] == chips[if a < i then a else a + 1];
      }
    }
  }

  /** ... and changes only the state at that place. */
  lemma ReplaceChipState(chips: seq<Chip>, i: nat, c: Chip, row: int, column: int)
    requires DistinctPlaces(chips) && i < |chips|
    requires chips[i].row == c.row && chips[i].column == c.column
    ensures StateAt(chips[..i] + chips[i + 1..] + [c], row, column) ==
              if row == c.row && column == c.column then Some(c.state) else StateAt(chips, row, column)
  {
    var rest := chips[..i] + chips[i + 1..];
    var r := rest + [c];
    ReplaceChipDistinct(chips, i, c);
    if row == c.row && column == c.column {
      FindAt(r, |rest|);
    } else if Find(chips, row, column).Some? {
      var j := Find(chips, row, column).value;
      var j' := if j < i then j else j - 1;
      assert r[j'] == chips[j];
      FindAt(r, j');
    } else {
      assert forall k :: 0 <= k < |rest| ==> rest[k] == chips[if k < i then k else k + 1];
      assert Find(r, row, column).None?;
    }
  }

  /** The chip set after a stream of records, one `after_send` per record in
      arrival order, starting from the empty set of `after_begin`. */
  function Reduce(rs: seq<Record>): seq<Chip>
    decreases |rs|
  {
    if |rs| == 0 then [] else AfterSend(Reduce(rs[..|rs| - 1]), rs[|rs| - 1])
  }

  /** Some record of the stream is at (row, column). */
  predicate Recorded(rs: seq<Record>, row: int, column: int) {
    exists k :: 0 <= k < |rs| && rs[k].y == row && rs[k].x == column
  }

  /** Some record of the stream at (row, column) failed. */
  predicate FailRecorded(rs: seq<Record>, row: int, column: int) {
    exists k :: 0 <= k < |rs| && rs[k].y == row && rs[k].x == column && IsFailPrr(rs[k].flag)
  }

  /** What the stream says about a place, independently of record order: a
      place with any failed record fails, one with only passed records
      passes, one without records holds no chip. */
  function Outcome(rs: seq<Record>, row: int, column: int): Option<State> {
    if FailRecorded(rs, row, column) then Some(Fail)
    else if Recorded(rs, row, column) then Some(Pass)
    else None
  }

  /** The reduced set has one chip per recorded place, and its state is the
      place's outcome: a failure is never overwritten by a later pass. */
  lemma {:induction false} ReduceSpec(rs: seq<Record>)
    ensures DistinctPlaces(Reduce(rs))
    ensures forall row, column :: StateAt(Reduce(rs), row, column) == Outcome(rs, row, column)
    decreases |rs|
  {
    if |rs| > 0 {
      var front := rs[..|rs| - 1];
      var last := rs[|rs| - 1];
      ReduceSpec(front);
      AfterSendSpec(Reduce(front), last);
      forall row, column ensures StateAt(Reduce(rs), row, column) == Outcome(rs, row, column) {
        assert forall k :: 0 <= k < |front| ==> front[k] == rs[k];
        assert Recorded(rs, row, column) <==>
                 Recorded(front, row, column) || (last.y == row && last.x == column);
        assert FailRecorded(rs, row, column) <==>
                 FailRecorded(front, row, column)
                 || (last.y == row && last.x == column && IsFailPrr(last.flag));
      }
    }
  }

  /** The chip set depends only on which records arrived, not on their order
      or how often each was repeated. */
  lemma ReduceOrderFree(a: seq<Record>, b: seq<Record>)
    requires forall rec :: rec in a <==> rec in b
    ensures forall row, column :: StateAt(Reduce(a), row, column) == StateAt(Reduce(b), row, column)
  {
    ReduceSpec(a);
    ReduceSpec(b);
    forall row, column ensures Outcome(a, row, column) == Outcome(b, row, column) {
      if Recorded(a, row, column) {
        var k :| 0 <= k < |a| && a[k].y == row && a[k].x == column;
        assert a[k] in b;
      }
      if Recorded(b, row, column) {
        var k :| 0 <= k < |b| && b[k].y == row && b[k].x == column;
        assert b[k] in a;
      }
      if FailRecorded(a, row, column) {
        var k :| 0 <= k < |a| && a[k].y == row && a[k].x == column && IsFailPrr(a[k].flag);
        assert a[k] in b;
      }
      if FailRecorded(b, row, column) {
        var k :| 0 <= k < |b| && b[k].y == row && b[k].x == column && IsFailPrr(b[k].flag);
        assert b[k] in a;
      }
    }
  }

  /** A die reported failing and then retested as passing stays failed. */
  lemma FailThenPassStaysFailed(x: int, y: int)
    ensures StateAt(Reduce([Record(x, y, 8), Record(x, y, 0)]), y, x) == Some(Fail)
  {
    var rs := [Record(x, y, 8), Record(x, y, 0)];
    ReduceSpec(rs);
    assert rs[0].y == y && rs[0].x == x && IsFailPrr(rs[0].flag);
  }

  // ----- Rows -----

  /** The chips of row `k`, in the order of the set. */
  function RowChips(chips: seq<Chip>, k: int): (row: seq<Chip>)
    ensures |row| <= |chips|
    decreases |chips|
  {
    if |chips| == 0 then []
    else (if chips[0].row == k then [chips[0]] else []) + RowChips(chips[1..], k)
  }

  /** Row `k` holds exactly the chips of the set whose row is `k`. */
  lemma {:induction false} RowChipsMembers(chips: seq<Chip>, k: int)
    ensures forall c :: c in RowChips(chips, k) <==> c in chips && c.row == k
    ensures multiset(RowChips(chips, k)) <= multiset(chips)
    decreases |chips|
  {
    if |chips| > 0 {
      RowChipsMembers(chips[1..], k);
      assert chips == [chips[0]] + chips[1..];
    }
  }

  /** The largest row index of a non-empty set. */
  function MaxRow(chips: seq<Chip>): (m: int)
    requires |chips| > 0
    ensures forall i :: 0 <= i < |chips| ==> chips[i].row <= m
    ensures exists i :: 0 <= i < |chips| && chips[i].row == m
    decreases |chips|
  {
    if |chips| == 1 then chips[0].row
    else
      var m := MaxRow(chips[1..]);
      assert forall i :: 1 <= i < |chips| ==> chips[i] == chips[1..][i - 1];
      if chips[0].row > m then chips[0].row else m
  }

  /** The rows `k` up to `n - 1`, failing at the first one without chips. */
  function RowsFrom(chips: seq<Chip>, k: nat, n: int): (r: Result<seq<seq<Chip>>, StdfError>)
    ensures r.Err? ==> r.error.MissingRow? && k <= r.error.row < n
    decreases n - k
  {
    if k >= n then Ok([])
    else
      var row := RowChips(chips, k);
      if |row| == 0 then Err(MissingRow(k))
      else
        var rest :- RowsFrom(chips, k + 1, n);
        Ok([row] + rest)
  }

  /** No row of the partition is empty. */
  lemma {:induction false} RowsFromNotEmpty(chips: seq<Chip>, k: nat, n: int)
    requires RowsFrom(chips, k, n).Ok?
    ensures forall j :: 0 <= j < |RowsFrom(chips, k, n).value| ==> |RowsFrom(chips, k, n).value[j]| > 0
    decreases n - k
  {
    if k < n {
      RowsFromNotEmpty(chips, k + 1, n);
      var rest := RowsFrom(chips, k + 1, n).value;
      assert RowsFrom(chips, k, n).value == [RowChips(chips, k)] + rest;
    }
  }

  /** `partition_into_rows`: one list of chips per row index from 0 up to the
      largest, each in the order of the set. */
  function PartitionIntoRows(chips: seq<Chip>): (r: Result<seq<seq<Chip>>, StdfError>)
  {
    if |chips| == 0 then Err(NoRecords) else RowsFrom(chips, 0, MaxRow(chips) + 1)
  }

  lemma {:induction false} RowsFromSpec(chips: seq<Chip>, k: nat, n: int)
    ensures (forall j :: k <= j < n ==> |RowChips(chips, j)| > 0) ==> RowsFrom(chips, k, n).Ok?
    ensures RowsFrom(chips, k, n).Ok? ==>
              && (forall j :: k <= j < n ==> |RowChips(chips, j)| > 0)
              && |RowsFrom(chips, k, n).value| == (if n > k then n - k else 0)
              && forall j :: 0 <= j < |RowsFrom(chips, k, n).value| ==>
                   RowsFrom(chips, k, n).value[j] == RowChips(chips, k + j)
    ensures RowsFrom(chips, k, n).Err? ==>
              && |RowChips(chips, RowsFrom(chips, k, n).error.row)| == 0
              && forall j :: k <= j < RowsFrom(chips, k, n).error.row ==> |RowChips(chips, j)| > 0
    decreases n - k
  {
    if k >= n {
    } else if |RowChips(chips, k)| == 0 {
      assert RowsFrom(chips, k, n) == Err(MissingRow(k));
    } else {
      RowsFromSpec(chips, k + 1, n);
      var r := RowsFrom(chips, k, n);
      assert r.Ok? == RowsFrom(chips, k + 1, n).Ok?;
      if r.Ok? {
        var rest := RowsFrom(chips, k + 1, n).value;
        assert r.value == [RowChips(chips, k)] + rest;
        forall j | 0 <= j < |r.value| ensures r.value[j] == RowChips(chips, k + j) {
          if j > 0 {
            assert r.value[j] == rest[j - 1];
          }
        }
      }
    }
  }

  /** The partition succeeds exactly when every row from 0 to the largest has
      a chip; row `k` then holds the chips of row `k`. Otherwise the error
      names the first row without chips. */
  lemma PartitionSpec(chips: seq<Chip>)
    requires |chips| > 0
    ensures PartitionIntoRows(chips).Ok? <==>
              forall k :: 0 <= k <= MaxRow(chips) ==> |RowChips(chips, k)| > 0
    ensures PartitionIntoRows(chips).Ok? ==>
              && |PartitionIntoRows(chips).value| == (if MaxRow(chips) >= 0 then MaxRow(chips) + 1 else 0)
              && forall k :: 0 <= k < |PartitionIntoRows(chips).value| ==>
                   PartitionIntoRows(chips).value[k] == RowChips(chips, k)
    ensures PartitionIntoRows(chips).Err? ==>
              && PartitionIntoRows(chips).error.MissingRow?
              && 0 <= PartitionIntoRows(chips).error.row <= MaxRow(chips)
              && |RowChips(chips, PartitionIntoRows(chips).error.row)| == 0
              && forall k :: 0 <= k < PartitionIntoRows(chips).error.row ==> |RowChips(chips, k)| > 0
  {
    RowsFromSpec(chips, 0, MaxRow(chips) + 1);
  }

  // ----- Sorting a row -----

  /** `c` inserted before the first chip of `row` with a column not smaller. */
  function Insert(c: Chip, row: seq<Chip>): (r: seq<Chip>)
    ensures multiset(r) == multiset(row) + multiset{c}
    decreases |row|
  {
    if |row| == 0 || c.column <= row[0].column then [c] + row
    else
      assert row == [row[0]] + row[1..];
      [row[0]] + Insert(c, row[1..])
  }

  /** `chips_row.sort(key=lambda chip: chip.column)`, as an insertion sort;
      Python's sort is stable, and so is this one. */
  function SortRow(row: seq<Chip>): (r: seq<Chip>)
    ensures multiset(r) == multiset(row)
    decreases |row|
  {
    if |row| == 0 then []
    else
      assert row == [row[0]] + row[1..];
      Insert(row[0], SortRow(row[1..]))
  }

  predicate ColumnsAscending(row: seq<Chip>) {
    forall a, b :: 0 <= a < b < |row| ==> row[a].column <= row[b].column
  }

  lemma {:induction false} InsertAscending(c: Chip, row: seq<Chip>)
    requires ColumnsAscending(row)
    ensures ColumnsAscending(Insert(c, row))
    decreases |row|
  {
    if |row| > 0 && c.column > row[0].column {
      InsertAscending(c, row[1..]);
      var r := Insert(c, row[1..]);
      forall x | x in r ensures row[0].column <= x.column {
        assert x in multiset(r);
        if x != c {
          assert x in multiset(row[1..]);
        }
      }
      assert forall b :: 0 < b < |[row[0]] + r| ==> ([row[0]] + r)[b] == r[b - 1];
    }
  }

  /** A sorted row is ascending by column and holds the same chips. */
  lemma {:induction false} SortRowSpec(row: seq<Chip>)
    ensures ColumnsAscending(SortRow(row))
    ensures multiset(SortRow(row)) == multiset(row)
    decreases |row|
  {
    if |row| > 0 {
      SortRowSpec(row[1..]);
      InsertAscending(row[0], SortRow(row[1..]));
    }
  }

  /** Columns of a row strictly ascend. */
  predicate StrictlyAscending(row: seq<Chip>) {
    forall a, b :: 0 <= a < b < |row| ==> row[a].column < row[b].column
  }

  /** With distinct columns there is only one ascending arrangement of a set
      of chips, so the sorted row does not depend on the order of the set. */
  lemma {:induction false} AscendingUnique(a: seq<Chip>, b: seq<Chip>)
    requires StrictlyAscending(a) && StrictlyAscending(b)
    requires forall x :: x in a <==> x in b
    ensures a == b
    decreases |a|
  {
    if |a| == 0 {
      NoMembersEmpty(b);
    } else {
      assert a[0] in a;
      assert |b| > 0;
      assert b[0] in b;
      AscendingHeads(a, b);
      forall x ensures x in a[1..] <==> x in b[1..] {
        AfterHead(a, x);
        AfterHead(b, x);
      }
      AscendingUnique(a[1..], b[1..]);
      assert a == [a[0]] + a[1..] && b == [b[0]] + b[1..];
    }
  }

  lemma NoMembersEmpty(s: seq<Chip>)
    ensures (forall x :: x !in s) ==> s == []
  {
    if |s| > 0 {
      assert s[0] in s;
    }
  }

  /** Two strictly ascending rows holding the same chips start alike. */
  lemma AscendingHeads(a: seq<Chip>, b: seq<Chip>)
    requires StrictlyAscending(a) && StrictlyAscending(b) && |a| > 0 && |b| > 0
    requires a[0] in b && b[0] in a
    ensures a[0] == b[0]
  {
    var i :| 0 <= i < |b| && b[i] == a[0];
    var j :| 0 <= j < |a| && a[j] == b[0];
    assert a[0].column <= a[j].column;
    assert b[0].column <= b[i].column;
    assert i == 0;
  }

  /** The rest of a strictly ascending row holds all its chips but the first. */
  lemma AfterHead(a: seq<Chip>, x: Chip)
    requires StrictlyAscending(a) && |a| > 0
    ensures x in a[1..] <==> x in a && x != a[0]
  {
    if x in a[1..] {
      var k :| 0 <= k < |a[1..]| && a[1..][k] == x;
      assert a[k + 1] == x;
      assert a[0].column < a[k + 1].column;
    }
    if x in a && x != a[0] {
      var k :| 0 <= k < |a| && a[k] == x;
      assert a[1..][k - 1] == x;
    }
  }

  /** `sort_each_chips_row`. */
  function SortEachRow(rows: seq<seq<Chip>>): (r: seq<seq<Chip>>)
    ensures |r| == |rows|
  {
    seq(|rows|, i requires 0 <= i < |rows| => SortRow(rows[i]))
  }

  // ----- Padding -----

  /** The length of `range(n)`: zero for a negative bound. */
  function Pad(n: int): nat {
    if n > 0 then n else 0
  }

  /** `fill_row_edges`: missing dies for the columns before the row's first
      chip and for those after its last chip up to `final`, both numbered by
      column. `chips_row[0]` raises on an empty row; the partition never
      makes one. */
  function FillRowEdges(row: seq<Chip>, final: int): (r: seq<Chip>)
    requires |row| > 0
    ensures |r| == Pad(row[0].column) + |row| + Pad(final - row[|row| - 1].column - 1)
    ensures forall c :: 0 <= c < Pad(row[0].column) ==> r[c] == Chip(row[0].row, c, NotPresent)
    ensures r[Pad(row[0].column)..Pad(row[0].column) + |row|] == row
    ensures forall c :: Pad(row[0].column) + |row| <= c < |r| ==>
              r[c] == Chip(row[0].row, row[|row| - 1].column + 1 + (c - Pad(row[0].column) - |row|), NotPresent)
  {
    var first := row[0].column;
    var last := row[|row| - 1].column;
    var n := row[0].row;
    seq(Pad(first), c requires 0 <= c < Pad(first) => Chip(n, c, NotPresent))
      + row
      + seq(Pad(final - last - 1), i requires 0 <= i < Pad(final - last - 1) => Chip(n, last + 1 + i, NotPresent))
  }

  /** A row without gaps, starting at a column `>= 0`, comes out of the
      padding with every chip at the position of its column, and as long as
      its last column or `final`, whichever is larger. A row with a gap does
      not: its later chips shift left. */
  lemma FillRowPositions(row: seq<Chip>, final: int)
    requires |row| > 0 && row[0].column >= 0
    requires forall k :: 0 <= k < |row| ==> row[k].column == row[0].column + k
    ensures |FillRowEdges(row, final)| ==
              if final > row[0].column + |row| then final else row[0].column + |row|
    ensures forall j :: 0 <= j < |FillRowEdges(row, final)| ==> FillRowEdges(row, final)[j].column == j
    ensures forall k :: 0 <= k < |row| ==> FillRowEdges(row, final)[row[0].column + k] == row[k]
  {
    var r := FillRowEdges(row, final);
    var first := row[0].column;
    forall j | 0 <= j < |r| ensures r[j].column == j {
      if first <= j < first + |row| {
        assert r[j] == row[j - first];
      }
    }
  }

  /** The length of the longest row. */
  function MaxLength(rows: seq<seq<Chip>>): (m: nat)
    requires |rows| > 0
    ensures forall i :: 0 <= i < |rows| ==> |rows[i]| <= m
    ensures exists i :: 0 <= i < |rows| && |rows[i]| == m
    decreases |rows|
  {
    if |rows| == 1 then |rows[0]|
    else
      var m := MaxLength(rows[1..]);
      assert forall i :: 1 <= i < |rows| ==> rows[i] == rows[1..][i - 1];
      if |rows[0]| > m then |rows[0]| else m
  }

  /** `make_square_from_table`: every row padded up to the number of chips in
      the longest row. */
  function MakeSquare(rows: seq<seq<Chip>>): (r: Result<seq<seq<Chip>>, StdfError>)
    requires forall i :: 0 <= i < |rows| ==> |rows[i]| > 0
    ensures r.Ok? <==> |rows| > 0
    ensures r.Err? ==> r.error == NoRows
    ensures r.Ok? ==> |r.value| == |rows|
    ensures r.Ok? ==> forall i :: 0 <= i < |rows| ==> r.value[i] == FillRowEdges(rows[i], MaxLength(rows))
  {
    if |rows| == 0 then Err(NoRows)
    else
      var final := MaxLength(rows);
      Ok(seq(|rows|, i requires 0 <= i < |rows| => FillRowEdges(rows[i], final)))
  }

  /** The dies' states, as `ChipsGrid.make_chips_grid_from_grid` keeps them. */
  function States(rows: seq<seq<Chip>>): (g: Grid)
    ensures |g| == |rows|
    ensures forall i :: 0 <= i < |rows| ==> |g[i]| == |rows[i]|
  {
    seq(|rows|, i requires 0 <= i < |rows| =>
      seq(|rows[i]|, j requires 0 <= j < |rows[i]| => rows[i][j].state))
  }

  lemma SortedRowsNotEmpty(chips: seq<Chip>)
    requires PartitionIntoRows(chips).Ok?
    ensures forall i :: 0 <= i < |SortEachRow(PartitionIntoRows(chips).value)| ==>
              |SortEachRow(PartitionIntoRows(chips).value)[i]| > 0
  {
    var rows := PartitionIntoRows(chips).value;
    RowsFromNotEmpty(chips, 0, MaxRow(chips) + 1);
    forall i | 0 <= i < |rows| ensures |SortRow(rows[i])| > 0 {
      assert |multiset(SortRow(rows[i]))| == |multiset(rows[i])|;
    }
  }

  /** `after_complete` as written: reduce, partition, sort, pad. There is one
      row per row index, each at least as long as its number of dies. */
  function StdfGridAsWritten(rs: seq<Record>): (r: Result<Grid, StdfError>)
    ensures r.Ok? ==> PartitionIntoRows(Reduce(rs)).Ok?
    ensures r.Ok? ==> |r.value| == |PartitionIntoRows(Reduce(rs)).value| > 0
    ensures r.Ok? ==> forall i :: 0 <= i < |r.value| ==>
              |r.value[i]| >= |PartitionIntoRows(Reduce(rs)).value[i]|
  {
    var rows :- PartitionIntoRows(Reduce(rs));
    SortedRowsNotEmpty(Reduce(rs));
    var square :- MakeSquare(SortEachRow(rows));
    assert forall i :: 0 <= i < |rows| ==> |SortEachRow(rows)[i]| == |rows[i]| by {
      forall i | 0 <= i < |rows| ensures |SortEachRow(rows)[i]| == |rows[i]| {
        assert |multiset(SortRow(rows[i]))| == |multiset(rows[i])|;
      }
    }
    Ok(States(square))
  }

  // ----- The set's order does not show -----

  /** In a set no chip occurs twice. */
  lemma {:induction false} DistinctOnce(chips: seq<Chip>)
    requires DistinctPlaces(chips)
    ensures forall x :: multiset(chips)[x] <= 1
    decreases |chips|
  {
    if |chips| > 0 {
      var rest := chips[1..];
      forall i, j | 0 <= i < j < |rest|
        ensures rest[i].row != rest[j].row || rest[i].column != rest[j].column
      {
        assert rest[i] == chips[i + 1] && rest[j] == chips[j + 1];
      }
      DistinctOnce(rest);
      assert chips == [chips[0]] + rest;
      assert multiset(chips) == multiset{chips[0]} + multiset(rest);
    }
  }

  /** In a set, two chips at the same place are the same chip. */
  lemma SamePlaceSame(chips: seq<Chip>, x: Chip, y: Chip)
    requires DistinctPlaces(chips) && x in chips && y in chips
    requires x.row == y.row && x.column == y.column
    ensures x == y
  {
    var i :| 0 <= i < |chips| && chips[i] == x;
    var j :| 0 <= j < |chips| && chips[j] == y;
    assert i == j;
  }

  /** A value at two positions of a sequence occurs twice in it. */
  lemma TwiceIn(s: seq<Chip>, a: int, b: int)
    requires 0 <= a < b < |s| && s[a] == s[b]
    ensures multiset(s)[s[a]] >= 2
  {
    assert s == s[..b] + s[b..];
    assert s[a] in s[..b];
    assert s[b] == s[b..][0];
    assert multiset(s) == multiset(s[..b]) + multiset(s[b..]);
  }

  /** A sorted row of a set has strictly ascending columns: its chips share
      the row, so equal columns would mean the same place twice. */
  lemma SortedRowStrict(chips: seq<Chip>, k: int)
    requires DistinctPlaces(chips)
    ensures StrictlyAscending(SortRow(RowChips(chips, k)))
  {
    var r := RowChips(chips, k);
    var s := SortRow(r);
    SortRowSpec(r);
    RowChipsMembers(chips, k);
    DistinctOnce(chips);
    forall a, b | 0 <= a < b < |s| ensures s[a].column < s[b].column {
      if s[a].column == s[b].column {
        assert s[a] in multiset(r) && s[b] in multiset(r);
        SamePlaceSame(chips, s[a], s[b]);
        TwiceIn(s, a, b);
        assert false;
      }
    }
  }

  /** A set's members are the chips whose place holds their state. */
  lemma MembersByState(chips: seq<Chip>)
    requires DistinctPlaces(chips)
    ensures forall x :: x in chips <==> StateAt(chips, x.row, x.column) == Some(x.state)
  {
    forall x ensures x in chips <==> StateAt(chips, x.row, x.column) == Some(x.state) {
      if x in chips {
        var i :| 0 <= i < |chips| && chips[i] == x;
        FindAt(chips, i);
      }
      if StateAt(chips, x.row, x.column) == Some(x.state) {
        var i := Find(chips, x.row, x.column).value;
        assert chips[i] == x;
      }
    }
  }

  /** The same records, in any order and repeated any number of times, give
      a set with the same chips. */
  lemma ReduceSameMembers(a: seq<Record>, b: seq<Record>)
    requires forall rec :: rec in a <==> rec in b
    ensures forall x :: x in Reduce(a) <==> x in Reduce(b)
  {
    ReduceSpec(a);
    ReduceSpec(b);
    ReduceOrderFree(a, b);
    MembersByState(Reduce(a));
    MembersByState(Reduce(b));
  }

  /** Sequences with the same members have the same largest row. */
  lemma MaxRowSameMembers(s: seq<Chip>, t: seq<Chip>)
    requires |s| > 0 && |t| > 0
    requires forall x :: x in s <==> x in t
    ensures MaxRow(s) == MaxRow(t)
  {
    var i :| 0 <= i < |s| && s[i].row == MaxRow(s);
    var j :| 0 <= j < |t| && t[j].row == MaxRow(t);
    assert s[i] in t;
    var i' :| 0 <= i' < |t| && t[i'] == s[i];
    assert t[j] in s;
    var j' :| 0 <= j' < |s| && s[j'] == t[j];
  }

  /** Sequences with the same members have the same rows populated. */
  lemma RowFilledSame(s: seq<Chip>, t: seq<Chip>, k: int)
    requires forall x :: x in s <==> x in t
    ensures |RowChips(s, k)| > 0 <==> |RowChips(t, k)| > 0
  {
    RowChipsMembers(s, k);
    RowChipsMembers(t, k);
    if |RowChips(s, k)| > 0 {
      assert RowChips(s, k)[0] in RowChips(t, k);
    }
    if |RowChips(t, k)| > 0 {
      assert RowChips(t, k)[0] in RowChips(s, k);
    }
  }

  /** A sorted row holds the chips of the row. */
  lemma SortRowMembers(r: seq<Chip>)
    ensures forall x :: x in SortRow(r) <==> x in r
  {
    forall x ensures x in SortRow(r) <==> x in r {
      assert x in SortRow(r) <==> x in multiset(SortRow(r));
    }
  }

  /** Sequences with the same members have rows with the same members. */
  lemma RowSameMembers(s: seq<Chip>, t: seq<Chip>, k: int)
    requires forall x :: x in s <==> x in t
    ensures forall x :: x in RowChips(s, k) <==> x in RowChips(t, k)
  {
    RowChipsMembers(s, k);
    RowChipsMembers(t, k);
  }

  /** Sets with the same chips give the same sorted row. */
  lemma SortedRowSame(s: seq<Chip>, t: seq<Chip>, k: int)
    requires DistinctPlaces(s) && DistinctPlaces(t)
    requires forall x :: x in s <==> x in t
    ensures SortRow(RowChips(s, k)) == SortRow(RowChips(t, k))
  {
    SortedRowStrict(s, k);
    SortedRowStrict(t, k);
    RowSameMembers(s, t, k);
    SortRowMembers(RowChips(s, k));
    SortRowMembers(RowChips(t, k));
    AscendingUnique(SortRow(RowChips(s, k)), SortRow(RowChips(t, k)));
  }

  /** Sequences with the same members populate the same rows. */
  lemma AllRowsFilledSame(s: seq<Chip>, t: seq<Chip>)
    requires forall x :: x in s <==> x in t
    ensures forall k :: |RowChips(s, k)| > 0 <==> |RowChips(t, k)| > 0
  {
    forall k ensures |RowChips(s, k)| > 0 <==> |RowChips(t, k)| > 0 {
      RowFilledSame(s, t, k);
    }
  }

  /** Non-empty sets with the same chips fail to partition alike. */
  lemma PartitionErrSame(s: seq<Chip>, t: seq<Chip>)
    requires |s| > 0 && |t| > 0
    requires forall x :: x in s <==> x in t
    ensures PartitionIntoRows(s).Ok? <==> PartitionIntoRows(t).Ok?
    ensures PartitionIntoRows(s).Err? ==> PartitionIntoRows(s).error == PartitionIntoRows(t).error
  {
    PartitionOkSameIff(s, t);
    if PartitionIntoRows(s).Err? {
      PartitionErrorSame(s, t);
    }
  }

  lemma PartitionOkSameIff(s: seq<Chip>, t: seq<Chip>)
    requires |s| > 0 && |t| > 0
    requires forall x :: x in s <==> x in t
    ensures PartitionIntoRows(s).Ok? <==> PartitionIntoRows(t).Ok?
  {
    MaxRowSameMembers(s, t);
    var m := MaxRow(s);
    PartitionOkIff(s);
    PartitionOkIff(t);
    forall k | 0 <= k < m + 1 ensures |RowChips(s, k)| > 0 <==> |RowChips(t, k)| > 0 {
      RowFilledSame(s, t, k);
    }
    assert RowsFilled(s, 0, m + 1) <==> RowsFilled(t, 0, m + 1);
  }

  lemma PartitionErrorSame(s: seq<Chip>, t: seq<Chip>)
    requires |s| > 0 && |t| > 0
    requires forall x :: x in s <==> x in t
    requires PartitionIntoRows(s).Err? && PartitionIntoRows(t).Err?
    ensures PartitionIntoRows(s).error == PartitionIntoRows(t).error
  {
    AllRowsFilledSame(s, t);
    PartitionFirstMissing(s);
    PartitionFirstMissing(t);
    FirstMissingSame(s, t, PartitionIntoRows(s).error.row, PartitionIntoRows(t).error.row);
  }

  /** Every row from `k` up to `n - 1` holds a chip. */
  predicate RowsFilled(chips: seq<Chip>, k: int, n: int)
  {
    forall j :: k <= j < n ==> |RowChips(chips, j)| > 0
  }

  /** The partition succeeds exactly when every row up to the largest holds
      a chip. */
  lemma PartitionOkIff(chips: seq<Chip>)
    requires |chips| > 0
    ensures PartitionIntoRows(chips).Ok? <==> RowsFilled(chips, 0, MaxRow(chips) + 1)
  {
    PartitionOkFrom(chips, MaxRow(chips) + 1);
  }

  lemma PartitionOkFrom(chips: seq<Chip>, n: int)
    requires |chips| > 0 && n == MaxRow(chips) + 1
    ensures PartitionIntoRows(chips).Ok? <==> RowsFilled(chips, 0, n)
  {
    assert PartitionIntoRows(chips) == RowsFrom(chips, 0, n);
    RowsFromOkIff(chips, 0, n);
  }

  /** The rows from `k` succeed exactly when each of them holds a chip. */
  lemma {:induction false} RowsFromOkIff(chips: seq<Chip>, k: nat, n: int)
    ensures RowsFrom(chips, k, n).Ok? <==> RowsFilled(chips, k, n)
    decreases n - k
  {
    if k < n && |RowChips(chips, k)| > 0 {
      RowsFromOkIff(chips, k + 1, n);
      assert RowsFrom(chips, k, n).Ok? == RowsFrom(chips, k + 1, n).Ok?;
      assert RowsFilled(chips, k, n) <==> RowsFilled(chips, k + 1, n);
    } else if k < n {
      assert RowsFrom(chips, k, n) == Err(MissingRow(k));
      assert !RowsFilled(chips, k, n) by {
        assert k <= k < n && |RowChips(chips, k)| == 0;
      }
    } else {
      assert RowsFrom(chips, k, n) == Ok([]);
    }
  }

  lemma PartitionFirstMissing(chips: seq<Chip>)
    requires |chips| > 0 && PartitionIntoRows(chips).Err?
    ensures PartitionIntoRows(chips).error.MissingRow?
    ensures 0 <= PartitionIntoRows(chips).error.row
    ensures |RowChips(chips, PartitionIntoRows(chips).error.row)| == 0
    ensures forall k :: 0 <= k < PartitionIntoRows(chips).error.row ==> |RowChips(chips, k)| > 0
  {
    PartitionSpec(chips);
  }

  /** The first row without chips is the same for sequences populating the
      same rows. */
  lemma FirstMissingSame(s: seq<Chip>, t: seq<Chip>, es: int, et: int)
    requires forall k :: |RowChips(s, k)| > 0 <==> |RowChips(t, k)| > 0
    requires 0 <= es && |RowChips(s, es)| == 0 && forall k :: 0 <= k < es ==> |RowChips(s, k)| > 0
    requires 0 <= et && |RowChips(t, et)| == 0 && forall k :: 0 <= k < et ==> |RowChips(t, k)| > 0
    ensures es == et
  {
  }

  /** Non-empty sets with the same chips partition into rows that sort to
      the same table. */
  lemma PartitionOkSame(s: seq<Chip>, t: seq<Chip>)
    requires |s| > 0 && |t| > 0
    requires DistinctPlaces(s) && DistinctPlaces(t)
    requires forall x :: x in s <==> x in t
    requires PartitionIntoRows(s).Ok? && PartitionIntoRows(t).Ok?
    ensures SortEachRow(PartitionIntoRows(s).value) == SortEachRow(PartitionIntoRows(t).value)
  {
    MaxRowSameMembers(s, t);
    PartitionSpec(s);
    PartitionSpec(t);
    var a, b := SortEachRow(PartitionIntoRows(s).value), SortEachRow(PartitionIntoRows(t).value);
    forall k | 0 <= k < |a| ensures a[k] == b[k] {
      SortedRowSame(s, t, k);
    }
  }

  /** Sets with the same chips partition alike: the same error, or rows that
      sort to the same table. */
  lemma PartitionSameMembers(s: seq<Chip>, t: seq<Chip>)
    requires DistinctPlaces(s) && DistinctPlaces(t)
    requires forall x :: x in s <==> x in t
    ensures PartitionIntoRows(s).Ok? <==> PartitionIntoRows(t).Ok?
    ensures PartitionIntoRows(s).Err? ==> PartitionIntoRows(s).error == PartitionIntoRows(t).error
    ensures PartitionIntoRows(s).Ok? ==>
              SortEachRow(PartitionIntoRows(s).value) == SortEachRow(PartitionIntoRows(t).value)
  {
    if |s| == 0 {
      NoMembersEmpty(t);
    } else {
      assert s[0] in t;
      PartitionErrSame(s, t);
      if PartitionIntoRows(s).Ok? {
        PartitionOkSame(s, t);
      }
    }
  }

  /** The padded grid as written depends only on which records arrived, not
      on their order or repetition: the order in which the set hands out its
      chips never shows. */
  lemma StdfGridAsWrittenOrderFree(a: seq<Record>, b: seq<Record>)
    requires forall rec :: rec in a <==> rec in b
    ensures StdfGridAsWritten(a) == StdfGridAsWritten(b)
  {
    ReduceSpec(a);
    ReduceSpec(b);
    ReduceSameMembers(a, b);
    PartitionSameMembers(Reduce(a), Reduce(b));
  }

  // ----- The grid with every die at its own place -----

  /** The largest column of a non-empty set. */
  function MaxColumn(chips: seq<Chip>): (m: int)
    requires |chips| > 0
    ensures forall i :: 0 <= i < |chips| ==> chips[i].column <= m
    decreases |chips|
  {
    if |chips| == 1 then chips[0].column
    else
      var m := MaxColumn(chips[1..]);
      assert forall i :: 1 <= i < |chips| ==> chips[i] == chips[1..][i - 1];
      if chips[0].column > m then chips[0].column else m
  }

  /** The die the set holds at a place, or a missing die. */
  function DieAt(chips: seq<Chip>, row: int, column: int): State {
    match StateAt(chips, row, column)
    case Some(s) => s
    case None => NotPresent
  }

  /** The corrected `after_complete`: the same checks on rows, but every row
      as wide as the largest column allows, each die at the position of its
      own column and missing dies everywhere else. */
  function StdfGrid(rs: seq<Record>): (r: Result<Grid, StdfError>)
  {
    var chips := Reduce(rs);
    var rows :- PartitionIntoRows(chips);
    if |rows| == 0 then Err(NoRows)
    else
      var width := Pad(MaxColumn(chips) + 1);
      Ok(seq(|rows|, i requires 0 <= i < |rows| =>
           seq(width, j requires 0 <= j < width => DieAt(chips, i, j))))
  }

  /** The corrected grid's shape and cells, read off its definition. */
  lemma StdfGridShape(rs: seq<Record>)
    requires StdfGrid(rs).Ok?
    ensures PartitionIntoRows(Reduce(rs)).Ok? && |Reduce(rs)| > 0
    ensures |StdfGrid(rs).value| == |PartitionIntoRows(Reduce(rs)).value| > 0
    ensures forall i :: 0 <= i < |StdfGrid(rs).value| ==>
              |StdfGrid(rs).value[i]| == Pad(MaxColumn(Reduce(rs)) + 1)
    ensures forall i, j :: 0 <= i < |StdfGrid(rs).value| && 0 <= j < |StdfGrid(rs).value[i]| ==>
              StdfGrid(rs).value[i][j] == DieAt(Reduce(rs), i, j)
  {
  }

  /** The corrected grid is rectangular, holds every record with coordinates
      `>= 0`, and each place shows that place's outcome: failed if any record
      there failed, passed if records exist and none failed, missing
      otherwise. */
  lemma StdfGridSpec(rs: seq<Record>)
    requires StdfGrid(rs).Ok?
    ensures Rectangular(StdfGrid(rs).value)
    ensures forall k :: 0 <= k < |rs| && rs[k].x >= 0 && rs[k].y >= 0 ==>
              rs[k].y < |StdfGrid(rs).value| && rs[k].x < Width(StdfGrid(rs).value)
    ensures forall r, c :: 0 <= r < |StdfGrid(rs).value| && 0 <= c < |StdfGrid(rs).value[r]| ==>
              StdfGrid(rs).value[r][c] ==
                match Outcome(rs, r, c) case Some(s) => s case None => NotPresent
  {
    var chips := Reduce(rs);
    var g := StdfGrid(rs).value;
    StdfGridShape(rs);
    ReduceSpec(rs);
    PartitionSpec(chips);
    forall k | 0 <= k < |rs| && rs[k].x >= 0 && rs[k].y >= 0
      ensures rs[k].y < |g| && rs[k].x < Width(g)
    {
      assert Recorded(rs, rs[k].y, rs[k].x);
      assert StateAt(chips, rs[k].y, rs[k].x).Some?;
      var i := Find(chips, rs[k].y, rs[k].x).value;
      assert chips[i].row <= MaxRow(chips);
    }
  }

  /** The corrected grid fails exactly when and how the written one does. */
  lemma StdfGridErrors(rs: seq<Record>)
    ensures StdfGrid(rs).Err? <==> StdfGridAsWritten(rs).Err?
    ensures StdfGrid(rs).Err? ==> StdfGrid(rs).error == StdfGridAsWritten(rs).error
  {
  }

  // ----- The padding's shortfall -----

  /** Two dies on a diagonal: (row 0, column 1) and (row 1, column 0). */
  function Diagonal(): seq<Record> {
    [Record(1, 0, 0), Record(0, 1, 0)]
  }

  lemma DiagonalChips()
    ensures Reduce(Diagonal()) == [Chip(0, 1, Pass), Chip(1, 0, Pass)]
  {
    var rs := Diagonal();
    assert rs[..1] == [rs[0]];
    assert [rs[0]][..0] == [];
    assert Reduce([rs[0]]) == [Chip(0, 1, Pass)];
  }

  lemma DiagonalRowChips()
    ensures MaxRow(Reduce(Diagonal())) == 1
    ensures RowChips(Reduce(Diagonal()), 0) == [Chip(0, 1, Pass)]
    ensures RowChips(Reduce(Diagonal()), 1) == [Chip(1, 0, Pass)]
  {
    DiagonalChips();
    var chips := Reduce(Diagonal());
    assert chips[1..][1..] == [];
    assert RowChips(chips[1..], 0) == [];
    assert RowChips(chips[1..], 1) == [Chip(1, 0, Pass)];
  }

  lemma DiagonalRows()
    ensures PartitionIntoRows(Reduce(Diagonal())) == Ok(DiagonalTable())
  {
    DiagonalRowChips();
    var chips := Reduce(Diagonal());
    var c0, c1 := Chip(0, 1, Pass), Chip(1, 0, Pass);
    assert RowsFrom(chips, 2, 2) == Ok([]);
    assert [[c1]] + [] == [[c1]];
    assert RowsFrom(chips, 1, 2) == Ok([[c1]]);
    assert [[c0]] + [[c1]] == [[c0], [c1]];
    assert RowsFrom(chips, 0, 2) == Ok([[c0], [c1]]);
  }

  /** The diagonal's chips by row. */
  function DiagonalTable(): seq<seq<Chip>> {
    [[Chip(0, 1, Pass)], [Chip(1, 0, Pass)]]
  }

  lemma DiagonalSorted()
    ensures SortEachRow(DiagonalTable()) == DiagonalTable()
  {
    var rows := DiagonalTable();
    assert SortRow(rows[0]) == rows[0];
    assert SortRow(rows[1]) == rows[1];
  }

  lemma DiagonalSquare()
    ensures MakeSquare(DiagonalTable())
            == Ok([[Chip(0, 0, NotPresent), Chip(0, 1, Pass)], [Chip(1, 0, Pass)]])
  {
    var rows := DiagonalTable();
    assert MaxLength(rows) == 1;
    var a := FillRowEdges(rows[0], 1);
    assert seq(1, c requires 0 <= c < 1 => Chip(0, c, NotPresent)) == [Chip(0, 0, NotPresent)];
    assert a == [Chip(0, 0, NotPresent), Chip(0, 1, Pass)];
    var b := FillRowEdges(rows[1], 1);
    assert b == [Chip(1, 0, Pass)];
    var sq := MakeSquare(rows).value;
    assert |sq| == 2 && sq[0] == a && sq[1] == b;
    assert sq == [a, b];
  }

  lemma DiagonalStates()
    ensures States([[Chip(0, 0, NotPresent), Chip(0, 1, Pass)], [Chip(1, 0, Pass)]]) == ShortRowGrid()
  {
    var g := States([[Chip(0, 0, NotPresent), Chip(0, 1, Pass)], [Chip(1, 0, Pass)]]);
    assert g[0] == [NotPresent, Pass];
    assert g[1] == [Pass];
  }

  /** As written, each row is padded up to the largest NUMBER of chips in a
      row rather than to the largest column, so the diagonal gives rows of
      two dies and one die. */
  lemma DiagonalAsWritten()
    ensures StdfGridAsWritten(Diagonal()) == Ok(ShortRowGrid())
  {
    DiagonalRows();
    DiagonalSorted();
    DiagonalSquare();
    DiagonalStates();
  }

  /** The diagonal's grid as written: a row of two dies over a row of one. */
  function ShortRowGrid(): Grid {
    [[NotPresent, Pass], [Pass]]
  }

  /** The passing die of the long row has a neighbour place past the end of
      the short row. */
  lemma ShortRowUnreadable(table: Table)
    ensures Judge(ShortRowGrid(), table, 0, 1) == Err(IndexOutOfRange(0, 1))
  {
    var g := ShortRowGrid();
    NeighbourPlacesSpec(g, 0, 1);
    assert (1, 1) in NeighbourPlaces(g, 0, 1);
    assert !NeighboursReadable(g, 0, 1);
    ReadNeighboursCounts(g, 0, 1);
  }

  /** Classifying that ragged grid fails reading past the end of the short
      row, whatever the thresholds. */
  lemma DiagonalRagged(table: Table)
    ensures Classify(ShortRowGrid(), table) == Err(IndexOutOfRange(0, 1))
  {
    ShortRowUnreadable(table);
    assert Judge(ShortRowGrid(), table, 0, 0).Ok?;
    ClassifyFirstError(ShortRowGrid(), table, 0, 1);
  }

  /** The corrected grid places the diagonal's dies where they belong. */
  lemma DiagonalCorrected()
    ensures StdfGrid(Diagonal()) == Ok([[NotPresent, Pass], [Pass, NotPresent]])
  {
    DiagonalRows();
    DiagonalCells();
    var chips := Reduce(Diagonal());
    assert StdfGrid(Diagonal()).Ok?;
    StdfGridShape(Diagonal());
    var g := StdfGrid(Diagonal()).value;
    assert |g| == 2 && |g[0]| == 2 && |g[1]| == 2;
    assert g[0][0] == DieAt(chips, 0, 0) && g[0][1] == DieAt(chips, 0, 1);
    assert g[1][0] == DieAt(chips, 1, 0) && g[1][1] == DieAt(chips, 1, 1);
    TwoByTwo(g);
  }

  /** A two-by-two grid is the display of its four cells. */
  lemma TwoByTwo(g: Grid)
    requires |g| == 2 && |g[0]| == 2 && |g[1]| == 2
    ensures g == [[g[0][0], g[0][1]], [g[1][0], g[1][1]]]
  {
    assert g[0] == [g[0][0], g[0][1]];
    assert g[1] == [g[1][0], g[1][1]];
  }

  lemma DiagonalCells()
    ensures MaxColumn(Reduce(Diagonal())) == 1
    ensures DieAt(Reduce(Diagonal()), 0, 0) == NotPresent
    ensures DieAt(Reduce(Diagonal()), 0, 1) == Pass
    ensures DieAt(Reduce(Diagonal()), 1, 0) == Pass
    ensures DieAt(Reduce(Diagonal()), 1, 1) == NotPresent
  {
    DiagonalChips();
    var chips := Reduce(Diagonal());
    assert chips[1..][1..] == [];
  }

  // ----- A row with a gap -----

  /** Two dies in row 0 with column 1 between them missing. */
  function Gap(): seq<Record> {
    [Record(0, 0, 0), Record(2, 0, 0)]
  }

  lemma GapChips()
    ensures Reduce(Gap()) == [Chip(0, 0, Pass), Chip(0, 2, Pass)]
  {
    var rs := Gap();
    assert rs[..1] == [rs[0]];
    assert [rs[0]][..0] == [];
    assert Reduce([rs[0]]) == [Chip(0, 0, Pass)];
  }

  /** The gap's chips by row. */
  function GapTable(): seq<seq<Chip>> {
    [[Chip(0, 0, Pass), Chip(0, 2, Pass)]]
  }

  lemma GapRows()
    ensures PartitionIntoRows(Reduce(Gap())) == Ok(GapTable())
  {
    GapChips();
    var chips := Reduce(Gap());
    var c0, c2 := Chip(0, 0, Pass), Chip(0, 2, Pass);
    assert MaxRow(chips) == 0;
    assert chips[1..][1..] == [];
    assert RowChips(chips[1..], 0) == [c2];
    assert RowChips(chips, 0) == [c0, c2];
    assert RowsFrom(chips, 1, 1) == Ok([]);
    assert [[c0, c2]] + [] == [[c0, c2]];
  }

  lemma GapSorted()
    ensures SortEachRow(GapTable()) == GapTable()
  {
    var row := GapTable()[0];
    assert row[1..] == [row[1]];
    assert SortRow([row[1]]) == [row[1]];
    assert SortRow(row) == row;
  }

  lemma GapSquare()
    ensures MakeSquare(GapTable()) == Ok(GapTable())
  {
    var rows := GapTable();
    assert MaxLength(rows) == 2;
    var a := FillRowEdges(rows[0], 2);
    assert |a| == 2;
    assert a == rows[0];
    var sq := MakeSquare(rows).value;
    assert |sq| == 1 && sq[0] == a;
    assert sq == rows;
  }

  /** As written, the padding keeps a row's chips next to each other: the die
      recorded at column 2 shows at column 1, where nothing was recorded, and
      column 2 does not exist. */
  lemma GapAsWritten()
    ensures StdfGridAsWritten(Gap()) == Ok([[Pass, Pass]])
    ensures Outcome(Gap(), 0, 1) == None && Outcome(Gap(), 0, 2) == Some(Pass)
  {
    GapRows();
    GapSorted();
    GapSquare();
    GapStates();
    GapOutcomes();
  }

  lemma GapStates()
    ensures States(GapTable()) == [[Pass, Pass]]
  {
    var g := States(GapTable());
    assert |g| == 1 && g[0] == [Pass, Pass];
  }

  lemma GapOutcomes()
    ensures Outcome(Gap(), 0, 1) == None && Outcome(Gap(), 0, 2) == Some(Pass)
  {
    assert !Recorded(Gap(), 0, 1);
    assert Gap()[1].y == 0 && Gap()[1].x == 2;
    assert !FailRecorded(Gap(), 0, 2);
  }

  lemma GapCells()
    ensures MaxColumn(Reduce(Gap())) == 2
    ensures DieAt(Reduce(Gap()), 0, 0) == Pass
    ensures DieAt(Reduce(Gap()), 0, 1) == NotPresent
    ensures DieAt(Reduce(Gap()), 0, 2) == Pass
  {
    GapChips();
    var chips := Reduce(Gap());
    assert chips[1..][1..] == [];
  }

  /** The corrected grid keeps the gap: `1.1`. */
  lemma GapCorrected()
    ensures StdfGrid(Gap()) == Ok([[Pass, NotPresent, Pass]])
  {
    GapRows();
    GapCells();
    var chips := Reduce(Gap());
    assert StdfGrid(Gap()).Ok?;
    StdfGridShape(Gap());
    var g := StdfGrid(Gap()).value;
    assert |g| == 1 && |g[0]| == 3;
    assert g[0][0] == DieAt(chips, 0, 0) && g[0][1] == DieAt(chips, 0, 1) && g[0][2] == DieAt(chips, 0, 2);
    assert g[0] == [Pass, NotPresent, Pass];
    assert g == [[Pass, NotPresent, Pass]];
  }
}
