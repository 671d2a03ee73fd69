/** The neighbour-threshold classifier (scripts/main.py,
    `apply_algorithm_on_grid`): every passing die whose failed neighbours
    reach the threshold for its number of present neighbours is marked as
    failed by prediction. */
module Classifier {
  import opened Results
  import opened ChipsGrid

  /** The neighbours threshold table: for a number of present neighbours, the
      number of failed neighbours at which a passing die is flipped. */
  type Table = map<int, int>

  datatype ClassifyError =
    | IndexOutOfRange(row: int, column: int)  // a neighbour lies past the end of a shorter row
    | MissingThreshold(present: int)          // the table has no entry for this count

  /** The new state of the die at `(r, c)` with every count read against `g`,
      or the exception the original raises while judging it. */
  function Judge(g: Grid, table: Table, r: int, c: int): (o: Result<State, ClassifyError>)
    requires 0 <= r < |g| && 0 <= c < |g[r]|
    ensures g[r][c] != Pass ==> o == Ok(g[r][c])
    ensures o.Ok? ==> o.value == g[r][c] || (g[r][c] == Pass && o.value == FailByPrediction)
  {
    if g[r][c] != Pass then Ok(g[r][c])
    else match ReadNeighbours(g, r, c)
      case None => Err(IndexOutOfRange(r, c))
      case Some((n, k)) =>
        if n !in table then Err(MissingThreshold(n))
        else if k >= table[n] then Ok(FailByPrediction)
        else Ok(Pass)
  }

  /** The die at `(r, c)` can be judged without an exception. */
  predicate Judgeable(g: Grid, table: Table, r: int, c: int)
    requires 0 <= r < |g| && 0 <= c < |g[r]|
  {
    g[r][c] != Pass || (NeighboursReadable(g, r, c) && PresentNeighbours(g, r, c) in table)
  }

  /** A passing die is flipped exactly when its counts reach the threshold. */
  lemma JudgeRule(g: Grid, table: Table, r: int, c: int)
    requires 0 <= r < |g| && 0 <= c < |g[r]|
    ensures Judge(g, table, r, c).Ok? <==> Judgeable(g, table, r, c)
    ensures g[r][c] == Pass && Judge(g, table, r, c).Ok? ==>
              (Judge(g, table, r, c).value == FailByPrediction
               <==> FailNeighbours(g, r, c) >= table[PresentNeighbours(g, r, c)])
  {
    ReadNeighboursCounts(g, r, c);
  }

  /** Row `r` from column `c` on, judged left to right; the first exception
      wins. */
  function ClassifyRow(g: Grid, table: Table, r: int, c: int): (o: Result<seq<State>, ClassifyError>)
    requires 0 <= r < |g| && 0 <= c <= |g[r]|
    ensures o.Ok? ==> |o.value| == |g[r]| - c
    decreases |g[r]| - c
  {
    if c == |g[r]| then Ok([])
    else
      var s :- Judge(g, table, r, c);
      var rest :- ClassifyRow(g, table, r, c + 1);
      Ok([s] + rest)
  }

  /** Rows `r` onwards, judged in order; the first exception wins. */
  function ClassifyRows(g: Grid, table: Table, r: int): (o: Result<Grid, ClassifyError>)
    requires 0 <= r <= |g|
    ensures o.Ok? ==> |o.value| == |g| - r
    decreases |g| - r
  {
    if r == |g| then Ok([])
    else
      var row :- ClassifyRow(g, table, r, 0);
      var rest :- ClassifyRows(g, table, r + 1);
      Ok([row] + rest)
  }

  /** The classifier as a pure map over the grid: every die judged against the
      unchanged input; the exception of the first die in row-major order that
      raises one, if any. */
  function Classify(g: Grid, table: Table): (o: Result<Grid, ClassifyError>)
    ensures o.Ok? ==> |o.value| == |g|
  {
    ClassifyRows(g, table, 0)
  }

  /** A row whose dies all judge without an exception classifies to their
      verdicts. */
  lemma {:induction false} RowFromJudges(g: Grid, table: Table, r: int, c: int, row: seq<State>)
    requires 0 <= r < |g| && 0 <= c <= |g[r]|
    requires |row| == |g[r]| - c
    requires forall j :: c <= j < |g[r]| ==> Judge(g, table, r, j) == Ok(row[j - c])
    ensures ClassifyRow(g, table, r, c) == Ok(row)
    decreases |g[r]| - c
  {
    if c < |g[r]| {
      assert Judge(g, table, r, c) == Ok(row[0]);
      forall j | c + 1 <= j < |g[r]| ensures Judge(g, table, r, j) == Ok(row[1..][j - (c + 1)]) {
        assert row[1..][j - (c + 1)] == row[j - c];
      }
      RowFromJudges(g, table, r, c + 1, row[1..]);
      assert row == [row[0]] + row[1..];
    }
  }

  /** A row that classifies holds the verdict of each of its dies. */
  lemma {:induction false} RowByDie(g: Grid, table: Table, r: int, c: int)
    requires 0 <= r < |g| && 0 <= c <= |g[r]|
    requires ClassifyRow(g, table, r, c).Ok?
    ensures forall j :: c <= j < |g[r]| ==> Judge(g, table, r, j) == Ok(ClassifyRow(g, table, r, c).value[j - c])
    decreases |g[r]| - c
  {
    if c < |g[r]| {
      var row := ClassifyRow(g, table, r, c).value;
      RowByDie(g, table, r, c + 1);
      var rest := ClassifyRow(g, table, r, c + 1).value;
      assert row == [Judge(g, table, r, c).value] + rest;
      forall j | c <= j < |g[r]| ensures Judge(g, table, r, j) == Ok(row[j - c]) {
        if j > c {
          assert row[j - c] == rest[j - (c + 1)];
        }
      }
    }
  }

  /** Within a row, the first die to raise determines the exception. */
  lemma {:induction false} RowFirstError(g: Grid, table: Table, r: int, c: int, e: int)
    requires 0 <= r < |g| && 0 <= c <= e < |g[r]|
    requires Judge(g, table, r, e).Err?
    requires forall j :: c <= j < e ==> Judge(g, table, r, j).Ok?
    ensures ClassifyRow(g, table, r, c) == Err(Judge(g, table, r, e).error)
    decreases e - c
  {
    if c < e {
      assert Judge(g, table, r, c).Ok?;
      RowFirstError(g, table, r, c + 1, e);
    }
  }

  /** Rows that all classify give the grid of their results. */
  lemma {:induction false} RowsFromRows(g: Grid, table: Table, r: int, h: Grid)
    requires 0 <= r <= |g|
    requires |h| == |g| - r
    requires forall i :: r <= i < |g| ==> ClassifyRow(g, table, i, 0) == Ok(h[i - r])
    ensures ClassifyRows(g, table, r) == Ok(h)
    decreases |g| - r
  {
    if r < |g| {
      assert ClassifyRow(g, table, r, 0) == Ok(h[0]);
      forall i | r + 1 <= i < |g| ensures ClassifyRow(g, table, i, 0) == Ok(h[1..][i - (r + 1)]) {
        assert h[1..][i - (r + 1)] == h[i - r];
      }
      RowsFromRows(g, table, r + 1, h[1..]);
      assert h == [h[0]] + h[1..];
    }
  }

  /** A successful classification holds the result of each row. */
  lemma {:induction false} RowsByRow(g: Grid, table: Table, r: int)
    requires 0 <= r <= |g|
    requires ClassifyRows(g, table, r).Ok?
    ensures forall i :: r <= i < |g| ==> ClassifyRow(g, table, i, 0) == Ok(ClassifyRows(g, table, r).value[i - r])
    decreases |g| - r
  {
    if r < |g| {
      var h := ClassifyRows(g, table, r).value;
      RowsByRow(g, table, r + 1);
      var rest := ClassifyRows(g, table, r + 1).value;
      assert h == [ClassifyRow(g, table, r, 0).value] + rest;
      forall i | r <= i < |g| ensures ClassifyRow(g, table, i, 0) == Ok(h[i - r]) {
        if i > r {
          assert h[i - r] == rest[i - (r + 1)];
        }
      }
    }
  }

  /** The first row to raise determines the exception. */
  lemma {:induction false} RowsFirstError(g: Grid, table: Table, r: int, e: int)
    requires 0 <= r <= e < |g|
    requires ClassifyRow(g, table, e, 0).Err?
    requires forall i :: r <= i < e ==> ClassifyRow(g, table, i, 0).Ok?
    ensures ClassifyRows(g, table, r) == Err(ClassifyRow(g, table, e, 0).error)
    decreases e - r
  {
    if r < e {
      assert ClassifyRow(g, table, r, 0).Ok?;
      RowsFirstError(g, table, r + 1, e);
    }
  }

  /** A successful classification keeps the shape of the grid and gives every
      die its verdict. */
  lemma ClassifyByDie(g: Grid, table: Table)
    requires Classify(g, table).Ok?
    ensures |Classify(g, table).value| == |g|
    ensures forall i :: 0 <= i < |g| ==> |Classify(g, table).value[i]| == |g[i]|
    ensures forall i, j :: 0 <= i < |g| && 0 <= j < |g[i]| ==>
                             Judge(g, table, i, j) == Ok(Classify(g, table).value[i][j])
  {
    var h := Classify(g, table).value;
    RowsByRow(g, table, 0);
    forall i | 0 <= i < |g| ensures |h[i]| == |g[i]|
      && forall j :: 0 <= j < |g[i]| ==> Judge(g, table, i, j) == Ok(h[i][j])
    {
      assert ClassifyRow(g, table, i, 0) == Ok(h[i]);
      RowByDie(g, table, i, 0);
    }
  }

  /** Conversely, a grid of the shape of `g` holding every die's verdict is
      the classification of `g`. */
  lemma ClassifyFromJudges(g: Grid, table: Table, h: Grid)
    requires |h| == |g|
    requires forall i :: 0 <= i < |g| ==> |h[i]| == |g[i]|
    requires forall i, j :: 0 <= i < |g| && 0 <= j < |g[i]| ==> Judge(g, table, i, j) == Ok(h[i][j])
    ensures Classify(g, table) == Ok(h)
  {
    forall i | 0 <= i < |g| ensures ClassifyRow(g, table, i, 0) == Ok(h[i - 0]) {
      RowFromJudges(g, table, i, 0, h[i]);
    }
    RowsFromRows(g, table, 0, h);
  }

  /** The exception of the first die, in row-major order, that raises one is the
      exception of the whole classification. */
  lemma ClassifyFirstError(g: Grid, table: Table, r: int, c: int)
    requires 0 <= r < |g| && 0 <= c < |g[r]|
    requires Judge(g, table, r, c).Err?
    requires forall i, j :: 0 <= i < r && 0 <= j < |g[i]| ==> Judge(g, table, i, j).Ok?
    requires forall j :: 0 <= j < c ==> Judge(g, table, r, j).Ok?
    ensures Classify(g, table) == Err(Judge(g, table, r, c).error)
  {
    forall i | 0 <= i < r ensures ClassifyRow(g, table, i, 0).Ok? {
      var row := seq(|g[i]|, j requires 0 <= j < |g[i]| => Judge(g, table, i, j).value);
      RowFromJudges(g, table, i, 0, row);
    }
    RowFirstError(g, table, r, 0, c);
    RowsFirstError(g, table, 0, r);
  }

  /** Classification succeeds exactly when every die can be judged. */
  lemma ClassifySucceeds(g: Grid, table: Table)
    ensures Classify(g, table).Ok? <==>
              forall i, j :: 0 <= i < |g| && 0 <= j < |g[i]| ==> Judgeable(g, table, i, j)
  {
    forall i, j | 0 <= i < |g| && 0 <= j < |g[i]| ensures Judge(g, table, i, j).Ok? <==> Judgeable(g, table, i, j) {
      JudgeRule(g, table, i, j);
    }
    if Classify(g, table).Ok? {
      ClassifyByDie(g, table);
    } else if forall i, j :: 0 <= i < |g| && 0 <= j < |g[i]| ==> Judgeable(g, table, i, j) {
      var h := seq(|g|, i requires 0 <= i < |g| =>
                 seq(|g[i]|, j requires 0 <= j < |g[i]| => Judge(g, table, i, j).value));
      ClassifyFromJudges(g, table, h);
    }
  }

  /** `copy.deepcopy` of a `ChipsGrid`: the grid serialised and parsed again. */
  function DeepCopy(g: Grid): (copy: Grid)
    ensures |g| >= 1 ==> copy == g
    ensures |g| == 0 ==> copy == [[]]
  {
    SerialiseThenParse(g);
    Parse(Serialise(g)).value
  }

  /** Judging a passing die of a grid with the same reading as `g` gives the
      verdict for that die of `g`. */
  lemma PassVerdictOnCopy(g: Grid, w: Grid, table: Table, r: int, c: int)
    requires SameReading(g, w)
    requires 0 <= r < |g| && 0 <= c < |g[r]|
    requires g[r][c] == Pass && w[r][c] == Pass
    ensures !NeighboursReadable(w, r, c) ==> Judge(g, table, r, c) == Err(IndexOutOfRange(r, c))
    ensures NeighboursReadable(w, r, c) && PresentNeighbours(w, r, c) !in table ==>
              Judge(g, table, r, c) == Err(MissingThreshold(PresentNeighbours(w, r, c)))
    ensures NeighboursReadable(w, r, c) && PresentNeighbours(w, r, c) in table ==>
              Judge(g, table, r, c)
              == Ok(if FailNeighbours(w, r, c) >= table[PresentNeighbours(w, r, c)] then FailByPrediction else Pass)
  {
    SameReadingCounts(g, w, r, c);
    ReadNeighboursCounts(g, r, c);
  }

  /** `h` is `g` with some passing dies turned into `FailByPrediction`, and
      nothing else changed. */
  predicate FlipsOnly(g: Grid, h: Grid) {
    && |h| == |g|
    && (forall i :: 0 <= i < |g| ==> |h[i]| == |g[i]|)
    && (forall i, j :: 0 <= i < |g| && 0 <= j < |g[i]| ==>
          h[i][j] == g[i][j] || (g[i][j] == Pass && h[i][j] == FailByPrediction))
  }

  /** The number of dies passing in `a` and failed by prediction in `b`. */
  function FlippedRow(a: seq<State>, b: seq<State>): (n: nat)
    requires |a| == |b|
    ensures n <= CountRow(a, Pass) && n <= CountRow(b, FailByPrediction)
    decreases |a|
  {
    if |a| == 0 then 0
    else (if a[0] == Pass && b[0] == FailByPrediction then 1 else 0) + FlippedRow(a[1..], b[1..])
  }

  /** The number of dies passing in `g` and failed by prediction in `h`. */
  function Flipped(g: Grid, h: Grid): (n: nat)
    requires |g| == |h| && forall i :: 0 <= i < |g| ==> |g[i]| == |h[i]|
    ensures n <= CountState(g, Pass) && n <= CountState(h, FailByPrediction)
    decreases |g|
  {
    if |g| == 0 then 0 else FlippedRow(g[0], h[0]) + Flipped(g[1..], h[1..])
  }

  /** Turning passing dies into predicted failures moves exactly the flipped
      dies from `Pass` to `FailByPrediction` and keeps every other tally. */
  lemma {:induction false} FlipsOnlyRowTally(a: seq<State>, b: seq<State>)
    requires |a| == |b|
    requires forall j :: 0 <= j < |a| ==> b[j] == a[j] || (a[j] == Pass && b[j] == FailByPrediction)
    ensures CountRow(b, Fail) == CountRow(a, Fail)
    ensures CountRow(b, NotPresent) == CountRow(a, NotPresent)
    ensures CountRow(a, Pass) == CountRow(b, Pass) + FlippedRow(a, b)
    ensures CountRow(b, FailByPrediction) == CountRow(a, FailByPrediction) + FlippedRow(a, b)
    decreases |a|
  {
    if |a| > 0 {
      assert forall j :: 0 <= j < |a| - 1 ==> a[1..][j] == a[j + 1] && b[1..][j] == b[j + 1];
      FlipsOnlyRowTally(a[1..], b[1..]);
    }
  }

  lemma {:induction false} FlipsOnlyTally(g: Grid, h: Grid)
    requires FlipsOnly(g, h)
    ensures CountState(h, Fail) == CountState(g, Fail)
    ensures CountState(h, NotPresent) == CountState(g, NotPresent)
    ensures CountState(g, Pass) == CountState(h, Pass) + Flipped(g, h)
    ensures CountState(h, FailByPrediction) == CountState(g, FailByPrediction) + Flipped(g, h)
    decreases |g|
  {
    if |g| > 0 {
      FlipsOnlyRowTally(g[0], h[0]);
      assert forall i :: 0 <= i < |g| - 1 ==> g[1..][i] == g[i + 1] && h[1..][i] == h[i + 1];
      FlipsOnlyTally(g[1..], h[1..]);
    }
  }

  /** A successful classification only turns passing dies into predicted
      failures, and turns one exactly when its failed neighbours reach the
      threshold for its present neighbours. */
  lemma ClassifyFlipsOnly(g: Grid, table: Table)
    requires Classify(g, table).Ok?
    ensures FlipsOnly(g, Classify(g, table).value)
    ensures forall i, j :: 0 <= i < |g| && 0 <= j < |g[i]| && g[i][j] == Pass ==>
              && NeighboursReadable(g, i, j) && PresentNeighbours(g, i, j) in table
              && (Classify(g, table).value[i][j] == FailByPrediction
                  <==> FailNeighbours(g, i, j) >= table[PresentNeighbours(g, i, j)])
  {
    ClassifyByDie(g, table);
    forall i, j | 0 <= i < |g| && 0 <= j < |g[i]| {
      JudgeRule(g, table, i, j);
    }
  }

  /** The conservation laws of the classifier: failed and missing dies are
      kept, and the passing dies lost are exactly the predicted failures
      gained. */
  lemma ClassifyConserves(g: Grid, table: Table)
    requires Classify(g, table).Ok?
    ensures var h := Classify(g, table).value;
            && CountState(h, Fail) == CountState(g, Fail)
            && CountState(h, NotPresent) == CountState(g, NotPresent)
            && CountState(h, Pass) + CountState(h, FailByPrediction)
               == CountState(g, Pass) + CountState(g, FailByPrediction)
            && CountState(h, FailByPrediction) >= CountState(g, FailByPrediction)
  {
    ClassifyFlipsOnly(g, table);
    FlipsOnlyTally(g, Classify(g, table).value);
  }

  /** Classifying a classified grid changes nothing: a predicted failure is
      present and not failed, so every count is read as before. */
  lemma ClassifyIdempotent(g: Grid, table: Table)
    requires Classify(g, table).Ok?
    ensures Classify(Classify(g, table).value, table) == Classify(g, table)
  {
    var h := Classify(g, table).value;
    ClassifyFlipsOnly(g, table);
    ClassifyByDie(g, table);
    assert SameReading(g, h);
    forall i, j | 0 <= i < |h| && 0 <= j < |h[i]| ensures Judge(h, table, i, j) == Ok(h[i][j]) {
      if h[i][j] == Pass {
        SameReadingCounts(g, h, i, j);
        ReadNeighboursCounts(g, i, j);
        ReadNeighboursCounts(h, i, j);
        assert Judge(g, table, i, j) == Ok(Pass);
      }
    }
    ClassifyFromJudges(h, table, h);
  }

  /** A grid without passing dies is left as it is. */
  lemma NoPassUnchanged(g: Grid, table: Table)
    requires forall i, j :: 0 <= i < |g| && 0 <= j < |g[i]| ==> g[i][j] != Pass
    ensures Classify(g, table) == Ok(g)
  {
    ClassifyFromJudges(g, table, g);
  }

  /** With an entry for every count from 0 to 8, a rectangular grid always
      classifies without an exception. */
  lemma CompleteTableSucceeds(g: Grid, table: Table)
    requires Rectangular(g)
    requires forall n :: 0 <= n <= 8 ==> n in table
    ensures Classify(g, table).Ok?
  {
    forall i, j | 0 <= i < |g| && 0 <= j < |g[i]| ensures Judgeable(g, table, i, j) {
      RectangularReadable(g, i, j);
    }
    ClassifySucceeds(g, table);
  }

  /** Without failed dies and with positive thresholds nothing is flipped. */
  lemma NoFailsUnchanged(g: Grid, table: Table)
    requires forall i, j :: 0 <= i < |g| && 0 <= j < |g[i]| ==> g[i][j] != Fail
    requires forall n :: n in table ==> table[n] > 0
    requires Classify(g, table).Ok?
    ensures Classify(g, table) == Ok(g)
  {
    var h := Classify(g, table).value;
    ClassifyFlipsOnly(g, table);
    forall i, j | 0 <= i < |g| && 0 <= j < |g[i]| && g[i][j] == Pass ensures h[i][j] == Pass {
      NoFailCounted(g, NeighbourPlaces(g, i, j));
    }
    assert h == g by {
      forall i | 0 <= i < |g| ensures h[i] == g[i] {
        assert forall j :: 0 <= j < |g[i]| ==> h[i][j] == g[i][j];
      }
    }
  }

  /** A table whose every threshold exceeds its neighbour count flips nothing:
      a die never has more failed neighbours than present ones. */
  lemma HighThresholdsUnchanged(g: Grid, table: Table)
    requires forall n :: n in table ==> table[n] > n
    requires Classify(g, table).Ok?
    ensures Classify(g, table) == Ok(g)
  {
    var h := Classify(g, table).value;
    ClassifyFlipsOnly(g, table);
    assert h == g by {
      forall i | 0 <= i < |g| ensures h[i] == g[i] {
        assert forall j :: 0 <= j < |g[i]| ==> h[i][j] == g[i][j];
      }
    }
  }

  lemma {:induction false} NoFailCounted(g: Grid, ps: seq<(int, int)>)
    requires AllReadable(g, ps)
    requires forall i, j :: 0 <= i < |g| && 0 <= j < |g[i]| ==> g[i][j] != Fail
    ensures CountFail(g, ps) == 0
    decreases |ps|
  {
    if |ps| > 0 {
      assert Readable(g, ps[0]);
      NoFailCounted(g, ps[1..]);
    }
  }

  /** Positions that all hold failed dies read as that many present and
      failed dies. */
  lemma {:induction false} FailedPlacesRead(g: Grid, ps: seq<(int, int)>)
    requires forall k :: 0 <= k < |ps| ==> Readable(g, ps[k]) && g[ps[k].0][ps[k].1] == Fail
    ensures ReadPlaces(g, ps) == Some((|ps|, |ps|))
    decreases |ps|
  {
    if |ps| > 0 {
      assert forall k :: 0 <= k < |ps| - 1 ==> ps[1..][k] == ps[k + 1];
      FailedPlacesRead(g, ps[1..]);
    }
  }

  /** A 3 by 3 grid of failed dies around one die in state `s`. */
  function Ring(s: State): (g: Grid)
    ensures |g| == 3 && forall i :: 0 <= i < 3 ==> |g[i]| == 3
    ensures forall i, j :: 0 <= i < 3 && 0 <= j < 3 ==> g[i][j] == if i == 1 && j == 1 then s else Fail
  {
    seq(3, i => seq(3, j => if i == 1 && j == 1 then s else Fail))
  }

  /** The centre of a ring reads eight present and eight failed neighbours. */
  lemma RingCentreReads(s: State)
    ensures ReadNeighbours(Ring(s), 1, 1) == Some((8, 8))
  {
    var g := Ring(s);
    assert RowPlaces(3, 3, 0, 1, true) == [(0, 0), (0, 1), (0, 2)];
    assert RowPlaces(3, 3, 1, 1, false) == [(1, 0), (1, 2)];
    assert RowPlaces(3, 3, 2, 1, true) == [(2, 0), (2, 1), (2, 2)];
    assert WindowPlaces(3, 3, 1, 1, 1) == [(2, 0), (2, 1), (2, 2)];
    assert WindowPlaces(3, 3, 1, 1, 0) == [(1, 0), (1, 2), (2, 0), (2, 1), (2, 2)];
    var ps := [(0, 0), (0, 1), (0, 2), (1, 0), (1, 2), (2, 0), (2, 1), (2, 2)];
    assert NeighbourPlaces(g, 1, 1) == ps;
    forall k | 0 <= k < |ps| ensures Readable(g, ps[k]) && g[ps[k].0][ps[k].1] == Fail {
    }
    FailedPlacesRead(g, ps);
  }

  /** A passing die ringed by eight failed dies, against a table asking for six
      failures out of eight, is predicted to fail. */
  lemma RingedDieFlips()
    ensures Classify(Ring(Pass), map[8 := 6]) == Ok(Ring(FailByPrediction))
  {
    var g := Ring(Pass);
    RingCentreReads(Pass);
    assert Judge(g, map[8 := 6], 1, 1) == Ok(FailByPrediction);
    ClassifyFromJudges(g, map[8 := 6], Ring(FailByPrediction));
  }

  /** One step of the loop of `apply_algorithm_on_grid`: a die of the working
      copy `w`, which reads like `g`, judged with its counts read from `w`.
      The verdict is the one for the same die of `g`. */
  method JudgeInPlace(g: Grid, w: Grid, table: Table, r: int, c: int) returns (res: Result<State, ClassifyError>)
    requires SameReading(g, w)
    requires 0 <= r < |w| && 0 <= c < |w[r]| && w[r][c] == g[r][c]
    ensures res == Judge(g, table, r, c)
  {
    if w[r][c] != Pass {
      return Ok(w[r][c]);
    }
    PassVerdictOnCopy(g, w, table, r, c);
    if !NeighboursReadable(w, r, c) {
      return Err(IndexOutOfRange(r, c));
    }
    var n := PresentNeighbours(w, r, c);
    var k := FailNeighbours(w, r, c);
    if n !in table {
      return Err(MissingThreshold(n));
    }
    res := Ok(if k >= table[n] then FailByPrediction else Pass);
  }

  /** One row of the loop of `apply_algorithm_on_grid`: the passing dies of row
      `r` of the working copy are judged left to right and overwritten in
      place, each reading the dies already overwritten. The row comes out as
      the pure classification of the row of `g`, and nothing else changes; an
      exception is the one of the pure classification. */
  method JudgeRowInPlace(g: Grid, work: Grid, table: Table, r: int) returns (res: Result<Grid, ClassifyError>)
    requires SameReading(g, work)
    requires 0 <= r < |work| && work[r] == g[r]
    ensures res.Ok? ==> && SameReading(g, res.value)
                        && (forall i :: 0 <= i < |work| && i != r ==> res.value[i] == work[i])
                        && ClassifyRow(g, table, r, 0) == Ok(res.value[r])
    ensures res.Err? ==> ClassifyRow(g, table, r, 0) == Err(res.error)
  {
    var w: Grid := work;
    var c := 0;
    while c < |w[r]|
      invariant |w| == |work|
      invariant 0 <= c <= |w[r]|
      invariant SameReading(g, w)
      invariant forall j :: 0 <= j < c ==> Judge(g, table, r, j) == Ok(w[r][j])
      invariant forall j :: c <= j < |w[r]| ==> w[r][j] == g[r][j]
      invariant forall i :: 0 <= i < |work| && i != r ==> w[i] == work[i]
    {
      var verdict := JudgeInPlace(g, w, table, r, c);
      if verdict.Err? {
        RowFirstError(g, table, r, 0, c);
        return Err(verdict.error);
      }
      if w[r][c] == Pass {
        SameReadingFlip(g, w, r, c, verdict.value);
        var before := w[r];
        w := w[r := before[c := verdict.value]];
        forall j | 0 <= j < c ensures Judge(g, table, r, j) == Ok(w[r][j]) {
          assert w[r][j] == before[j];
        }
      }
      c := c + 1;
    }
    RowFromJudges(g, table, r, 0, w[r]);
    res := Ok(w);
  }

  /** The loop of `apply_algorithm_on_grid` over the copy `g`: every passing
      die is judged and overwritten in place, row by row, with its counts read
      from the partly updated grid. The result equals the pure map over `g`. */
  method ClassifyInPlace(g: Grid, table: Table) returns (res: Result<Grid, ClassifyError>)
    ensures res == Classify(g, table)
  {
    var work := g;
    var r := 0;
    while r < |work|
      invariant 0 <= r <= |work|
      invariant SameReading(g, work)
      invariant forall i :: 0 <= i < r ==> ClassifyRow(g, table, i, 0) == Ok(work[i])
      invariant forall i :: r <= i < |work| ==> work[i] == g[i]
    {
      var next := JudgeRowInPlace(g, work, table, r);
      if next.Err? {
        RowsFirstError(g, table, 0, r);
        return Err(next.error);
      }
      work := next.value;
      r := r + 1;
    }
    RowsFromRows(g, table, 0, work);
    res := Ok(work);
  }

  /** `apply_algorithm_on_grid`: the grid is deep-copied and the copy is
      classified in place. The input is never changed, and the result equals
      the pure map over the input. */
  method ApplyAlgorithm(g: Grid, table: Table) returns (res: Result<Grid, ClassifyError>)
    ensures |g| >= 1 ==> res == Classify(g, table)
    ensures |g| == 0 ==> res == Ok([[]])
  {
    var copy := DeepCopy(g);
    res := ClassifyInPlace(copy, table);
    if |g| == 0 {
      assert ClassifyRow(copy, table, 0, 0) == Ok([]);
      assert ClassifyRows(copy, table, 1) == Ok([]);
    }
  }
}
