/** The wafer map: a list of rows of dies over the four-symbol alphabet, its
    text form, and the neighbour operations the classifier reads
    (scripts/main.py, classes `ChipState`, `Chip` and `ChipsGrid`). */
module ChipsGrid {
  import opened Results
  import opened Text

  /** `ChipState`: the test outcome of one die. */
  datatype State = Pass | Fail | FailByPrediction | NotPresent

  /** Rows of dies; a die's row and column are its indices. Rows need not have
      equal lengths: the binary-record path can produce ragged grids. */
  type Grid = seq<seq<State>>

  /** The characters the translation dictionaries know. */
  predicate IsWaferChar(ch: char) {
    ch == '.' || ch == '1' || ch == 'X' || ch == 'Y'
  }

  /** `Chip.translate_state_from_string_to_enum`; `None` where the dictionary
      lookup raises `KeyError`. */
  function StateOf(ch: char): (s: Option<State>)
    ensures s.Some? <==> IsWaferChar(ch)
  {
    match ch
    case 'X' => Some(Fail)
    case '1' => Some(Pass)
    case '.' => Some(NotPresent)
    case 'Y' => Some(FailByPrediction)
    case _ => None
  }

  /** `Chip.translate_state_from_enum_to_string`: the inverse of `StateOf`. */
  function CharOf(s: State): (ch: char)
    ensures StateOf(ch) == Some(s)
    ensures forall other :: StateOf(other) == Some(s) ==> other == ch
  {
    match s
    case Fail => 'X'
    case Pass => '1'
    case NotPresent => '.'
    case FailByPrediction => 'Y'
  }

  /** A line every character of which is a die. */
  predicate WaferLine(line: string) {
    forall i :: 0 <= i < |line| ==> IsWaferChar(line[i])
  }

  /** A text that `ChipsGrid(text)` accepts: dies and line breaks only. */
  predicate GridText(t: string) {
    forall i :: 0 <= i < |t| ==> t[i] == '\n' || IsWaferChar(t[i])
  }

  /** One row of `ChipsGrid.__repr__`. */
  function RowText(row: seq<State>): (line: string)
    ensures |line| == |row|
    ensures forall i :: 0 <= i < |row| ==> StateOf(line[i]) == Some(row[i])
    ensures WaferLine(line)
  {
    seq(|row|, i requires 0 <= i < |row| => CharOf(row[i]))
  }

  lemma RowTextInjective(a: seq<State>, b: seq<State>)
    requires RowText(a) == RowText(b)
    ensures a == b
  {
    assert |a| == |b|;
    forall i | 0 <= i < |a| ensures a[i] == b[i] {
      assert Some(a[i]) == StateOf(RowText(a)[i]) == Some(b[i]);
    }
  }

  datatype ParseError = InvalidCharacter(ch: char)

  /** The dies of one text line, failing at the first unknown character. */
  function ParseRow(line: string): (r: Result<seq<State>, ParseError>)
    ensures r.Ok? <==> WaferLine(line)
    ensures r.Ok? ==> RowText(r.value) == line
    ensures r.Err? ==> exists i :: 0 <= i < |line| && r.error == InvalidCharacter(line[i])
                                   && !IsWaferChar(line[i]) && WaferLine(line[..i])
    decreases |line|
  {
    if |line| == 0 then Ok([])
    else match StateOf(line[0])
      case None =>
        assert WaferLine(line[..0]);
        Err(InvalidCharacter(line[0]))
      case Some(s) =>
        var rest := ParseRow(line[1..]);
        if rest.Err? then
          assert !WaferLine(line);
          ghost var i :| 0 <= i < |line[1..]| && rest.error == InvalidCharacter(line[1..][i])
                         && !IsWaferChar(line[1..][i]) && WaferLine(line[1..][..i]);
          assert line[..i + 1] == [line[0]] + line[1..][..i];
          Err(rest.error)
        else
          assert line == [line[0]] + line[1..];
          Ok([s] + rest.value)
  }

  /** `ChipsGrid.make_chips_grid` after the split: one row per line. */
  function ParseLines(lines: seq<string>): (r: Result<Grid, ParseError>)
    ensures r.Ok? <==> forall k :: 0 <= k < |lines| ==> WaferLine(lines[k])
    ensures r.Ok? ==> |r.value| == |lines|
                      && forall k :: 0 <= k < |lines| ==> RowText(r.value[k]) == lines[k]
    decreases |lines|
  {
    if |lines| == 0 then Ok([])
    else
      var row :- ParseRow(lines[0]);
      var rest :- ParseLines(lines[1..]);
      assert forall k :: 1 <= k < |lines| ==> lines[k] == lines[1..][k - 1];
      Ok([row] + rest)
  }

  /** The text lines of `ChipsGrid.__repr__`, before joining. */
  function Lines(g: Grid): (lines: seq<string>)
    ensures |lines| == |g|
    ensures forall k :: 0 <= k < |g| ==> lines[k] == RowText(g[k])
  {
    seq(|g|, k requires 0 <= k < |g| => RowText(g[k]))
  }

  /** `ChipsGrid.__repr__`: rows joined by line breaks. */
  function Serialise(g: Grid): string {
    Join(Lines(g), '\n')
  }

  /** Every line of `lines` is made of dies only. */
  predicate AllWaferLines(lines: seq<string>) {
    forall k :: 0 <= k < |lines| ==> WaferLine(lines[k])
  }

  lemma GridTextCons(t: string)
    requires |t| > 0
    ensures GridText(t) <==> (t[0] == '\n' || IsWaferChar(t[0])) && GridText(t[1..])
  {
    assert forall i :: 1 <= i < |t| ==> t[i] == t[1..][i - 1];
  }

  lemma WaferLineCons(ch: char, line: string)
    ensures WaferLine([ch] + line) <==> IsWaferChar(ch) && WaferLine(line)
  {
    var whole := [ch] + line;
    assert whole[0] == ch;
    assert forall i :: 0 <= i < |line| ==> line[i] == whole[i + 1];
    if IsWaferChar(ch) && WaferLine(line) {
      forall i | 0 <= i < |whole| ensures IsWaferChar(whole[i]) {
        if i > 0 {
          assert whole[i] == line[i - 1];
        }
      }
    }
  }

  lemma AllWaferLinesCons(line: string, lines: seq<string>)
    ensures AllWaferLines([line] + lines) <==> WaferLine(line) && AllWaferLines(lines)
  {
    var all := [line] + lines;
    assert all[0] == line;
    assert forall k :: 0 <= k < |lines| ==> lines[k] == all[k + 1];
    if WaferLine(line) && AllWaferLines(lines) {
      forall k | 0 <= k < |all| ensures WaferLine(all[k]) {
        if k > 0 {
          assert all[k] == lines[k - 1];
        }
      }
    }
  }

  /** The pieces of a split grid text are all wafer lines exactly when the text
      holds nothing but dies and line breaks. */
  lemma {:induction false} GridTextSplit(t: string)
    ensures GridText(t) <==> AllWaferLines(Split(t, '\n'))
    decreases |t|
  {
    if |t| > 0 {
      var rest := Split(t[1..], '\n');
      GridTextSplit(t[1..]);
      GridTextCons(t);
      if t[0] == '\n' {
        assert Split(t, '\n') == [""] + rest;
        AllWaferLinesCons("", rest);
      } else {
        var first := [t[0]] + rest[0];
        assert Split(t, '\n') == [first] + rest[1..];
        AllWaferLinesCons(first, rest[1..]);
        assert rest == [rest[0]] + rest[1..];
        AllWaferLinesCons(rest[0], rest[1..]);
        WaferLineCons(t[0], rest[0]);
      }
    }
  }

  /** `ChipsGrid(text)`: split on line breaks, one die per character.
      Serialising the result reproduces the text exactly. */
  function Parse(text: string): (r: Result<Grid, ParseError>)
    ensures r.Ok? <==> GridText(text)
    ensures r.Ok? ==> |r.value| >= 1 && Serialise(r.value) == text
  {
    var lines := Split(text, '\n');
    GridTextSplit(text);
    var r := ParseLines(lines);
    if r.Ok? then
      assert Lines(r.value) == lines;
      JoinSplit(text, '\n');
      r
    else
      r
  }

  /** Lines of dies joined by line breaks parse back into one row per line,
      each as long as its line. */
  lemma ParseJoin(lines: seq<string>)
    requires |lines| >= 1
    requires forall k :: 0 <= k < |lines| ==> WaferLine(lines[k])
    ensures Parse(Join(lines, '\n')).Ok?
    ensures |Parse(Join(lines, '\n')).value| == |lines|
    ensures forall k :: 0 <= k < |lines| ==> |Parse(Join(lines, '\n')).value[k]| == |lines[k]|
  {
    forall k | 0 <= k < |lines| ensures '\n' !in lines[k] {
      assert !IsWaferChar('\n');
    }
    SplitJoin(lines, '\n');
    var r := ParseLines(lines);
    assert Parse(Join(lines, '\n')) == r;
    forall k | 0 <= k < |lines| ensures |r.value[k]| == |lines[k]| {
      assert |RowText(r.value[k])| == |lines[k]|;
    }
  }

  /** Parsing a serialised grid gives the grid back; `ChipsGrid.__deepcopy__`
      relies on this. A grid without rows is the exception: its text is empty
      and parses to one empty row. */
  lemma SerialiseThenParse(g: Grid)
    ensures |g| >= 1 ==> Parse(Serialise(g)) == Ok(g)
    ensures |g| == 0 ==> Parse(Serialise(g)) == Ok([[]])
  {
    var lines := Lines(g);
    if |g| >= 1 {
      forall k | 0 <= k < |lines| ensures '\n' !in lines[k] {
        assert WaferLine(lines[k]) && !IsWaferChar('\n');
      }
      SplitJoin(lines, '\n');
      var r := ParseLines(lines);
      assert r.Ok?;
      forall k | 0 <= k < |g| ensures r.value[k] == g[k] {
        RowTextInjective(r.value[k], g[k]);
      }
      assert r.value == g;
      assert Parse(Serialise(g)) == r;
    } else {
      assert Serialise(g) == "";
      assert Split("", '\n') == [""];
      assert ParseRow("") == Ok([]);
      assert WaferLine("");
      var v := ParseLines([""]).value;
      assert |RowText(v[0])| == 0;
      assert v == [[]];
    }
  }

  /** A wafer text with an unknown character cannot be parsed, and the error
      names the first such character: everything before it is dies and line
      breaks. */
  lemma ParseRejects(text: string)
    ensures Parse(text).Err? ==>
      exists i :: 0 <= i < |text| && text[i] != '\n' && !IsWaferChar(text[i])
                  && GridText(text[..i])
                  && Parse(text).error == InvalidCharacter(text[i])
  {
    if Parse(text).Err? {
      FirstBadCharacter(text);
    }
  }

  /** The row parser on a line that starts with a die fails exactly as on the
      rest of the line. */
  lemma ParseRowCons(ch: char, line: string)
    requires IsWaferChar(ch)
    ensures ParseRow([ch] + line).Err? <==> ParseRow(line).Err?
    ensures ParseRow(line).Err? ==> ParseRow([ch] + line).error == ParseRow(line).error
  {
    assert ([ch] + line)[1..] == line;
  }

  /** The lines parser fails on the split text at its first character that is
      neither a die nor a line break. */
  lemma {:induction false} FirstBadCharacter(t: string)
    ensures ParseLines(Split(t, '\n')).Err? ==>
      exists i :: 0 <= i < |t| && t[i] != '\n' && !IsWaferChar(t[i])
                  && GridText(t[..i])
                  && ParseLines(Split(t, '\n')).error == InvalidCharacter(t[i])
    decreases |t|
  {
    if |t| == 0 {
      assert Split(t, '\n') == [""];
      assert WaferLine("");
    } else if ParseLines(Split(t, '\n')).Err? {
      if t[0] != '\n' && !IsWaferChar(t[0]) {
        BadFirst(t);
        assert GridText(t[..0]);
      } else {
        SkipFirst(t);
        FirstBadCharacter(t[1..]);
        var i :| 0 <= i < |t[1..]| && t[1..][i] != '\n' && !IsWaferChar(t[1..][i])
                 && GridText(t[1..][..i])
                 && ParseLines(Split(t[1..], '\n')).error == InvalidCharacter(t[1..][i]);
        GridTextPrefix(t, i);
      }
    }
  }

  /** A text starting with a character that is neither a die nor a line break
      fails on that character. */
  lemma BadFirst(t: string)
    requires |t| > 0 && t[0] != '\n' && !IsWaferChar(t[0])
    ensures ParseLines(Split(t, '\n')) == Err(InvalidCharacter(t[0]))
  {
    var rest := Split(t[1..], '\n');
    var first := [t[0]] + rest[0];
    assert Split(t, '\n') == [first] + rest[1..];
    assert ParseRow(first) == Err(InvalidCharacter(t[0]));
  }

  /** A text starting with a die or a line break fails as the rest of it
      does. */
  lemma SkipFirst(t: string)
    requires |t| > 0 && (t[0] == '\n' || IsWaferChar(t[0]))
    requires ParseLines(Split(t, '\n')).Err?
    ensures ParseLines(Split(t[1..], '\n')).Err?
    ensures ParseLines(Split(t, '\n')).error == ParseLines(Split(t[1..], '\n')).error
  {
    var rest := Split(t[1..], '\n');
    if t[0] == '\n' {
      assert Split(t, '\n') == [""] + rest;
      assert ([""] + rest)[1..] == rest;
      assert ParseRow("") == Ok([]);
    } else {
      var first := [t[0]] + rest[0];
      assert Split(t, '\n') == [first] + rest[1..];
      assert ([first] + rest[1..])[1..] == rest[1..];
      assert rest == [rest[0]] + rest[1..];
      ParseRowCons(t[0], rest[0]);
    }
  }

  lemma GridTextPrefix(t: string, i: nat)
    requires |t| > 0 && (t[0] == '\n' || IsWaferChar(t[0]))
    requires i < |t| - 1 && GridText(t[1..][..i])
    ensures GridText(t[..i + 1])
  {
    assert t[..i + 1] == [t[0]] + t[1..][..i];
  }

  /** `ChipsGrid.columns_number`: the length of the first row, or 0. */
  function Width(g: Grid): nat {
    if |g| == 0 then 0 else |g[0]|
  }

  /** `ChipsGrid.exist_place`: the position lies inside `rows` rows of `width`
      columns. */
  predicate ExistPlace(rows: nat, width: nat, r: int, c: int) {
    0 <= r < rows && 0 <= c < width
  }

  /** `p` is one of the eight positions around `(r, c)`. */
  predicate Adjacent(r: int, c: int, p: (int, int)) {
    p != (r, c) && r - 1 <= p.0 <= r + 1 && c - 1 <= p.1 <= c + 1
  }

  /** `[p]` when `p` lies inside the bounds, else nothing. */
  function Keep(rows: nat, width: nat, p: (int, int)): (s: seq<(int, int)>)
    ensures |s| <= 1
    ensures forall q :: q in s <==> q == p && ExistPlace(rows, width, p.0, p.1)
  {
    if ExistPlace(rows, width, p.0, p.1) then [p] else []
  }

  /** The in-bound positions among `(row, c - 1)`, `(row, c)`, `(row, c + 1)`,
      or among the two outer ones when `middle` is false. */
  function RowPlaces(rows: nat, width: nat, row: int, c: int, middle: bool): (s: seq<(int, int)>)
    ensures |s| <= if middle then 3 else 2
  {
    var a := Keep(rows, width, (row, c - 1));
    var b := if middle then Keep(rows, width, (row, c)) else [];
    var d := Keep(rows, width, (row, c + 1));
    a + b + d
  }

  /** The positions of one row of the window: exactly the in-bound ones, left to
      right, each once. */
  lemma RowPlacesSpec(rows: nat, width: nat, row: int, c: int, middle: bool)
    ensures forall q :: q in RowPlaces(rows, width, row, c, middle) <==>
              ExistPlace(rows, width, q.0, q.1) && q.0 == row && c - 1 <= q.1 <= c + 1 && (middle || q.1 != c)
    ensures forall i, j :: 0 <= i < j < |RowPlaces(rows, width, row, c, middle)| ==>
              RowPlaces(rows, width, row, c, middle)[i].1 < RowPlaces(rows, width, row, c, middle)[j].1
    ensures forall i :: 0 <= i < |RowPlaces(rows, width, row, c, middle)| ==>
              RowPlaces(rows, width, row, c, middle)[i].0 == row
    ensures Distinct(RowPlaces(rows, width, row, c, middle))
  {
  }

  /** The in-bound neighbours of `(r, c)` in rows `r + dr` to `r + 1`, row by
      row. */
  function WindowPlaces(rows: nat, width: nat, r: int, c: int, dr: int): (ps: seq<(int, int)>)
    requires -1 <= dr <= 2
    ensures |ps| <= 3 * (2 - dr) - (if dr <= 0 then 1 else 0)
    decreases 2 - dr
  {
    if dr == 2 then []
    else RowPlaces(rows, width, r + dr, c, dr != 0) + WindowPlaces(rows, width, r, c, dr + 1)
  }

  /** Every position of the window from row `r + dr` down lies in those rows. */
  lemma {:induction false} WindowPlacesRows(rows: nat, width: nat, r: int, c: int, dr: int)
    requires -1 <= dr <= 2
    ensures forall i :: 0 <= i < |WindowPlaces(rows, width, r, c, dr)| ==>
              r + dr <= WindowPlaces(rows, width, r, c, dr)[i].0
    decreases 2 - dr
  {
    if dr < 2 {
      var here := RowPlaces(rows, width, r + dr, c, dr != 0);
      var rest := WindowPlaces(rows, width, r, c, dr + 1);
      RowPlacesSpec(rows, width, r + dr, c, dr != 0);
      WindowPlacesRows(rows, width, r, c, dr + 1);
      assert forall i :: 0 <= i < |here| ==> r + dr <= here[i].0;
      assert forall i :: 0 <= i < |rest| ==> r + dr <= rest[i].0;
      RowsFromConcat(here, rest, r + dr);
      assert WindowPlaces(rows, width, r, c, dr) == here + rest;
    }
  }

  lemma RowsFromConcat(xs: seq<(int, int)>, ys: seq<(int, int)>, lo: int)
    requires forall i :: 0 <= i < |xs| ==> lo <= xs[i].0
    requires forall i :: 0 <= i < |ys| ==> lo <= ys[i].0
    ensures forall i :: 0 <= i < |xs + ys| ==> lo <= (xs + ys)[i].0
  {
  }

  /** Distinct positions all in row `row`, followed by distinct positions all
      below it, are distinct. */
  lemma DistinctRowThenBelow(here: seq<(int, int)>, rest: seq<(int, int)>, row: int)
    requires Distinct(here) && Distinct(rest)
    requires forall i :: 0 <= i < |here| ==> here[i].0 == row
    requires forall j :: 0 <= j < |rest| ==> row + 1 <= rest[j].0
    ensures Distinct(here + rest)
  {
    forall i, j | 0 <= i < |here| && 0 <= j < |rest| ensures here[i] != rest[j] {
      assert here[i].0 == row < rest[j].0;
    }
    DistinctConcat(here, rest);
  }

  /** The window lists no position twice. */
  lemma {:induction false} WindowPlacesDistinct(rows: nat, width: nat, r: int, c: int, dr: int)
    requires -1 <= dr <= 2
    ensures Distinct(WindowPlaces(rows, width, r, c, dr))
    decreases 2 - dr
  {
    if dr < 2 {
      RowPlacesSpec(rows, width, r + dr, c, dr != 0);
      WindowPlacesRows(rows, width, r, c, dr + 1);
      WindowPlacesDistinct(rows, width, r, c, dr + 1);
      DistinctRowThenBelow(RowPlaces(rows, width, r + dr, c, dr != 0), WindowPlaces(rows, width, r, c, dr + 1), r + dr);
    }
  }

  /** The window from row `r + dr` down holds exactly the in-bound neighbours
      in those rows. */
  lemma {:induction false} WindowPlacesMembers(rows: nat, width: nat, r: int, c: int, dr: int)
    requires -1 <= dr <= 2
    ensures forall p :: p in WindowPlaces(rows, width, r, c, dr) <==>
              ExistPlace(rows, width, p.0, p.1) && Adjacent(r, c, p) && r + dr <= p.0
    decreases 2 - dr
  {
    if dr < 2 {
      var here := RowPlaces(rows, width, r + dr, c, dr != 0);
      var rest := WindowPlaces(rows, width, r, c, dr + 1);
      RowPlacesSpec(rows, width, r + dr, c, dr != 0);
      WindowPlacesMembers(rows, width, r, c, dr + 1);
      var ps := here + rest;
      assert WindowPlaces(rows, width, r, c, dr) == ps;
      forall p ensures p in ps <==> ExistPlace(rows, width, p.0, p.1) && Adjacent(r, c, p) && r + dr <= p.0 {
        assert p in ps <==> p in here || p in rest;
        if p.0 == r + dr {
          assert p !in rest;
        } else {
          assert p !in here;
        }
      }
    }
  }

  /** `ChipsGrid.neighbors_iterator`: the positions of the neighbours of the die
      at `(r, c)`, row by row, clipped at the bounds given by the row count and
      the width of the first row, without wrap-around. */
  function NeighbourPlaces(g: Grid, r: int, c: int): (ps: seq<(int, int)>)
    ensures |ps| <= 8
  {
    WindowPlaces(|g|, Width(g), r, c, -1)
  }

  /** The neighbour positions are exactly the adjacent positions inside the
      bounds, each listed once. */
  lemma NeighbourPlacesSpec(g: Grid, r: int, c: int)
    ensures forall p :: p in NeighbourPlaces(g, r, c) <==> ExistPlace(|g|, Width(g), p.0, p.1) && Adjacent(r, c, p)
    ensures Distinct(NeighbourPlaces(g, r, c))
  {
    WindowPlacesMembers(|g|, Width(g), r, c, -1);
    WindowPlacesDistinct(|g|, Width(g), r, c, -1);
  }

  /** Positions without repeats. */
  predicate Distinct(ps: seq<(int, int)>) {
    forall i, j :: 0 <= i < j < |ps| ==> ps[i] != ps[j]
  }

  lemma DistinctConcat(xs: seq<(int, int)>, ys: seq<(int, int)>)
    requires Distinct(xs) && Distinct(ys)
    requires forall i, j :: 0 <= i < |xs| && 0 <= j < |ys| ==> xs[i] != ys[j]
    ensures Distinct(xs + ys)
  {
    var zs := xs + ys;
    forall i, j | 0 <= i < j < |zs| ensures zs[i] != zs[j] {
      if j < |xs| {
        assert zs[i] == xs[i] && zs[j] == xs[j];
      } else if i < |xs| {
        assert zs[i] == xs[i] && zs[j] == ys[j - |xs|];
      } else {
        assert zs[i] == ys[i - |xs|] && zs[j] == ys[j - |xs|];
      }
    }
  }

  /** The die at `p` can be read: `map_as_grid[p.0][p.1]` does not raise. */
  predicate Readable(g: Grid, p: (int, int)) {
    0 <= p.0 < |g| && 0 <= p.1 < |g[p.0]|
  }

  /** Every position of `ps` holds a die. */
  predicate AllReadable(g: Grid, ps: seq<(int, int)>) {
    forall i :: 0 <= i < |ps| ==> Readable(g, ps[i])
  }

  /** Every neighbour position inside the bounds holds a die. On a ragged grid
      one may lie past the end of a shorter row, and reading it raises
      `IndexError`. */
  predicate NeighboursReadable(g: Grid, r: int, c: int) {
    AllReadable(g, NeighbourPlaces(g, r, c))
  }

  /** Every row is as long as the first. */
  predicate Rectangular(g: Grid) {
    forall r :: 0 <= r < |g| ==> |g[r]| == Width(g)
  }

  /** On a rectangular grid every die's neighbours can be read. */
  lemma RectangularReadable(g: Grid, r: int, c: int)
    requires Rectangular(g)
    ensures NeighboursReadable(g, r, c)
  {
    var ps := NeighbourPlaces(g, r, c);
    NeighbourPlacesSpec(g, r, c);
    forall i | 0 <= i < |ps| ensures Readable(g, ps[i]) {
      assert ps[i] in ps;
    }
  }

  /** How many of the positions `ps` hold a die that exists. */
  function CountPresent(g: Grid, ps: seq<(int, int)>): (n: nat)
    requires AllReadable(g, ps)
    ensures n <= |ps|
    decreases |ps|
  {
    if |ps| == 0 then 0
    else (if g[ps[0].0][ps[0].1] != NotPresent then 1 else 0) + CountPresent(g, ps[1..])
  }

  /** How many of the positions `ps` hold a failed die; never more than hold a
      die at all. */
  function CountFail(g: Grid, ps: seq<(int, int)>): (n: nat)
    requires AllReadable(g, ps)
    ensures n <= CountPresent(g, ps)
    decreases |ps|
  {
    if |ps| == 0 then 0
    else (if g[ps[0].0][ps[0].1] == Fail then 1 else 0) + CountFail(g, ps[1..])
  }

  /** `ChipsGrid.number_of_neighbors`: neighbours whose state is not
      `NotPresent` (so a `FailByPrediction` die counts). */
  function PresentNeighbours(g: Grid, r: int, c: int): (n: nat)
    requires NeighboursReadable(g, r, c)
    ensures n <= 8
  {
    CountPresent(g, NeighbourPlaces(g, r, c))
  }

  /** `ChipsGrid.number_of_x_neighbors`: neighbours whose state is `Fail`. */
  function FailNeighbours(g: Grid, r: int, c: int): (k: nat)
    requires NeighboursReadable(g, r, c)
    ensures k <= PresentNeighbours(g, r, c)
  {
    CountFail(g, NeighbourPlaces(g, r, c))
  }

  /** The dies at `ps` read one after another, as the sums over
      `neighbors_iterator` read them: `None` at a position past the end of its
      row (the `IndexError`), otherwise the number of dies present and the
      number failed. */
  function ReadPlaces(g: Grid, ps: seq<(int, int)>): (o: Option<(nat, nat)>)
    ensures o.Some? ==> o.value.1 <= o.value.0 <= |ps|
    decreases |ps|
  {
    if |ps| == 0 then Some((0, 0))
    else if !Readable(g, ps[0]) then None
    else match ReadPlaces(g, ps[1..])
      case None => None
      case Some(counts) =>
        var s := g[ps[0].0][ps[0].1];
        Some((counts.0 + (if s != NotPresent then 1 else 0), counts.1 + (if s == Fail then 1 else 0)))
  }

  /** Reading succeeds exactly when every position holds a die, and then gives
      the two counts. */
  lemma {:induction false} ReadPlacesCounts(g: Grid, ps: seq<(int, int)>)
    ensures ReadPlaces(g, ps).Some? <==> AllReadable(g, ps)
    ensures ReadPlaces(g, ps).Some? ==> ReadPlaces(g, ps).value == (CountPresent(g, ps), CountFail(g, ps))
    decreases |ps|
  {
    if |ps| > 0 {
      ReadPlacesCounts(g, ps[1..]);
      assert AllReadable(g, ps) <==> Readable(g, ps[0]) && AllReadable(g, ps[1..]) by {
        assert forall i :: 1 <= i < |ps| ==> ps[i] == ps[1..][i - 1];
      }
    }
  }

  /** The neighbours of `(r, c)` read in order. */
  function ReadNeighbours(g: Grid, r: int, c: int): (o: Option<(nat, nat)>)
    ensures o.Some? ==> o.value.1 <= o.value.0 <= 8
  {
    ReadPlaces(g, NeighbourPlaces(g, r, c))
  }

  /** Reading the neighbours fails exactly when one cannot be read, and
      otherwise gives the present and the failed count. */
  lemma ReadNeighboursCounts(g: Grid, r: int, c: int)
    ensures ReadNeighbours(g, r, c).Some? <==> NeighboursReadable(g, r, c)
    ensures ReadNeighbours(g, r, c).Some? ==>
              ReadNeighbours(g, r, c).value == (PresentNeighbours(g, r, c), FailNeighbours(g, r, c))
  {
    ReadPlacesCounts(g, NeighbourPlaces(g, r, c));
  }

  /** The present count over distinct positions is the size of the set of
      positions holding a die. */
  lemma {:induction false} CountPresentIsCardinality(g: Grid, ps: seq<(int, int)>)
    requires AllReadable(g, ps)
    requires Distinct(ps)
    ensures CountPresent(g, ps) == |set p | p in ps && g[p.0][p.1] != NotPresent|
    decreases |ps|
  {
    if |ps| > 0 {
      var tail := ps[1..];
      CountPresentIsCardinality(g, tail);
      var all := set p | p in ps && g[p.0][p.1] != NotPresent;
      var rest := set p | p in tail && g[p.0][p.1] != NotPresent;
      assert ps[0] !in tail;
      if g[ps[0].0][ps[0].1] != NotPresent {
        assert all == {ps[0]} + rest;
      } else {
        assert all == rest;
      }
    }
  }

  /** The fail count over distinct positions is the size of the set of
      positions holding a failed die. */
  lemma {:induction false} CountFailIsCardinality(g: Grid, ps: seq<(int, int)>)
    requires AllReadable(g, ps)
    requires Distinct(ps)
    ensures CountFail(g, ps) == |set p | p in ps && g[p.0][p.1] == Fail|
    decreases |ps|
  {
    if |ps| > 0 {
      var tail := ps[1..];
      CountFailIsCardinality(g, tail);
      var all := set p | p in ps && g[p.0][p.1] == Fail;
      var rest := set p | p in tail && g[p.0][p.1] == Fail;
      assert ps[0] !in tail;
      if g[ps[0].0][ps[0].1] == Fail {
        assert all == {ps[0]} + rest;
      } else {
        assert all == rest;
      }
    }
  }

  /** The two neighbour counts are the sizes of the sets of adjacent in-bound
      positions holding, respectively, a die and a failed die. */
  lemma NeighbourCountsAreCardinalities(g: Grid, r: int, c: int)
    requires NeighboursReadable(g, r, c)
    ensures PresentNeighbours(g, r, c)
            == |set p | p in NeighbourPlaces(g, r, c) && g[p.0][p.1] != NotPresent|
    ensures FailNeighbours(g, r, c)
            == |set p | p in NeighbourPlaces(g, r, c) && g[p.0][p.1] == Fail|
  {
    NeighbourPlacesSpec(g, r, c);
    CountPresentIsCardinality(g, NeighbourPlaces(g, r, c));
    CountFailIsCardinality(g, NeighbourPlaces(g, r, c));
  }

  /** Two grids of one shape that agree, die by die, on which dies exist and
      which failed. Turning `Pass` into `FailByPrediction` keeps this. */
  predicate SameReading(g: Grid, w: Grid) {
    && |g| == |w|
    && (forall r :: 0 <= r < |g| ==> |g[r]| == |w[r]|)
    && (forall r, c :: 0 <= r < |g| && 0 <= c < |g[r]| ==>
          (g[r][c] == NotPresent <==> w[r][c] == NotPresent) && (g[r][c] == Fail <==> w[r][c] == Fail))
  }

  /** Overwriting a passing die with `Pass` or `FailByPrediction` keeps the
      reading. */
  lemma SameReadingFlip(g: Grid, w: Grid, r: int, c: int, s: State)
    requires SameReading(g, w)
    requires 0 <= r < |w| && 0 <= c < |w[r]| && w[r][c] == Pass
    requires s == Pass || s == FailByPrediction
    ensures SameReading(g, w[r := w[r][c := s]])
  {
    var w' := w[r := w[r][c := s]];
    forall i | 0 <= i < |g| ensures |g[i]| == |w'[i]| {
      if i == r {
        assert |w'[i]| == |w[i]|;
      } else {
        assert w'[i] == w[i];
      }
    }
    forall i, j | 0 <= i < |g| && 0 <= j < |g[i]|
      ensures (g[i][j] == NotPresent <==> w'[i][j] == NotPresent) && (g[i][j] == Fail <==> w'[i][j] == Fail)
    {
      if i != r {
        assert w'[i] == w[i];
      } else if j != c {
        assert w'[i][j] == w[i][j];
      }
    }
  }

  lemma {:induction false} SameReadingCountsOf(g: Grid, w: Grid, ps: seq<(int, int)>)
    requires SameReading(g, w)
    requires AllReadable(g, ps)
    ensures AllReadable(w, ps)
    ensures CountPresent(g, ps) == CountPresent(w, ps) && CountFail(g, ps) == CountFail(w, ps)
    decreases |ps|
  {
    if |ps| > 0 {
      SameReadingCountsOf(g, w, ps[1..]);
    }
  }

  /** Grids with the same reading give every die the same neighbours and the
      same counts. */
  lemma SameReadingCounts(g: Grid, w: Grid, r: int, c: int)
    requires SameReading(g, w)
    ensures NeighbourPlaces(g, r, c) == NeighbourPlaces(w, r, c)
    ensures NeighboursReadable(g, r, c) <==> NeighboursReadable(w, r, c)
    ensures NeighboursReadable(g, r, c) ==>
              PresentNeighbours(g, r, c) == PresentNeighbours(w, r, c)
              && FailNeighbours(g, r, c) == FailNeighbours(w, r, c)
  {
    assert Width(g) == Width(w);
    var ps := NeighbourPlaces(g, r, c);
    if NeighboursReadable(g, r, c) {
      SameReadingCountsOf(g, w, ps);
    }
  }

  /** How many dies of `row` are in state `s`. */
  function CountRow(row: seq<State>, s: State): (n: nat)
    ensures n <= |row|
    decreases |row|
  {
    if |row| == 0 then 0 else (if row[0] == s then 1 else 0) + CountRow(row[1..], s)
  }

  /** How many dies of `g` are in state `s`. */
  function CountState(g: Grid, s: State): nat
    decreases |g|
  {
    if |g| == 0 then 0 else CountRow(g[0], s) + CountState(g[1..], s)
  }
}
