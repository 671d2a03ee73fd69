/** Finding the wafer map inside a text file (`separate_un_relevant_text_lines`
    and its helpers): the most common length of the lines made only of die
    characters picks the map's width, the lines of that width must be
    consecutive, and everything around them becomes a template with the
    placeholder `$wafer` where the map stood. */
module Extractor {
  import opened Results
  import opened Text
  import opened ChipsGrid
  import opened Templates

  /** `BadWaferFileException`, with its two messages. */
  datatype ExtractError =
    | NoWafer     // "The file contains no wafers!!!"
    | TwoWafers   // "There are 2 wafers in the same file with same length."

  /** The stripped text split on line breaks, every line stripped again. */
  function StrippedLines(text: string): (lines: seq<string>)
    ensures |lines| == |Split(Strip(text), '\n')|
    ensures forall k :: 0 <= k < |lines| ==> lines[k] == Strip(Split(Strip(text), '\n')[k])
  {
    var parts := Split(Strip(text), '\n');
    seq(|parts|, k requires 0 <= k < |parts| => Strip(parts[k]))
  }

  /** Each line holds no line break and has no surrounding whitespace: it is
      its own strip. Together the lines cover the stripped text, one per line
      break in it. */
  lemma StrippedLinesClean(text: string)
    ensures |StrippedLines(text)| == |Split(Strip(text), '\n')|
    ensures forall k :: 0 <= k < |StrippedLines(text)| ==>
              '\n' !in StrippedLines(text)[k] && Strip(StrippedLines(text)[k]) == StrippedLines(text)[k]
  {
    var parts := Split(Strip(text), '\n');
    forall k | 0 <= k < |parts|
      ensures '\n' !in Strip(parts[k]) && Strip(Strip(parts[k])) == Strip(parts[k])
    {
      StripIdempotent(parts[k]);
      StripInside(parts[k], '\n');
    }
  }

  /** A line counted by `find_most_common_relevant_line_length`: not empty,
      and only die characters (`is_contains_only_relevant_characters`, which
      is `WaferLine`). */
  predicate IsCandidate(line: string) {
    |line| > 0 && WaferLine(line)
  }

  /** `is_relevant_wafer_line`. */
  predicate IsRelevantLine(line: string, width: nat) {
    WaferLine(line) && |line| == width && |line| > 0
  }

  // ----- The most common candidate length -----

  /** The lengths of the candidate lines, in the order of the lines. */
  function CandidateLengths(lines: seq<string>): (ls: seq<nat>)
    ensures |ls| <= |lines|
    decreases |lines|
  {
    if |lines| == 0 then []
    else (if IsCandidate(lines[0]) then [|lines[0]|] else []) + CandidateLengths(lines[1..])
  }

  /** The candidate lengths are exactly the lengths of the candidate lines. */
  lemma {:induction false} CandidateLengthsMembers(lines: seq<string>, n: nat)
    ensures n in CandidateLengths(lines) <==>
              exists k :: 0 <= k < |lines| && IsCandidate(lines[k]) && |lines[k]| == n
    decreases |lines|
  {
    if |lines| > 0 {
      CandidateLengthsMembers(lines[1..], n);
      var head := if IsCandidate(lines[0]) then [|lines[0]|] else [];
      assert CandidateLengths(lines) == head + CandidateLengths(lines[1..]);
      if exists k :: 0 <= k < |lines| && IsCandidate(lines[k]) && |lines[k]| == n {
        var k :| 0 <= k < |lines| && IsCandidate(lines[k]) && |lines[k]| == n;
        if k > 0 {
          assert lines[1..][k - 1] == lines[k];
        }
      }
      if n in CandidateLengths(lines[1..]) {
        var k :| 0 <= k < |lines[1..]| && IsCandidate(lines[1..][k]) && |lines[1..][k]| == n;
        assert lines[k + 1] == lines[1..][k];
      }
    }
  }

  /** How often `x` occurs in `xs`: the value `Counter(xs)[x]`. */
  function Count(xs: seq<nat>, x: nat): nat {
    multiset(xs)[x]
  }

  /** The position of the element `Counter(xs).most_common()` lists first among
      `xs[..k]`: scanning left to right, a later element takes over only with a
      strictly higher count. */
  function LeaderIndex(xs: seq<nat>, k: nat): (j: nat)
    requires 1 <= k <= |xs|
    ensures j < k
    decreases k
  {
    if k == 1 then 0
    else
      var j := LeaderIndex(xs, k - 1);
      if Count(xs, xs[k - 1]) > Count(xs, xs[j]) then k - 1 else j
  }

  /** `Counter(xs).most_common()[0][0]`. */
  function MostCommon(xs: seq<nat>): (m: nat)
    requires |xs| > 0
    ensures m in xs
  {
    xs[LeaderIndex(xs, |xs|)]
  }

  /** `xs[j]` has the highest count, and every element before position `j` a
      strictly lower one. `most_common` sorts stably by descending count and
      `Counter` keeps keys in the order they first appear, so this is the
      element it lists first. */
  predicate IsMostCommonAt(xs: seq<nat>, j: int)
    requires 0 <= j < |xs|
  {
    && (forall i :: 0 <= i < |xs| ==> Count(xs, xs[i]) <= Count(xs, xs[j]))
    && (forall i :: 0 <= i < j ==> Count(xs, xs[i]) < Count(xs, xs[j]))
  }

  predicate IsMostCommon(xs: seq<nat>, m: nat) {
    exists j :: 0 <= j < |xs| && xs[j] == m && IsMostCommonAt(xs, j)
  }

  lemma {:induction false} LeaderIndexSpec(xs: seq<nat>, k: nat)
    requires 1 <= k <= |xs|
    ensures forall i :: 0 <= i < k ==> Count(xs, xs[i]) <= Count(xs, xs[LeaderIndex(xs, k)])
    ensures forall i :: 0 <= i < LeaderIndex(xs, k) ==> Count(xs, xs[i]) < Count(xs, xs[LeaderIndex(xs, k)])
    decreases k
  {
    if k > 1 {
      LeaderIndexSpec(xs, k - 1);
    }
  }

  /** `MostCommon` picks the one element `most_common` lists first. */
  lemma MostCommonSpec(xs: seq<nat>)
    requires |xs| > 0
    ensures IsMostCommon(xs, MostCommon(xs))
    ensures forall m :: IsMostCommon(xs, m) ==> m == MostCommon(xs)
  {
    var j := LeaderIndex(xs, |xs|);
    LeaderIndexSpec(xs, |xs|);
    assert IsMostCommonAt(xs, j);
    forall m | IsMostCommon(xs, m) ensures m == MostCommon(xs) {
      var j' :| 0 <= j' < |xs| && xs[j'] == m && IsMostCommonAt(xs, j');
      assert Count(xs, xs[j']) == Count(xs, xs[j]);
      assert j' == j;
    }
  }

  /** `find_most_common_relevant_line_length`: fails when no line is a
      candidate. */
  function WaferWidth(lines: seq<string>): (r: Result<nat, ExtractError>)
    ensures r.Err? ==> r.error == NoWafer
  {
    var ls := CandidateLengths(lines);
    if |ls| == 0 then Err(NoWafer) else Ok(MostCommon(ls))
  }

  /** The width is missing exactly when there is no candidate line; otherwise
      it is the most common candidate length, and some line is relevant at it. */
  lemma WaferWidthSpec(lines: seq<string>)
    ensures WaferWidth(lines).Err? <==> forall k :: 0 <= k < |lines| ==> !IsCandidate(lines[k])
    ensures WaferWidth(lines).Ok? ==>
              && IsMostCommon(CandidateLengths(lines), WaferWidth(lines).value)
              && exists k :: 0 <= k < |lines| && IsRelevantLine(lines[k], WaferWidth(lines).value)
  {
    var ls := CandidateLengths(lines);
    if |ls| == 0 {
      forall k | 0 <= k < |lines| ensures !IsCandidate(lines[k]) {
        if IsCandidate(lines[k]) {
          CandidateLengthsMembers(lines, |lines[k]|);
        }
      }
    } else {
      var w := MostCommon(ls);
      MostCommonSpec(ls);
      CandidateLengthsMembers(lines, w);
      var k :| 0 <= k < |lines| && IsCandidate(lines[k]) && |lines[k]| == w;
      assert IsRelevantLine(lines[k], w);
    }
  }

  // ----- The relevant lines -----

  /** The indexes from `i` on of the lines relevant at `width`, ascending:
      `relevant_indexes_set`, whose minimum, maximum and size are all the
      extractor reads. */
  function RelevantFrom(lines: seq<string>, width: nat, i: nat): (idx: seq<nat>)
    requires i <= |lines|
    ensures |idx| <= |lines| - i
    decreases |lines| - i
  {
    if i == |lines| then []
    else (if IsRelevantLine(lines[i], width) then [i] else []) + RelevantFrom(lines, width, i + 1)
  }

  function RelevantIndexes(lines: seq<string>, width: nat): (idx: seq<nat>)
    ensures |idx| <= |lines|
  {
    RelevantFrom(lines, width, 0)
  }

  predicate Ascending(idx: seq<nat>) {
    forall a, b :: 0 <= a < b < |idx| ==> idx[a] < idx[b]
  }

  /** The indexes are ascending, and hold exactly the relevant lines from `i` on. */
  lemma {:induction false} RelevantFromSpec(lines: seq<string>, width: nat, i: nat)
    requires i <= |lines|
    ensures Ascending(RelevantFrom(lines, width, i))
    ensures forall n :: n in RelevantFrom(lines, width, i) <==>
                          i <= n < |lines| && IsRelevantLine(lines[n], width)
    decreases |lines| - i
  {
    if i < |lines| {
      RelevantFromSpec(lines, width, i + 1);
      var rest := RelevantFrom(lines, width, i + 1);
      var head := if IsRelevantLine(lines[i], width) then [i] else [];
      assert RelevantFrom(lines, width, i) == head + rest;
      forall b | 0 <= b < |rest| ensures i < rest[b] {
        assert rest[b] in rest;
      }
    }
  }

  lemma RelevantIndexesSpec(lines: seq<string>, width: nat)
    ensures Ascending(RelevantIndexes(lines, width))
    ensures forall n: nat :: n in RelevantIndexes(lines, width) <==>
                          n < |lines| && IsRelevantLine(lines[n], width)
  {
    RelevantFromSpec(lines, width, 0);
  }

  /** `is_not_continuous_set`: the span from the smallest to the largest index
      is not the number of indexes. Python's `max` of an empty set raises, and
      the extractor never asks about one. */
  predicate NotContinuous(idx: seq<nat>)
    requires |idx| > 0
  {
    idx[|idx| - 1] as int - idx[0] + 1 != |idx|
  }

  lemma {:induction false} AscendingGaps(idx: seq<nat>, a: nat, b: nat)
    requires Ascending(idx) && a <= b < |idx|
    ensures idx[b] - idx[a] >= b - a
    decreases b - a
  {
    if a < b {
      AscendingGaps(idx, a, b - 1);
      assert idx[b - 1] < idx[b];
    }
  }

  /** Ascending indexes are continuous exactly when they count up by one. */
  lemma ContinuousIff(idx: seq<nat>)
    requires |idx| > 0 && Ascending(idx)
    ensures !NotContinuous(idx) <==> forall k :: 0 <= k < |idx| ==> idx[k] == idx[0] + k
  {
    var last := |idx| - 1;
    if !NotContinuous(idx) {
      forall k | 0 <= k < |idx| ensures idx[k] == idx[0] + k {
        AscendingGaps(idx, 0, k);
        AscendingGaps(idx, k, last);
      }
    }
  }

  /** The indexes are not continuous exactly when a line that is not relevant
      lies between two relevant ones. */
  lemma GapIff(lines: seq<string>, width: nat)
    requires |RelevantIndexes(lines, width)| > 0
    ensures NotContinuous(RelevantIndexes(lines, width)) <==>
              exists a, n, b :: 0 <= a < n < b < |lines| && IsRelevantLine(lines[a], width)
                                && !IsRelevantLine(lines[n], width) && IsRelevantLine(lines[b], width)
  {
    var idx := RelevantIndexes(lines, width);
    RelevantIndexesSpec(lines, width);
    ContinuousIff(idx);
    var last := |idx| - 1;
    assert idx[0] in idx && idx[last] in idx;
    if NotContinuous(idx) {
      var k :| 0 <= k < |idx| && idx[k] != idx[0] + k;
      AscendingGaps(idx, 0, k);
      var i := FirstJump(idx, 1, k);
      var n := idx[0] + i;
      MissingBetween(idx, n, i);
      assert n < idx[last] by {
        AscendingGaps(idx, i, last);
      }
      assert idx[last] < |lines|;
    } else {
      forall a, n, b | 0 <= a < n < b < |lines| && IsRelevantLine(lines[a], width)
                                                && IsRelevantLine(lines[b], width)
        ensures IsRelevantLine(lines[n], width)
      {
        assert a in idx && b in idx;
        var ka :| 0 <= ka < |idx| && idx[ka] == a;
        var kb :| 0 <= kb < |idx| && idx[kb] == b;
        assert idx[ka + (n - a)] == n;
      }
    }
  }

  /** The first position, from `lo` on, where the indexes stop counting up
      by one from `idx[0]`. */
  lemma {:induction false} FirstJump(idx: seq<nat>, lo: nat, k: nat) returns (i: nat)
    requires Ascending(idx) && 0 < lo <= k < |idx|
    requires forall j :: 0 <= j < lo ==> idx[j] == idx[0] + j
    requires idx[k] != idx[0] + k
    ensures lo <= i <= k && idx[i - 1] == idx[0] + i - 1 && idx[i] > idx[0] + i
    decreases k - lo
  {
    if idx[lo] == idx[0] + lo {
      i := FirstJump(idx, lo + 1, k);
    } else {
      assert idx[lo - 1] < idx[lo];
      i := lo;
    }
  }

  /** A value strictly between two neighbouring indexes is not an index. */
  lemma MissingBetween(idx: seq<nat>, n: nat, i: nat)
    requires Ascending(idx)
    requires 0 < i < |idx| && idx[i - 1] == n - 1 && idx[i] > n
    ensures n !in idx
  {
    forall k | 0 <= k < |idx| ensures idx[k] != n {
      if k < i - 1 {
        assert idx[k] < idx[i - 1];
      } else if k > i {
        assert idx[i] < idx[k];
      }
    }
  }

  // ----- Separation -----

  /** Once a width is found, some line is relevant at it. */
  lemma RelevantIndexesNotEmpty(lines: seq<string>)
    requires WaferWidth(lines).Ok?
    ensures |RelevantIndexes(lines, WaferWidth(lines).value)| > 0
  {
    var width := WaferWidth(lines).value;
    WaferWidthSpec(lines);
    RelevantIndexesSpec(lines, width);
    var k :| 0 <= k < |lines| && IsRelevantLine(lines[k], width);
    assert k in RelevantIndexes(lines, width);
  }

  /** Continuous indexes mark a run of lines: exactly the lines from the first
      index to the last are relevant. */
  lemma ContinuousRun(lines: seq<string>, width: nat)
    requires |RelevantIndexes(lines, width)| > 0 && !NotContinuous(RelevantIndexes(lines, width))
    ensures var idx := RelevantIndexes(lines, width);
            && idx[0] <= idx[|idx| - 1] < |lines|
            && forall k :: 0 <= k < |lines| ==> (IsRelevantLine(lines[k], width) <==> idx[0] <= k <= idx[|idx| - 1])
  {
    var idx := RelevantIndexes(lines, width);
    var s, e := idx[0], idx[|idx| - 1];
    RelevantIndexesSpec(lines, width);
    ContinuousIff(idx);
    assert e in idx;
    forall k | 0 <= k < |lines| ensures IsRelevantLine(lines[k], width) <==> s <= k <= e {
      if IsRelevantLine(lines[k], width) {
        assert k in idx;
        var i :| 0 <= i < |idx| && idx[i] == k;
      }
      if s <= k <= e {
        assert idx[k - s] == k;
      }
    }
  }

  /** The wafer's text: the relevant lines, joined, provided they are
      consecutive. */
  function WaferBlock(lines: seq<string>): (r: Result<string, ExtractError>)
    ensures r.Ok? ==> |r.value| > 0
  {
    var width :- WaferWidth(lines);
    var idx := RelevantIndexes(lines, width);
    RelevantIndexesNotEmpty(lines);
    if NotContinuous(idx) then Err(TwoWafers)
    else
      var last := |idx| - 1;
      ContinuousRun(lines, width);
      var block := Join(lines[idx[0]..idx[last] + 1], '\n');
      JoinStartsWithFirst(lines[idx[0]..idx[last] + 1], '\n');
      assert IsRelevantLine(lines[idx[0]], width);
      Ok(block)
  }

  /** `separate_un_relevant_text_lines`: the wafer map's text, taken from the
      stripped lines, and the whole original text with that map replaced by
      the placeholder. */
  function Separate(text: string): (r: Result<(string, string), ExtractError>)
  {
    var block :- WaferBlock(StrippedLines(text));
    Ok((block, ReplaceAll(text, block, Placeholder)))
  }

  /** The file has no wafer exactly when no stripped line is a non-empty run
      of die characters. */
  lemma SeparateNoWafer(text: string)
    ensures Separate(text) == Err(NoWafer) <==>
              forall k :: 0 <= k < |StrippedLines(text)| ==> !IsCandidate(StrippedLines(text)[k])
  {
    WaferWidthSpec(StrippedLines(text));
  }

  /** The file is rejected as holding two wafers exactly when a width exists
      and a line that is not relevant at it lies between two that are. */
  lemma SeparateTwoWafers(text: string)
    ensures Separate(text) == Err(TwoWafers) <==>
              && WaferWidth(StrippedLines(text)).Ok?
              && exists a, n, b :: 0 <= a < n < b < |StrippedLines(text)|
                   && IsRelevantLine(StrippedLines(text)[a], WaferWidth(StrippedLines(text)).value)
                   && !IsRelevantLine(StrippedLines(text)[n], WaferWidth(StrippedLines(text)).value)
                   && IsRelevantLine(StrippedLines(text)[b], WaferWidth(StrippedLines(text)).value)
  {
    var lines := StrippedLines(text);
    WaferWidthSpec(lines);
    if WaferWidth(lines).Ok? {
      var width := WaferWidth(lines).value;
      RelevantIndexesSpec(lines, width);
      var k :| 0 <= k < |lines| && IsRelevantLine(lines[k], width);
      assert k in RelevantIndexes(lines, width);
      GapIff(lines, width);
    }
  }

  /** A wafer block is the run of lines `s..e`, and those are exactly the
      lines relevant at the width. */
  lemma WaferBlockSpec(lines: seq<string>) returns (s: nat, e: nat)
    requires WaferBlock(lines).Ok?
    ensures WaferWidth(lines).Ok?
    ensures s <= e < |lines|
    ensures WaferBlock(lines).value == Join(lines[s..e + 1], '\n')
    ensures forall k :: 0 <= k < |lines| ==>
              (IsRelevantLine(lines[k], WaferWidth(lines).value) <==> s <= k <= e)
  {
    var width := WaferWidth(lines).value;
    var idx := RelevantIndexes(lines, width);
    RelevantIndexesNotEmpty(lines);
    ContinuousRun(lines, width);
    s, e := idx[0], idx[|idx| - 1];
  }

  /** A separated wafer is the run of lines `s..e` of the stripped text, and
      those are exactly the lines relevant at the width; the template is the
      original text with every occurrence of the wafer's text replaced. */
  lemma SeparateBlock(text: string) returns (s: nat, e: nat)
    requires Separate(text).Ok?
    ensures WaferWidth(StrippedLines(text)).Ok?
    ensures s <= e < |StrippedLines(text)|
    ensures Separate(text).value.0 == Join(StrippedLines(text)[s..e + 1], '\n')
    ensures Separate(text).value.1 == ReplaceAll(text, Separate(text).value.0, Placeholder)
    ensures forall k :: 0 <= k < |StrippedLines(text)| ==>
              (IsRelevantLine(StrippedLines(text)[k], WaferWidth(StrippedLines(text)).value)
               <==> s <= k <= e)
  {
    s, e := WaferBlockSpec(StrippedLines(text));
  }

  /** A wafer block parses into a rectangular grid as wide as the chosen
      width. */
  lemma BlockGrid(lines: seq<string>)
    requires WaferBlock(lines).Ok?
    ensures WaferWidth(lines).Ok?
    ensures Parse(WaferBlock(lines).value).Ok?
    ensures Rectangular(Parse(WaferBlock(lines).value).value)
    ensures Width(Parse(WaferBlock(lines).value).value) == WaferWidth(lines).value > 0
  {
    var s, e := WaferBlockSpec(lines);
    var width := WaferWidth(lines).value;
    var pieces := lines[s..e + 1];
    forall k | 0 <= k < |pieces| ensures IsRelevantLine(pieces[k], width) {
      assert pieces[k] == lines[s + k];
    }
    ParseJoin(pieces);
  }

  /** The separated wafer text parses into a rectangular grid as wide as the
      chosen width. */
  lemma SeparatedGrid(text: string)
    requires Separate(text).Ok?
    ensures Parse(Separate(text).value.0).Ok?
    ensures Rectangular(Parse(Separate(text).value.0).value)
    ensures WaferWidth(StrippedLines(text)).Ok?
    ensures Width(Parse(Separate(text).value.0).value) == WaferWidth(StrippedLines(text)).value > 0
  {
    BlockGrid(StrippedLines(text));
  }

  /** Putting a grid text into the template gives the file with every
      occurrence of the wafer text replaced by that grid text, provided the
      file has no `$` and no occurrence of the wafer text runs straight into
      a letter, digit or `_`. */
  lemma CombineReplaces(text: string, gridText: string)
    requires Separate(text).Ok?
    requires '$' !in text
    requires forall i :: 0 <= i <= |text| ==> !FollowedByName(text, Separate(text).value.0, i)
    ensures Combine(gridText, Separate(text).value.1) == Ok(ReplaceAll(text, Separate(text).value.0, gridText))
  {
    ReplaceThenSubstitute(text, Separate(text).value.0, 0, gridText);
  }

  /** Putting the separated wafer text back into the template gives the file
      unchanged, under the same conditions. */
  lemma SeparateThenCombine(text: string)
    requires Separate(text).Ok?
    requires '$' !in text
    requires forall i :: 0 <= i <= |text| ==> !FollowedByName(text, Separate(text).value.0, i)
    ensures Combine(Separate(text).value.0, Separate(text).value.1) == Ok(text)
  {
    RoundTrip(text, Separate(text).value.0);
  }
}
