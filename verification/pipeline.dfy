/** The run of the program on one input (scripts/main.py, the `__main__`
    block): parse the file into a grid and a template, classify the grid,
    and put the classified grid text back into the template. Reading the
    input, the threshold file and writing the result are left to the caller:
    the text, the records and the table are parameters here. */
module Pipeline {
  import opened Results
  import opened Text
  import opened ChipsGrid
  import opened Classifier
  import opened Templates
  import opened Extractor
  import opened Stdf

  datatype PipelineError =
    | BadWaferFile(extract: ExtractError)      // BadWaferFileException from the extractor
    | BadStdfFile(stdf: StdfError)             // the STDF reduction raised
    | BadGrid(parse: ParseError)               // KeyError from the grid parser
    | AlgorithmFailed(classify: ClassifyError) // the classifier raised
    | BadTemplate(template: TemplateError)     // `Template.substitute` raised

  /** `parse_text_file`: the wafer part parsed into a grid, and the rest of
      the text as a template. */
  function ParseTextFile(text: string): Result<(Grid, string), PipelineError> {
    match Separate(text)
    case Err(e) => Err(BadWaferFile(e))
    case Ok((block, template)) =>
      match Parse(block)
      case Err(e) => Err(BadGrid(e))
      case Ok(g) => Ok((g, template))
  }

  /** `parse_stdf_file` with the grid of the corrected padding; the template
      is the placeholder alone. */
  function ParseStdfFile(records: seq<Record>): Result<(Grid, string), PipelineError> {
    match StdfGrid(records)
    case Err(e) => Err(BadStdfFile(e))
    case Ok(g) => Ok((g, Placeholder))
  }

  /** `parse_stdf_file` exactly as written. */
  function ParseStdfFileAsWritten(records: seq<Record>): Result<(Grid, string), PipelineError> {
    match StdfGridAsWritten(records)
    case Err(e) => Err(BadStdfFile(e))
    case Ok(g) => Ok((g, Placeholder))
  }

  /** `apply_algorithm_on_grid`, then `combine_result_with_rest`. */
  function Finish(input: Result<(Grid, string), PipelineError>, table: Table): Result<string, PipelineError> {
    match input
    case Err(e) => Err(e)
    case Ok((g, template)) =>
      match Classify(g, table)
      case Err(e) => Err(AlgorithmFailed(e))
      case Ok(h) =>
        match Combine(Serialise(h), template)
        case Err(e) => Err(BadTemplate(e))
        case Ok(out) => Ok(out)
  }

  /** A text input from start to end. */
  function ProcessText(text: string, table: Table): Result<string, PipelineError> {
    Finish(ParseTextFile(text), table)
  }

  /** An STDF input from start to end. */
  function ProcessStdf(records: seq<Record>, table: Table): Result<string, PipelineError> {
    Finish(ParseStdfFile(records), table)
  }

  /** An STDF input from start to end, with the padding as written. */
  function ProcessStdfAsWritten(records: seq<Record>, table: Table): Result<string, PipelineError> {
    Finish(ParseStdfFileAsWritten(records), table)
  }

  /** Parsing a text file fails only when the extractor rejects it: the wafer
      text it cuts out always parses, into a rectangular grid of the chosen
      width whose text is the wafer text, and the template is the file with
      the wafer text replaced by the placeholder. */
  lemma ParseTextFileSpec(text: string)
    ensures ParseTextFile(text).Err? <==> Separate(text).Err?
    ensures Separate(text).Err? ==> ParseTextFile(text) == Err(BadWaferFile(Separate(text).error))
    ensures ParseTextFile(text).Ok? ==>
              var (g, template) := ParseTextFile(text).value;
              && Rectangular(g)
              && Width(g) == WaferWidth(StrippedLines(text)).value > 0
              && Serialise(g) == Separate(text).value.0
              && template == ReplaceAll(text, Separate(text).value.0, Placeholder)
  {
    if Separate(text).Ok? {
      SeparatedGrid(text);
      var _, _ := SeparateBlock(text);
    }
  }

  /** With a threshold for every count from 0 to 8, a text file without `$`
      whose wafer text never runs into a name character comes out as the
      file with its wafer text replaced by the classified grid's text. */
  lemma ProcessTextSpec(text: string, table: Table)
    requires forall n :: 0 <= n <= 8 ==> n in table
    requires '$' !in text
    requires Separate(text).Ok?
    requires forall i :: 0 <= i <= |text| ==> !FollowedByName(text, Separate(text).value.0, i)
    ensures ParseTextFile(text).Ok?
    ensures Classify(ParseTextFile(text).value.0, table).Ok?
    ensures ProcessText(text, table) ==
              Ok(ReplaceAll(text, Separate(text).value.0, Serialise(Classify(ParseTextFile(text).value.0, table).value)))
  {
    ParseTextFileSpec(text);
    var g := ParseTextFile(text).value.0;
    CompleteTableSucceeds(g, table);
    CombineReplaces(text, Serialise(Classify(g, table).value));
  }

  /** When no threshold can be reached, a text file comes out unchanged. */
  lemma ProcessTextUnchanged(text: string, table: Table)
    requires forall n :: 0 <= n <= 8 ==> n in table
    requires forall n :: n in table ==> table[n] > n
    requires '$' !in text
    requires Separate(text).Ok?
    requires forall i :: 0 <= i <= |text| ==> !FollowedByName(text, Separate(text).value.0, i)
    ensures ProcessText(text, table) == Ok(text)
  {
    ProcessTextSpec(text, table);
    var g := ParseTextFile(text).value.0;
    HighThresholdsUnchanged(g, table);
    ReplaceBySelf(text, Separate(text).value.0);
  }

  /** With a threshold for every count from 0 to 8, an STDF input fails
      exactly when its reduction does, and otherwise comes out as the
      classified grid's text. */
  lemma ProcessStdfSpec(records: seq<Record>, table: Table)
    requires forall n :: 0 <= n <= 8 ==> n in table
    ensures ProcessStdf(records, table).Err? <==> StdfGrid(records).Err?
    ensures StdfGrid(records).Err? ==> ProcessStdf(records, table) == Err(BadStdfFile(StdfGrid(records).error))
    ensures StdfGrid(records).Ok? ==>
              && Classify(StdfGrid(records).value, table).Ok?
              && ProcessStdf(records, table) == Ok(Serialise(Classify(StdfGrid(records).value, table).value))
  {
    if StdfGrid(records).Ok? {
      StdfGridSpec(records);
      CompleteTableSucceeds(StdfGrid(records).value, table);
    }
  }

  /** An STDF input with the padding as written fails with the reduction's
      error when the reduction fails, otherwise exactly when classifying the
      padded grid fails, and never in the template. When the padded grid
      happens to be rectangular and the table is complete, it succeeds. */
  lemma ProcessStdfAsWrittenSpec(records: seq<Record>, table: Table)
    ensures StdfGridAsWritten(records).Err? ==>
              ProcessStdfAsWritten(records, table) == Err(BadStdfFile(StdfGridAsWritten(records).error))
    ensures StdfGridAsWritten(records).Ok? ==>
              match Classify(StdfGridAsWritten(records).value, table)
              case Ok(h) => ProcessStdfAsWritten(records, table) == Ok(Serialise(h))
              case Err(e) => ProcessStdfAsWritten(records, table) == Err(AlgorithmFailed(e))
    ensures !(ProcessStdfAsWritten(records, table).Err? && ProcessStdfAsWritten(records, table).error.BadTemplate?)
    ensures (forall n :: 0 <= n <= 8 ==> n in table) && StdfGridAsWritten(records).Ok?
              && Rectangular(StdfGridAsWritten(records).value) ==>
              ProcessStdfAsWritten(records, table).Ok?
  {
    if (forall n :: 0 <= n <= 8 ==> n in table) && StdfGridAsWritten(records).Ok?
       && Rectangular(StdfGridAsWritten(records).value) {
      CompleteTableSucceeds(StdfGridAsWritten(records).value, table);
    }
  }

  /** The two dies on a diagonal: as written, the program fails reading past
      the end of the short row whatever the table; with the corrected padding
      and a complete table it succeeds. */
  lemma DiagonalPipeline(table: Table)
    requires forall n :: 0 <= n <= 8 ==> n in table
    ensures ProcessStdfAsWritten(Diagonal(), table) == Err(AlgorithmFailed(IndexOutOfRange(0, 1)))
    ensures ProcessStdf(Diagonal(), table).Ok?
  {
    DiagonalAsWritten();
    DiagonalRagged(table);
    DiagonalCorrected();
    ProcessStdfSpec(Diagonal(), table);
  }
}
