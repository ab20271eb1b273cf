/** The `POST /parse` endpoint's result shaping (`parse_diff_text`,
    backend/app/api/diff.py lines 120-144): the parser's operations are
    passed through, and `success` is decided from the operations and the
    errors. */
module DiffApi {
  import Lines
  import DiffModel
  import DiffStructure

  datatype ParseResponse = ParseResponse(operations: seq<DiffModel.Hunk>, errors: seq<string>, success: bool)

  /** With errors, `success` is whether any operation was found and the
      errors are passed on; without errors, the response succeeds with an
      empty error list. */
  function Respond(outcome: DiffStructure.ParseOutcome): (r: ParseResponse)
    ensures r.operations == outcome.operations
    ensures |outcome.errors| > 0 ==> r.errors == outcome.errors && (r.success <==> |outcome.operations| > 0)
    ensures |outcome.errors| == 0 ==> r.errors == [] && r.success
  {
    if |outcome.errors| > 0 then
      ParseResponse(outcome.operations, outcome.errors, |outcome.operations| > 0)
    else
      ParseResponse(outcome.operations, [], true)
  }

  /** `parse_diff_text(diff_text)`: the parser's operations and errors,
      both passed through unchanged, and `success` exactly when there is at
      least one operation; a failed response always carries an error. */
  function ParseDiffText(diffText: string): (r: ParseResponse)
    ensures r.operations == DiffStructure.Parse(diffText).operations
    ensures r.errors == DiffStructure.Parse(diffText).errors
    ensures r.success <==> |r.operations| > 0
    ensures !r.success ==> |r.errors| > 0
  {
    Respond(DiffStructure.Parse(diffText))
  }

  /** Because the parser falls back to an error whenever it finds nothing,
      `success` holds exactly when at least one hunk was parsed, that is,
      when the text has at least one valid hunk header. */
  lemma SuccessIffHunk(diffText: string)
    ensures ParseDiffText(diffText).success <==> |ParseDiffText(diffText).operations| > 0
    ensures ParseDiffText(diffText).success
      <==> |DiffStructure.ValidRanges(DiffStructure.Classes(Lines.SplitLines(diffText)))| > 0
  {
    DiffStructure.HunksFollowHeaders(DiffStructure.Classes(Lines.SplitLines(diffText)));
  }
}
