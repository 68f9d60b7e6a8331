/**
 * The argument validators of `src/tools/args.ts`: tool arguments arrive as JSON
 * values and are read field by field. JSON numbers are integers here, so every
 * number is finite.
 */
module Args {
  import opened Wrappers
  import opened Json
  import opened TextEdits

  type Record = map<string, Json>

  /** `asObject`: an object's members; anything else (null, arrays, scalars) reads as `{}`. */
  function AsObject(v: Json): (r: Record)
    ensures v.JObj? ==> r == v.fields
    ensures !v.JObj? ==> r == map[]
  {
    if v.JObj? then v.fields else map[]
  }

  /** `args.key` on a record: undefined when absent. */
  function Member(args: Record, key: string): Option<Json> {
    if key in args then Some(args[key]) else None
  }

  /** `asString`: strings pass, everything else (undefined included) is null. */
  function AsString(v: Option<Json>): (r: Option<string>)
    ensures r.Some? <==> v.Some? && v.value.JStr?
    ensures r.Some? ==> v.value == JStr(r.value)
  {
    if v.Some? && v.value.JStr? then Some(v.value.s) else None
  }

  /** `asNumber`: numbers pass, everything else (undefined included) is null. */
  function AsNumber(v: Option<Json>): (r: Option<int>)
    ensures r.Some? <==> v.Some? && v.value.JNum?
    ensures r.Some? ==> v.value == JNum(r.value)
  {
    if v.Some? && v.value.JNum? then Some(v.value.n) else None
  }

  datatype PositionArgs = PositionArgs(filePath: string, line: int, character: int)
  datatype RangeArgs = RangeArgs(filePath: string, range: Range)

  /** `parsePositionArgs`: `null` unless `filePath` is a non-empty string and both numbers are present. */
  function ParsePositionArgs(args: Record): (r: Option<PositionArgs>)
    ensures r.Some? <==>
      && (exists p :: p != [] && Member(args, "filePath") == Some(JStr(p)))
      && (exists n :: Member(args, "line") == Some(JNum(n)))
      && (exists n :: Member(args, "character") == Some(JNum(n)))
    ensures r.Some? ==>
      && Member(args, "filePath") == Some(JStr(r.value.filePath))
      && Member(args, "line") == Some(JNum(r.value.line))
      && Member(args, "character") == Some(JNum(r.value.character))
  {
    var filePath := AsString(Member(args, "filePath"));
    var line := AsNumber(Member(args, "line"));
    var character := AsNumber(Member(args, "character"));
    if filePath.None? || filePath.value == [] || line.None? || character.None? then None
    else Some(PositionArgs(filePath.value, line.value, character.value))
  }

  /** `parseRangeArgs`: `null` unless `filePath` is a non-empty string and all four numbers are present. */
  function ParseRangeArgs(args: Record): (r: Option<RangeArgs>)
    ensures r.Some? <==>
      && (exists p :: p != [] && Member(args, "filePath") == Some(JStr(p)))
      && (forall k :: k in ["startLine", "startCharacter", "endLine", "endCharacter"] ==>
            exists n :: Member(args, k) == Some(JNum(n)))
    ensures r.Some? ==>
      && Member(args, "filePath") == Some(JStr(r.value.filePath))
      && Member(args, "startLine") == Some(JNum(r.value.range.start.line))
      && Member(args, "startCharacter") == Some(JNum(r.value.range.start.character))
      && Member(args, "endLine") == Some(JNum(r.value.range.end.line))
      && Member(args, "endCharacter") == Some(JNum(r.value.range.end.character))
  {
    var filePath := AsString(Member(args, "filePath"));
    if filePath.None? || filePath.value == [] then None
    else
      var startLine := AsNumber(Member(args, "startLine"));
      var startCharacter := AsNumber(Member(args, "startCharacter"));
      var endLine := AsNumber(Member(args, "endLine"));
      var endCharacter := AsNumber(Member(args, "endCharacter"));
      if startLine.None? || startCharacter.None? || endLine.None? || endCharacter.None? then None
      else
        Some(RangeArgs(filePath.value, Range(Position(startLine.value, startCharacter.value),
                                             Position(endLine.value, endCharacter.value))))
  }

  /** Line 0 is a valid position and is passed through unchanged. */
  lemma PositionExample()
    ensures ParsePositionArgs(map["filePath" := JStr("src/main.rs"), "line" := JNum(0), "character" := JNum(1)])
            == Some(PositionArgs("src/main.rs", 0, 1))
  {
  }

  /** A line given as a string is refused. */
  lemma PositionRejectsStringLine()
    ensures ParsePositionArgs(map["filePath" := JStr("x"), "line" := JStr("0"), "character" := JNum(1)]) == None
  {
  }

  /** A range with only its start line is refused. */
  lemma RangeRejectsMissing()
    ensures ParseRangeArgs(map["filePath" := JStr("x"), "startLine" := JNum(0)]) == None
  {
  }
}
