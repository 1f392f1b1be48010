/** The operator console's command language: `confirm <id>`, `ignore <id>`,
    `resume` and `exit`, keywords in any letter case, ids as typed. */
module Commands {
  import opened Text

  datatype Command =
    | ConfirmAlert(id: string)
    | IgnoreAlert(id: string)
    | ResumeSystem
    | Exit
    | Invalid

  const ConfirmPrefix := "confirm "
  const IgnorePrefix := "ignore "

  /** `processCommand(input)`: the keywords are matched on the lower-cased
      line, the id is cut from the line as typed and trimmed. `resume` and
      `exit` must be the whole line, in any case; a line is rejected exactly
      when it neither starts with one of the two prefixes nor spells one of
      the two words. */
  function ParseCommand(input: string): (c: Command)
    ensures c.ConfirmAlert? ==> |input| >= |ConfirmPrefix| && ToLower(input[..8]) == ConfirmPrefix
    ensures c.IgnoreAlert? ==> |input| >= |IgnorePrefix| && ToLower(input[..7]) == IgnorePrefix
    ensures c == ResumeSystem <==> ToLower(input) == "resume"
    ensures c == Exit <==> ToLower(input) == "exit"
    ensures c == Invalid <==>
              && !StartsWith(ToLower(input), ConfirmPrefix)
              && !StartsWith(ToLower(input), IgnorePrefix)
              && ToLower(input) != "resume"
              && ToLower(input) != "exit"
  {
    var lower := ToLower(input);
    if StartsWith(lower, ConfirmPrefix) then
      assert ToLower(input[..8]) == lower[..8];
      ConfirmAlert(Trim(input[8..]))
    else if StartsWith(lower, IgnorePrefix) then
      assert ToLower(input[..7]) == lower[..7];
      IgnoreAlert(Trim(input[7..]))
    else if lower == "resume" then ResumeSystem
    else if lower == "exit" then Exit
    else Invalid
  }

  /** A line whose lower-cased form starts with `ignore ` ignores the
      trimmed rest of the line as typed. */
  lemma IgnoreLine(input: string)
    requires StartsWith(ToLower(input), IgnorePrefix)
    ensures ParseCommand(input) == IgnoreAlert(Trim(input[7..]))
  {
    assert ToLower(input)[0] == 'i';
  }

  /** A keyword followed by more text keeps its lower-cased spelling at the
      front of the lower-cased line. */
  lemma LowerPrefix(keyword: string, rest: string, input: string)
    requires input == keyword + rest
    ensures StartsWith(ToLower(input), ToLower(keyword))
    ensures input[|keyword|..] == rest
  {
    ToLowerConcat(keyword, rest);
  }

  /** Any spelling of `confirm ` followed by any text confirms the trimmed
      text, whatever its case. */
  lemma ConfirmAnyCase(keyword: string, rest: string)
    requires ToLower(keyword) == ConfirmPrefix
    ensures ParseCommand(keyword + rest) == ConfirmAlert(Trim(rest))
  {
    LowerPrefix(keyword, rest, keyword + rest);
  }

  /** Any spelling of `ignore ` followed by any text ignores the trimmed
      text. */
  lemma IgnoreAnyCase(keyword: string, rest: string)
    requires ToLower(keyword) == IgnorePrefix
    ensures ParseCommand(keyword + rest) == IgnoreAlert(Trim(rest))
  {
    LowerPrefix(keyword, rest, keyword + rest);
    IgnoreLine(keyword + rest);
  }

  /** The console trims each line before parsing it, so a keyword with no id
      after it is rejected, in any letter case: `CONFIRM ` becomes `CONFIRM`. */
  lemma BareKeywordRejected(line: string)
    requires ToLower(Trim(line)) == "confirm" || ToLower(Trim(line)) == "ignore"
    ensures ParseCommand(Trim(line)) == Invalid
  {
    var s := Trim(line);
    assert ToLower(s)[0] == Lower(s[0]);
  }
}
