/**
  Strings as the runtime sees them: sequences of UTF-16 code units, so a character
  outside the basic plane counts as two and half of such a pair may stand alone.
 */
module CodeUnits {
  type CodeUnit = c: int | 0 <= c < 0x1_0000

  type Text = seq<CodeUnit>

  const LINE_FEED: CodeUnit := 10
  const CARRIAGE_RETURN: CodeUnit := 13
  const QUOTE: CodeUnit := 34
  const COMMA: CodeUnit := 44

  /** A string literal as code units; for characters of the basic plane. */
  function Units(s: string): Text {
    seq(|s|, i requires 0 <= i < |s| => if s[i] as int < 0x1_0000 then s[i] as int else 0)
  }
}
