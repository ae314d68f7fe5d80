/** The block's saved data, its defaults, and the height derived from the code's line count. */
module Block {
  import opened Options
  import opened Text

  /** The data object the host passes in; an absent (undefined) field is `None`. */
  datatype Input = Input(code: Option<string>, language: Option<string>, showLineNumbers: Option<bool>)

  /** The block's persisted state: `{code, language, showlinenumbers}`. */
  datatype BlockData = BlockData(code: string, language: string, showLineNumbers: bool)

  const DefaultLanguage: string := "plain"

  /** The constructor's defaulting: each given field is kept, each undefined one defaults. */
  function WithDefaults(input: Input): (d: BlockData)
    ensures input.code.Some? ==> d.code == input.code.value
    ensures input.code.None? ==> d.code == ""
    ensures input.language.Some? ==> d.language == input.language.value
    ensures input.language.None? ==> d.language == DefaultLanguage
    ensures input.showLineNumbers.Some? ==> d.showLineNumbers == input.showLineNumbers.value
    ensures input.showLineNumbers.None? ==> d.showLineNumbers
  {
    BlockData(
      if input.code.None? then "" else input.code.value,
      if input.language.None? then DefaultLanguage else input.language.value,
      if input.showLineNumbers.None? then true else input.showLineNumbers.value)
  }

  /** Saved data handed back to the host on a later load: every field present. */
  function AsInput(d: BlockData): Input
  {
    Input(Some(d.code), Some(d.language), Some(d.showLineNumbers))
  }

  /** Loading what was saved yields the same block data. */
  lemma ReloadSaved(d: BlockData)
    ensures WithDefaults(AsInput(d)) == d
  {
  }

  const LineHeightPx: int := 21
  const PaddingPx: int := 10
  const MinHeightPx: int := 60

  /** `_updateEditorHeight`: 21px a line plus 10px, but never under 60px. */
  function EditorHeight(lines: int): (h: int)
    ensures h >= MinHeightPx
    ensures h >= lines * LineHeightPx + PaddingPx
    ensures h == MinHeightPx || h == lines * LineHeightPx + PaddingPx
  {
    var h := lines * LineHeightPx + PaddingPx;
    if h < MinHeightPx then MinHeightPx else h
  }

  /** More lines never give a smaller block. */
  lemma EditorHeightMonotone(m: int, n: int)
    requires m <= n
    ensures EditorHeight(m) <= EditorHeight(n)
  {
  }

  /** `code.split('\n').length`. */
  function LineCount(code: string): nat
  {
    |Split(code, '\n')|
  }

  /** The line count is the number of newlines plus one. */
  lemma LineCountIsNewlinesPlusOne(code: string)
    ensures LineCount(code) == CountChar(code, '\n') + 1
  {
    SplitCount(code, '\n');
  }

}
