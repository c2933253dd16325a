/**
 * The footnote definition block (ParsedownExtra.php:89-136): a `[^name]: text` line opens it,
 * following lines extend its text, and on completion the definition goes to the registry.
 */
module FootnoteBlocks {
  import opened Options
  import opened Strings
  import opened Lines

  /** The block record: the label, the text gathered so far and the base engine's blank-line flag. */
  datatype FootnoteBlock = FootnoteBlock(name: string, text: string, interrupted: bool)

  /** `blockFootnote` (ParsedownExtra.php:89-101): a definition line opens a block. */
  function BlockFootnote(line: Line): (b: Option<FootnoteBlock>)
    ensures b.Some? <==> FootnoteDefinition(line.text).Some?
    ensures b.Some? ==> (
      && Definition(b.value.name, b.value.text) == FootnoteDefinition(line.text).value
      && !b.value.interrupted)
  {
    match FootnoteDefinition(line.text)
    case Some(d) => Some(FootnoteBlock(d.name, d.text, false))
    case None => None
  }

  /** `blockFootnoteContinue` (ParsedownExtra.php:103-125). */
  function BlockFootnoteContinue(line: Line, block: FootnoteBlock): (r: Option<FootnoteBlock>)
    ensures FootnoteDefinition(line.text).Some? ==> r.None?
    ensures FootnoteDefinition(line.text).None? && !block.interrupted ==>
      r == Some(block.(text := block.text + "\n" + line.text))
    ensures FootnoteDefinition(line.text).None? && block.interrupted ==>
      (r.Some? <==> line.indent >= 4)
    ensures r.Some? && block.interrupted ==> r.value.text == block.text + "\n\n" + line.text
    ensures r.Some? ==> r.value.name == block.name && r.value.interrupted == block.interrupted
  {
    if FootnoteDefinition(line.text).Some? then None
    else if block.interrupted then
      if line.indent >= 4 then Some(block.(text := block.text + "\n\n" + line.text)) else None
    else Some(block.(text := block.text + "\n" + line.text))
  }

  /** One step of the base engine's loop; the block ends at the first line it declines. */
  function Step(block: FootnoteBlock, input: Input): Option<FootnoteBlock>
  {
    match input
    case Blank => Some(block.(interrupted := true))
    case NonBlank(line) => BlockFootnoteContinue(line, block)
  }

  function ContinueAll(block: FootnoteBlock, inputs: seq<Input>): Option<FootnoteBlock>
    decreases |inputs|
  {
    if inputs == [] then Some(block)
    else
      var next := Step(block, inputs[0]);
      if next.None? then None else ContinueAll(next.value, inputs[1..])
  }

  /**
   * However many lines a footnote block absorbs, its label is unchanged and the text it started
   * with is a prefix of its final text.
   */
  lemma {:induction false} ContinueAllExtends(block: FootnoteBlock, inputs: seq<Input>)
    ensures ContinueAll(block, inputs).Some? ==> (
      && ContinueAll(block, inputs).value.name == block.name
      && StartsWith(ContinueAll(block, inputs).value.text, block.text))
    decreases |inputs|
  {
    if inputs != [] {
      var next := Step(block, inputs[0]);
      if next.Some? {
        ContinueAllExtends(next.value, inputs[1..]);
        var t := ContinueAll(block, inputs);
        if t.Some? {
          assert next.value.text[..|block.text|] == block.text;
          assert t.value.text[..|next.value.text|] == next.value.text;
          assert t.value.text[..|block.text|] == next.value.text[..|block.text|];
        }
      }
    }
  }

  /**
   * Nothing clears `interrupted`: after one blank line, every later line is joined with a blank
   * line in between, and an unindented line ends the footnote even with no blank line before it.
   */
  lemma {:induction false} InterruptedIsSticky(block: FootnoteBlock, inputs: seq<Input>)
    requires block.interrupted
    ensures ContinueAll(block, inputs).Some? ==> ContinueAll(block, inputs).value.interrupted
    decreases |inputs|
  {
    if inputs != [] {
      var next := Step(block, inputs[0]);
      if next.Some? {
        InterruptedIsSticky(next.value, inputs[1..]);
      }
    }
  }
}
