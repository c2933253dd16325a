/**
 * Definition lists (ParsedownExtra.php:141-201, :343-366): a `:` line turns the paragraph above
 * it into a `dl` whose terms are the paragraph's lines; every `:` line opens a `dd`, and other
 * lines extend the last one.
 */
module DefinitionLists {
  import opened Options
  import opened Strings
  import opened Lines

  /** The block before the `:` line, as far as the list reads it: whether the base engine gave it a
    * `type` (a paragraph has none), its element text, and its blank-line flag. */
  datatype Prior = Prior(typed: bool, text: string, interrupted: bool)

  /** The renderer a `dd` asks for: `line` (inline only) or `text` (block content). */
  datatype Handler = LineHandler | TextHandler

  datatype Dd = Dd(handler: Handler, text: string)

  /**
   * The `dl` block: its `dt` texts, the `dd` elements before the last one, the last one (the
   * `$Block['dd']` that the element's last child refers to), and the blank-line flag.
   */
  datatype DefinitionList = DefinitionList(terms: seq<string>, earlier: seq<Dd>, current: Dd, interrupted: bool)

  /** All `dd` elements in order. */
  function Dds(list: DefinitionList): seq<Dd> {
    list.earlier + [list.current]
  }

  /** `substr($Line['text'], 1)`. */
  function AfterMarker(line: Line): string {
    if line.text == [] then [] else line.text[1..]
  }

  /** `addDdElement` (ParsedownExtra.php:343-366): a new last `dd`, which consumes the flag. */
  function AddDd(line: Line, terms: seq<string>, dds: seq<Dd>, interrupted: bool): (r: DefinitionList)
    ensures r.terms == terms && r.earlier == dds && !r.interrupted
    ensures r.current.text == Trim(AfterMarker(line))
    ensures r.current.handler == if interrupted then TextHandler else LineHandler
  {
    DefinitionList(terms, dds, Dd(if interrupted then TextHandler else LineHandler, Trim(AfterMarker(line))), false)
  }

  /** `blockDefinitionList` (ParsedownExtra.php:141-170). */
  function BlockDefinitionList(line: Line, prior: Option<Prior>): (r: Option<DefinitionList>)
    ensures r.Some? <==> prior.Some? && !prior.value.typed
    ensures r.Some? ==> (
      && Join(r.value.terms, "\n") == prior.value.text
      && (forall i :: 0 <= i < |r.value.terms| ==> '\n' !in r.value.terms[i])
      && r.value.earlier == []
      && r.value == AddDd(line, r.value.terms, [], prior.value.interrupted))
  {
    if prior.None? || prior.value.typed then None
    else Some(AddDd(line, Split(prior.value.text, '\n'), [], prior.value.interrupted))
  }

  /** `blockDefinitionListContinue` (ParsedownExtra.php:172-201). */
  function BlockDefinitionListContinue(line: Line, list: DefinitionList): (r: Option<DefinitionList>)
    ensures line.text != [] && line.text[0] == ':' ==>
      r == Some(AddDd(line, list.terms, Dds(list), list.interrupted))
    ensures !(line.text != [] && line.text[0] == ':') ==> (
      && (r.None? <==> list.interrupted && line.indent == 0)
      && (r.Some? ==>
            && r.value.terms == list.terms && r.value.earlier == list.earlier && !r.value.interrupted
            && r.value.current.handler == (if list.interrupted then TextHandler else list.current.handler)
            && r.value.current.text ==
                 list.current.text + (if list.interrupted then "\n\n" else "") + "\n"
                 + Substr(line.body, if line.indent < 4 then line.indent else 4)))
  {
    if line.text != [] && line.text[0] == ':' then
      Some(AddDd(line, list.terms, Dds(list), list.interrupted))
    else if list.interrupted && line.indent == 0 then
      None
    else
      var dd := if list.interrupted then Dd(TextHandler, list.current.text + "\n\n") else list.current;
      var text := Substr(line.body, if line.indent < 4 then line.indent else 4);
      Some(DefinitionList(list.terms, list.earlier, dd.(text := dd.text + "\n" + text), false))
  }

  /** Spaces beyond the fourth are kept: a continuation line loses at most four spaces of indent. */
  lemma ContinuationKeepsDeepIndent(line: Line, list: DefinitionList)
    requires ValidLine(line) && line.text[0] != ':' && !list.interrupted
    ensures var r := BlockDefinitionListContinue(line, list);
      && r.Some?
      && (line.indent <= 4 ==> r.value.current.text == list.current.text + "\n" + line.text)
      && (line.indent > 4 ==> r.value.current.text == list.current.text + "\n" + line.body[4..line.indent] + line.text)
  {
    if line.indent > 4 {
      assert line.body[4..] == line.body[4..line.indent] + line.body[line.indent..];
    }
  }

  // A whole list.

  /** One step of the base engine's loop; the block ends at the first line it declines. */
  function Step(list: DefinitionList, input: Input): Option<DefinitionList>
  {
    match input
    case Blank => Some(list.(interrupted := true))
    case NonBlank(line) => BlockDefinitionListContinue(line, list)
  }

  function ContinueAll(list: DefinitionList, inputs: seq<Input>): Option<DefinitionList>
    decreases |inputs|
  {
    if inputs == [] then Some(list)
    else
      var next := Step(list, inputs[0]);
      if next.None? then None else ContinueAll(next.value, inputs[1..])
  }

  predicate IsDdLine(input: Input) {
    input.NonBlank? && input.line.text != [] && input.line.text[0] == ':'
  }

  /** The number of `:` lines among the inputs. */
  function DdLines(inputs: seq<Input>): nat
  {
    if inputs == [] then 0 else (if IsDdLine(inputs[0]) then 1 else 0) + DdLines(inputs[1..])
  }

  /**
   * Continuing a list never changes its terms nor the `dd` elements it already had except the
   * last, and it gains exactly one `dd` per `:` line.
   */
  lemma {:induction false} ContinueAllShape(list: DefinitionList, inputs: seq<Input>)
    ensures var r := ContinueAll(list, inputs);
      r.Some? ==> (
        && r.value.terms == list.terms
        && |Dds(r.value)| == |Dds(list)| + DdLines(inputs)
        && list.earlier <= r.value.earlier)
    decreases |inputs|
  {
    if inputs != [] {
      var next := Step(list, inputs[0]);
      if next.Some? {
        ContinueAllShape(next.value, inputs[1..]);
      }
    }
  }

  /** A blank line followed by an indented line turns the last `dd` into block content. */
  lemma BlankThenIndentedIsBlockContent(list: DefinitionList, line: Line)
    requires line.text != [] && line.text[0] != ':' && line.indent > 0
    ensures var r := ContinueAll(list, [Blank, NonBlank(line)]);
      && r.Some?
      && r.value.current.handler == TextHandler
      && !r.value.interrupted
      && StartsWith(r.value.current.text, list.current.text + "\n\n\n")
  {
    var once := list.(interrupted := true);
    assert [Blank, NonBlank(line)][1..] == [NonBlank(line)];
    assert [NonBlank(line)][1..] == [];
    var r := BlockDefinitionListContinue(line, once);
    assert r.Some?;
    assert ContinueAll(once, [NonBlank(line)]) == ContinueAll(r.value, []);
    assert ContinueAll(list, [Blank, NonBlank(line)]) == ContinueAll(once, [NonBlank(line)]);
    var prefix := list.current.text + "\n\n\n";
    assert r.value.current.text[..|prefix|] == prefix;
  }

  /** A blank line followed by an unindented line that is not a `:` line ends the list. */
  lemma BlankThenUnindentedEnds(list: DefinitionList, line: Line)
    requires line.text != [] && line.text[0] != ':' && line.indent == 0
    ensures ContinueAll(list, [Blank, NonBlank(line)]).None?
  {
    assert [Blank, NonBlank(line)][1..] == [NonBlank(line)];
  }
}
