/**
 * Blockquotes with an optional attribute annotation on the opening line
 * (ParsedownExtra.php:501-545).
 */
module Blockquotes {
  import opened Options
  import opened Strings
  import opened Lines
  import opened Attributes

  /** The quote block: its lines, its attributes and the base engine's blank-line flag. */
  datatype Quote = Quote(lines: seq<string>, attributes: map<string, string>, interrupted: bool)

  /**
   * `blockQuote` (ParsedownExtra.php:501-520), the match of `^> ?(\{A+\})? ?(.*)`: the first line
   * is what follows the `>`, an optional space, the optional annotation and one more optional
   * space. The attributes are always set; without an annotation they are empty.
   */
  function BlockQuote(line: Line): (r: Option<Quote>)
    ensures r.Some? <==> line.text != [] && line.text[0] == '>'
    ensures r.Some? ==> |r.value.lines| == 1 && !r.value.interrupted
    ensures r.Some? && LeadingAnnotation(DropOneSpace(line.text[1..])).None? ==>
      r.value == Quote([DropOneSpace(DropOneSpace(line.text[1..]))], map[], false)
    ensures r.Some? && LeadingAnnotation(DropOneSpace(line.text[1..])).Some? ==> (
      var s := DropOneSpace(line.text[1..]);
      var f := LeadingAnnotation(s).value;
      && |f| + 2 <= |s| && s[..|f| + 2] == "{" + f + "}"
      && r.value == Quote([DropOneSpace(s[|f| + 2..])], AttributeData(f), false))
  {
    if line.text == [] || line.text[0] != '>' then None
    else
      var s := DropOneSpace(line.text[1..]);
      match LeadingAnnotation(s)
      case Some(f) => Some(Quote([DropOneSpace(s[|f| + 2..])], AttributeData(f), false))
      case None => Some(Quote([DropOneSpace(s)], map[], false))
  }

  /** `blockQuoteContinue` (ParsedownExtra.php:522-545); it reads the line's `body`. */
  function BlockQuoteContinue(line: Line, quote: Quote): (r: Option<Quote>)
    ensures r.Some? ==> r.value.attributes == quote.attributes && !r.value.interrupted
    ensures line.body != [] && line.body[0] == '>' ==> (
      var content := DropOneSpace(line.body[1..]);
      && (r.None? <==> content != [] && (content[0] == '{' || content[0] == '('))
      && (r.Some? ==> r.value.lines == quote.lines + (if quote.interrupted then [""] else []) + [content]))
    ensures !(line.body != [] && line.body[0] == '>') ==>
      r == if quote.interrupted then None else Some(quote.(lines := quote.lines + [line.body]))
  {
    if line.body != [] && line.body[0] == '>' then
      var content := DropOneSpace(line.body[1..]);
      if content != [] && (content[0] == '{' || content[0] == '(') then None
      else
        var lines := if quote.interrupted then quote.lines + [""] else quote.lines;
        Some(Quote(lines + [content], quote.attributes, false))
    else if !quote.interrupted then
      Some(quote.(lines := quote.lines + [line.body]))
    else
      None
  }

  /** One step of the base engine's loop; the block ends at the first line it declines. */
  function Step(quote: Quote, input: Input): Option<Quote>
  {
    match input
    case Blank => Some(quote.(interrupted := true))
    case NonBlank(line) => BlockQuoteContinue(line, quote)
  }

  function ContinueAll(quote: Quote, inputs: seq<Input>): Option<Quote>
    decreases |inputs|
  {
    if inputs == [] then Some(quote)
    else
      var next := Step(quote, inputs[0]);
      if next.None? then None else ContinueAll(next.value, inputs[1..])
  }

  /** The lines `> c` for each content `c`. */
  function Quoted(contents: seq<string>): (r: seq<Input>)
    ensures |r| == |contents|
  {
    if contents == [] then []
    else [NonBlank(Line("> " + contents[0], 0, "> " + contents[0]))] + Quoted(contents[1..])
  }

  /** A `> c` line continues an open quote with `c`, unless `c` starts with `{` or `(`. */
  lemma QuotedLineContinues(quote: Quote, c: string)
    requires !quote.interrupted
    requires c == [] || (c[0] != '{' && c[0] != '(')
    ensures BlockQuoteContinue(Line("> " + c, 0, "> " + c), quote) == Some(quote.(lines := quote.lines + [c]))
  {
    var body := "> " + c;
    assert body[0] == '>';
    assert body[1..] == " " + c;
    assert DropOneSpace(body[1..]) == c;
  }

  /**
   * Writing contents out as `> c` lines and reading them back into an open quote appends exactly
   * those contents, as long as none starts with `{` or `(`.
   */
  lemma {:induction false} QuotedLinesRecovered(quote: Quote, contents: seq<string>)
    requires !quote.interrupted
    requires forall i :: 0 <= i < |contents| ==> contents[i] == [] || (contents[i][0] != '{' && contents[i][0] != '(')
    ensures ContinueAll(quote, Quoted(contents)) == Some(quote.(lines := quote.lines + contents))
    decreases |contents|
  {
    if contents == [] {
      assert quote.lines + contents == quote.lines;
    } else {
      var c := contents[0];
      QuotedLineContinues(quote, c);
      var next := quote.(lines := quote.lines + [c]);
      var inputs := Quoted(contents);
      assert inputs[0] == NonBlank(Line("> " + c, 0, "> " + c));
      assert Step(quote, inputs[0]) == Some(next);
      assert inputs[1..] == Quoted(contents[1..]);
      QuotedLinesRecovered(next, contents[1..]);
      assert next.lines + contents[1..] == quote.lines + contents;
    }
  }

  lemma OpeningLineParts(fragment: string, content: string, line: Line, s: string, rest: string)
    requires IsAttrList(fragment)
    requires rest == " " + content && s == "{" + fragment + "}" + rest
    requires line.text == ">" + (" " + s)
    ensures BlockQuote(line) == Some(Quote([content], AttributeData(fragment), false))
  {
    assert line.text[1..] == " " + s;
    assert DropOneSpace(line.text[1..]) == s;
    LeadingAnnotationOf(fragment, rest);
    assert s[|fragment| + 2..] == rest;
    var r := BlockQuote(line);
    assert r.value.lines == [content];
    assert r.value.attributes == AttributeData(fragment);
  }

  /**
   * An opening line `>{F}` with or without a space after the `>`, then the rest: the quote carries
   * the attributes of `F`, and its first line is the rest less at most one leading space.
   */
  lemma {:induction false} AnnotatedOpening(space: string, fragment: string, rest: string, line: Line)
    requires space == "" || space == " "
    requires IsAttrList(fragment)
    requires line.text == ">" + space + "{" + fragment + "}" + rest
    ensures BlockQuote(line) == Some(Quote([DropOneSpace(rest)], AttributeData(fragment), false))
  {
    var s := "{" + fragment + "}" + rest;
    AfterMarker(space, s, line.text);
    AnnotatedOpeningOf(line, s, fragment, rest);
  }

  lemma {:induction false} AfterMarker(space: string, s: string, text: string)
    requires space == "" || space == " "
    requires s != [] && s[0] == '{'
    requires text == ">" + space + s
    ensures text != [] && text[0] == '>' && DropOneSpace(text[1..]) == s
  {
    assert text == ">" + (space + s);
    assert text[1..] == space + s;
  }

  lemma {:induction false} AnnotatedOpeningOf(line: Line, s: string, fragment: string, rest: string)
    requires line.text != [] && line.text[0] == '>' && DropOneSpace(line.text[1..]) == s
    requires IsAttrList(fragment) && s == "{" + fragment + "}" + rest
    ensures BlockQuote(line) == Some(Quote([DropOneSpace(rest)], AttributeData(fragment), false))
  {
    LeadingAnnotationOf(fragment, rest);
    assert s[|fragment| + 2..] == rest;
  }

  /** An opening line `> {F} c` carries the attributes of `F` and the first line `c`. */
  lemma OpeningAnnotationRecovered(fragment: string, content: string, line: Line)
    requires IsAttrList(fragment)
    requires line.text == "> {" + fragment + "} " + content
    ensures BlockQuote(line) == Some(Quote([content], AttributeData(fragment), false))
  {
    var rest := " " + content;
    var s := "{" + fragment + "}" + rest;
    assert line.text == ">" + (" " + s);
    OpeningLineParts(fragment, content, line, s, rest);
  }
}
