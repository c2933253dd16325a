/**
 * Fenced figures (ParsedownExtra.php:550-615): a line of at least three `=` opens a figure, an
 * equal fence closes it, and either fence may carry a `[caption]` and an `{attrs}` annotation.
 */
module Figures {
  import opened Options
  import opened Strings
  import opened Lines
  import opened Attributes

  /** The length of the run of `c` at the head of `s`. */
  function Run(s: string, c: char): (n: nat)
    ensures n <= |s|
    ensures forall i :: 0 <= i < n ==> s[i] == c
    ensures n < |s| ==> s[n] != c
  {
    if s != [] && s[0] == c then 1 + Run(s[1..], c) else 0
  }

  /**
   * ` *(\{A+\})? *$` on the rest of a fence line: `Some(None)` for spaces only, `Some(Some(F))`
   * for an annotation `{F}` between spaces, `None` for anything else.
   */
  function TrailingAnnotation(t: string): (r: Option<Option<string>>)
  {
    Braced(DropTrailingSpaces(DropSpaces(t)))
  }

  /** The annotation group on its own: nothing, or `{F}` for an attribute fragment `F`. */
  function Braced(u: string): Option<Option<string>>
  {
    if u == [] then Some(None)
    else if |u| >= 2 && u[0] == '{' && u[|u| - 1] == '}' && IsAttrList(u[1..|u| - 1]) then
      Some(Some(u[1..|u| - 1]))
    else None
  }

  /** What a fence line carries: PHP's `$m[1]` without its brackets and `$m[2]` without its braces. */
  datatype Fence = Fence(caption: Option<string>, fragment: Option<string>)

  /**
   * `^C{3,} *(\[.*\])? *(\{A+\})? *$` for the fence character `C`. The greedy `.*` extends the
   * caption to the last `]` (an annotation holds no `]`). When only the annotation is present
   * PHP still sets `$m[1]`, to the empty string, so the caption is the empty string.
   */
  function MatchFence(text: string, c: char): (r: Option<Fence>)
    ensures Run(text, c) < 3 ==> r.None?
    ensures r.Some? && r.value.fragment.Some? ==> IsAttrList(r.value.fragment.value)
    ensures r.Some? && r.value.fragment.Some? ==> r.value.caption.Some?
    // A bare fence, with nothing but spaces after it, is always a fence, and the only one without a caption.
    ensures Run(text, c) >= 3 && AllSpaces(text[Run(text, c)..]) ==> r == Some(Fence(None, None))
    ensures r.Some? && r.value.caption.None? ==> AllSpaces(text[Run(text, c)..])
    // Otherwise what follows the fence and its spaces is a caption or an annotation.
    ensures r.Some? && !AllSpaces(text[Run(text, c)..]) ==>
      FenceTailShape(DropSpaces(text[Run(text, c)..]), r.value)
  {
    var n := Run(text, c);
    if n < 3 then None
    else
      var rest := DropSpaces(text[n..]);
      var r := FenceTail(rest);
      DropSpacesOfAllSpaces(text[n..]);
      FenceOfTail(text[n..], rest, r);
      r
  }

  /**
   * A fence line's tail after its spaces: `[caption]` with the caption running to the last `]`
   * and followed by an optional annotation, or an annotation alone with the empty caption.
   */
  predicate FenceTailShape(rest: string, f: Fence)
  {
    && rest != []
    && f.caption.Some?
    && (if rest[0] == '[' then
          var j := |f.caption.value| + 1;
          && j < |rest| && rest[..j + 1] == "[" + f.caption.value + "]"
          && ']' !in rest[j + 1..] && TrailingAnnotation(rest[j + 1..]) == Some(f.fragment)
        else
          rest[0] == '{' && f.caption.value == "" && f.fragment.Some?
          && TrailingAnnotation(rest) == Some(f.fragment))
  }

  lemma {:induction false} FenceOfTail(tail: string, rest: string, r: Option<Fence>)
    requires AllSpaces(tail) <==> rest == []
    requires rest == [] ==> r == Some(Fence(None, None))
    requires r.Some? && rest != [] ==> FenceTailShape(rest, r.value)
    ensures AllSpaces(tail) ==> r == Some(Fence(None, None))
    ensures r.Some? && r.value.caption.None? ==> AllSpaces(tail)
    ensures r.Some? && !AllSpaces(tail) ==> FenceTailShape(rest, r.value)
  {
    if r.Some? && rest != [] {
      assert r.value.caption.Some?;
    }
  }

  /** The fence line after its fence characters and the spaces that follow them. */
  function FenceTail(rest: string): (r: Option<Fence>)
    requires rest == [] || rest[0] != ' '
    ensures r.Some? && r.value.fragment.Some? ==> IsAttrList(r.value.fragment.value)
    ensures r.Some? && r.value.fragment.Some? ==> r.value.caption.Some?
    ensures rest == [] ==> r == Some(Fence(None, None))
    ensures r.Some? && rest != [] ==> FenceTailShape(rest, r.value)
  {
    if rest != [] && rest[0] == '[' then
      match LastIndexOf(rest, ']')
      case Some(j) =>
        (match TrailingAnnotation(rest[j + 1..])
         case Some(a) =>
           CaptionTailShape(rest, j, a);
           Some(Fence(Some(rest[1..j]), a))
         case None => None)
      case None => None
    else
      match TrailingAnnotation(rest)
      case Some(a) =>
        AnnotationTailShape(rest, a);
        Some(Fence(if a.Some? then Some("") else None, a))
      case None => None
  }

  lemma {:induction false} CaptionTailShape(rest: string, j: nat, a: Option<string>)
    requires j < |rest| && rest[0] == '[' && rest[j] == ']'
    requires forall k :: j < k < |rest| ==> rest[k] != ']'
    requires TrailingAnnotation(rest[j + 1..]) == Some(a)
    ensures 0 < j && FenceTailShape(rest, Fence(Some(rest[1..j]), a))
  {
    BracketedHead(rest, j);
  }

  lemma {:induction false} BracketedHead(rest: string, j: nat)
    requires j < |rest| && rest[0] == '[' && rest[j] == ']'
    requires forall k :: j < k < |rest| ==> rest[k] != ']'
    ensures 0 < j && |rest[1..j]| + 1 == j
    ensures rest[..j + 1] == "[" + rest[1..j] + "]" && ']' !in rest[j + 1..]
  {
    assert rest[..j + 1] == "[" + rest[1..j] + "]";
    var t := rest[j + 1..];
    forall k | 0 <= k < |t| ensures t[k] != ']' {
      assert t[k] == rest[j + 1 + k];
    }
  }

  lemma {:induction false} AnnotationTailShape(rest: string, a: Option<string>)
    requires (rest == [] || rest[0] != ' ') && (rest == [] || rest[0] != '[')
    requires TrailingAnnotation(rest) == Some(a)
    ensures rest == [] <==> a.None?
    ensures rest != [] ==> FenceTailShape(rest, Fence(Some(""), a))
  {
    if rest != [] {
      DropSpacesUnchanged(rest);
      var u := DropTrailingSpaces(rest);
      assert u != [] && u[0] == rest[0];
    }
  }

  /**
   * The figure block: the fence character, the body text, the caption and attributes from the
   * fences, whether the closing fence has been seen, and the base engine's blank-line flag.
   */
  datatype Figure = Figure(
    fence: char, text: string, caption: Option<string>,
    attributes: Option<map<string, string>>, complete: bool, interrupted: bool)

  function AttributesOf(fragment: Option<string>): Option<map<string, string>> {
    if fragment.Some? then Some(AttributeData(fragment.value)) else None
  }

  /** `blockFigure` (ParsedownExtra.php:550-573); the base engine offers it only `=` lines. */
  function BlockFigure(line: Line): (r: Option<Figure>)
    requires line.text != [] && line.text[0] == '='
    ensures r.Some? <==> MatchFence(line.text, '=').Some?
    ensures r.Some? ==> (
      && r.value.fence == '=' && r.value.text == "" && !r.value.complete && !r.value.interrupted
      && r.value.caption == MatchFence(line.text, '=').value.caption
      && r.value.attributes == AttributesOf(MatchFence(line.text, '=').value.fragment))
  {
    match MatchFence(line.text, line.text[0])
    case Some(f) => Some(Figure(line.text[0], "", f.caption, AttributesOf(f.fragment), false, false))
    case None => None
  }

  /** `blockFigureContinue` (ParsedownExtra.php:575-597). */
  function BlockFigureContinue(line: Line, figure: Figure): (r: Option<Figure>)
    ensures r.None? <==> figure.complete
    ensures r.Some? ==> !r.value.interrupted && r.value.fence == figure.fence
    ensures r.Some? && MatchFence(line.text, figure.fence).Some? ==> (
      var f := MatchFence(line.text, figure.fence).value;
      && r.value.complete && r.value.text == figure.text
      && r.value.caption == (if f.caption.Some? then f.caption else figure.caption)
      && r.value.attributes == (if f.fragment.Some? then AttributesOf(f.fragment) else figure.attributes))
    ensures r.Some? && MatchFence(line.text, figure.fence).None? ==>
      r.value == figure.(text := figure.text + "\n" + line.body, interrupted := false)
  {
    if figure.complete then None
    else
      match MatchFence(line.text, figure.fence)
      case Some(f) =>
        Some(figure.(
          caption := if f.caption.Some? then f.caption else figure.caption,
          attributes := if f.fragment.Some? then AttributesOf(f.fragment) else figure.attributes,
          complete := true,
          interrupted := false))
      case None => Some(figure.(text := figure.text + "\n" + line.body, interrupted := false))
  }

  /** The figure element's content: the body alone, or the body and a `figcaption`. */
  datatype FigureContent = Plain(text: string) | Captioned(text: string, figcaption: string)

  datatype FigureElement = FigureElement(content: FigureContent, attributes: Option<map<string, string>>)

  /**
   * `blockFigureComplete` (ParsedownExtra.php:599-615): a caption becomes a `figcaption` holding
   * its inline rendering, whose tags stripped become the `title` attribute. `inline` and
   * `stripTags` stand for the base engine's `line` and PHP's `strip_tags`.
   */
  function BlockFigureComplete(figure: Figure, inline: string -> string, stripTags: string -> string): (e: FigureElement)
    ensures figure.caption.None? ==> e == FigureElement(Plain(figure.text), figure.attributes)
    ensures figure.caption.Some? ==> (
      var caption := inline(figure.caption.value);
      && e.content == Captioned(figure.text, caption)
      && e.attributes.Some?
      && "title" in e.attributes.value && e.attributes.value["title"] == stripTags(caption)
      && (forall k :: k != "title" ==>
            (k in e.attributes.value <==> figure.attributes.Some? && k in figure.attributes.value))
      && (forall k :: k != "title" && k in e.attributes.value ==>
            e.attributes.value[k] == figure.attributes.value[k]))
  {
    if figure.caption.None? then FigureElement(Plain(figure.text), figure.attributes)
    else
      var caption := inline(figure.caption.value);
      var attributes := if figure.attributes.Some? then figure.attributes.value else map[];
      FigureElement(Captioned(figure.text, caption), Some(attributes["title" := stripTags(caption)]))
  }

  // Fence lines written out and read back.

  function Repeat(c: char, n: nat): (s: string)
    ensures |s| == n && forall i :: 0 <= i < n ==> s[i] == c
  {
    if n == 0 then [] else [c] + Repeat(c, n - 1)
  }

  /** The annotation a fence line ends with, written out. */
  function AnnotationText(fragment: Option<string>): string {
    if fragment.Some? then " {" + fragment.value + "}" else ""
  }

  lemma AnnotationShape(f: string, u: string)
    requires u == "{" + f + "}"
    ensures |u| >= 2 && u[0] == '{' && u[|u| - 1] == '}' && u[1..|u| - 1] == f
  {
  }

  lemma AnnotationOfShape(f: string, u: string)
    requires IsAttrList(f) && |u| >= 2 && u[0] == '{' && u[|u| - 1] == '}' && u[1..|u| - 1] == f
    ensures TrailingAnnotation(u) == Some(Some(f))
  {
    NoSpacesAround(u);
    BracedOf(f, u);
  }

  lemma NoSpacesAround(u: string)
    requires |u| >= 2 && u[0] == '{' && u[|u| - 1] == '}'
    ensures DropTrailingSpaces(DropSpaces(u)) == u
  {
    DropSpacesUnchanged(u);
    DropTrailingSpacesUnchanged(u);
  }

  lemma BracedOf(f: string, u: string)
    requires IsAttrList(f) && |u| >= 2 && u[0] == '{' && u[|u| - 1] == '}' && u[1..|u| - 1] == f
    ensures Braced(u) == Some(Some(f))
  {
  }

  lemma AnnotationHasNoBracket(f: string, u: string)
    requires IsAttrList(f) && |u| >= 2 && u[0] == '{' && u[|u| - 1] == '}' && u[1..|u| - 1] == f
    ensures ']' !in u
  {
    AttrListChars(f);
    forall i | 0 <= i < |u| ensures u[i] != ']' {
      if 1 <= i < |u| - 1 {
        assert u[i] == f[i - 1];
      }
    }
  }

  /** `{F}` is read back as the annotation `F`, and holds no `]`. */
  lemma AnnotationOf(f: string, u: string)
    requires IsAttrList(f) && u == "{" + f + "}"
    ensures TrailingAnnotation(u) == Some(Some(f))
    ensures ']' !in u
  {
    AnnotationShape(f, u);
    AnnotationOfShape(f, u);
    AnnotationHasNoBracket(f, u);
  }

  lemma TrailingAnnotationSkipsSpace(u: string)
    ensures TrailingAnnotation([' '] + u) == TrailingAnnotation(u)
  {
    DropSpacesOfSpace(u);
  }

  lemma AnnotationTextShape(f: string)
    ensures AnnotationText(Some(f)) == [' '] + ("{" + f + "}")
  {
  }

  lemma NoBracketAfterSpace(u: string)
    requires ']' !in u
    ensures ']' !in [' '] + u
  {
    assert forall i :: 0 < i < |[' '] + u| ==> ([' '] + u)[i] == u[i - 1];
  }

  /** The annotation written out after a fence reads back, and holds no `]`. */
  lemma TrailingAnnotationOf(fragment: Option<string>)
    requires fragment.Some? ==> IsAttrList(fragment.value)
    ensures TrailingAnnotation(AnnotationText(fragment)) == Some(fragment)
    ensures ']' !in AnnotationText(fragment)
  {
    if fragment.Some? {
      var f := fragment.value;
      var u := "{" + f + "}";
      AnnotationTextShape(f);
      AnnotationOf(f, u);
      TrailingAnnotationSkipsSpace(u);
      NoBracketAfterSpace(u);
    }
  }

  lemma RunOfRepeat(c: char, n: nat, rest: string)
    requires rest == [] || rest[0] != c
    ensures Run(Repeat(c, n) + rest, c) == n
  {
    if n > 0 {
      assert (Repeat(c, n) + rest)[1..] == Repeat(c, n - 1) + rest;
      RunOfRepeat(c, n - 1, rest);
    } else {
      assert Repeat(c, n) + rest == rest;
    }
  }

  lemma CaptionParts(caption: string, tail: string, rest: string)
    requires ']' !in tail && rest == "[" + caption + "]" + tail
    ensures rest != [] && rest[0] == '['
    ensures LastIndexOf(rest, ']') == Some(|caption| + 1)
    ensures rest[1..|caption| + 1] == caption && rest[|caption| + 2..] == tail
  {
    var j := |caption| + 1;
    forall k | j < k < |rest| ensures rest[k] != ']' {
      assert rest[k] == tail[k - j - 1];
    }
    LastIndexOfAt(rest, ']', j);
  }

  /** A fence of `n` characters followed by a space and `rest`. */
  lemma FenceThenSpace(n: nat, rest: string, text: string)
    requires text == Repeat('=', n) + ([' '] + rest)
    requires rest == [] || rest[0] != ' '
    ensures Run(text, '=') == n && DropSpaces(text[n..]) == rest
  {
    RunOfRepeat('=', n, [' '] + rest);
    assert text[n..] == [' '] + rest;
    DropSpacesOfSpace(rest);
    DropSpacesUnchanged(rest);
  }

  lemma MatchFenceOfRest(text: string, n: nat, rest: string)
    requires Run(text, '=') == n && n >= 3 && DropSpaces(text[n..]) == rest
    ensures MatchFence(text, '=') == FenceTail(rest)
  {
  }

  lemma FenceTailOfParts(rest: string, j: nat, fragment: Option<string>)
    requires 0 < j < |rest| && rest[0] == '[' && LastIndexOf(rest, ']') == Some(j)
    requires TrailingAnnotation(rest[j + 1..]) == Some(fragment)
    ensures FenceTail(rest) == Some(Fence(Some(rest[1..j]), fragment))
  {
  }

  /**
   * A fence of `n >= 3` characters, a caption in brackets (which may itself hold brackets) and an
   * optional annotation reads back as that caption and annotation.
   */
  lemma {:induction false} FenceRoundTrip(n: nat, caption: string, fragment: Option<string>, text: string)
    requires n >= 3
    requires fragment.Some? ==> IsAttrList(fragment.value)
    requires text == Repeat('=', n) + " [" + caption + "]" + AnnotationText(fragment)
    ensures MatchFence(text, '=') == Some(Fence(Some(caption), fragment))
  {
    var tail := AnnotationText(fragment);
    var rest := "[" + caption + "]" + tail;
    assert text == Repeat('=', n) + ([' '] + rest);
    TrailingAnnotationOf(fragment);
    CaptionParts(caption, tail, rest);
    FenceThenSpace(n, rest, text);
    MatchFenceOfRest(text, n, rest);
    FenceTailOfParts(rest, |caption| + 1, fragment);
  }

  lemma MatchFenceOfAnnotation(text: string, n: nat, rest: string, fragment: string)
    requires Run(text, '=') == n && n >= 3 && DropSpaces(text[n..]) == rest
    requires rest != [] && rest[0] == '{' && TrailingAnnotation(rest) == Some(Some(fragment))
    ensures MatchFence(text, '=') == Some(Fence(Some(""), Some(fragment)))
  {
    FenceTailOfAnnotation(rest, fragment);
  }

  lemma FenceTailOfAnnotation(rest: string, fragment: string)
    requires rest != [] && rest[0] == '{' && TrailingAnnotation(rest) == Some(Some(fragment))
    ensures FenceTail(rest) == Some(Fence(Some(""), Some(fragment)))
  {
  }

  /** A fence with an annotation and no caption reads back with the empty caption. */
  lemma {:induction false} AnnotationOnlyGivesEmptyCaption(n: nat, fragment: string, text: string)
    requires n >= 3 && IsAttrList(fragment)
    requires text == Repeat('=', n) + AnnotationText(Some(fragment))
    ensures MatchFence(text, '=') == Some(Fence(Some(""), Some(fragment)))
  {
    var u := "{" + fragment + "}";
    AnnotationTextShape(fragment);
    AnnotationShape(fragment, u);
    FenceThenSpace(n, u, text);
    AnnotationOf(fragment, u);
    MatchFenceOfAnnotation(text, n, u, fragment);
  }

  /** `n >= 3` fence characters and spaces: the usual closing fence, with no caption or annotation. */
  lemma {:induction false} BareFence(n: nat, spaces: string)
    requires n >= 3 && AllSpaces(spaces)
    ensures MatchFence(Repeat('=', n) + spaces, '=') == Some(Fence(None, None))
  {
    var text := Repeat('=', n) + spaces;
    RunOfRepeat('=', n, spaces);
    assert text[n..] == spaces;
  }

  /** After the fence and its spaces, anything but `[` or `{` makes the line no fence at all. */
  lemma {:induction false} JunkAfterFence(n: nat, spaces: string, t: string)
    requires n >= 3 && AllSpaces(spaces)
    requires t != [] && t[0] != ' ' && t[0] != '=' && t[0] != '[' && t[0] != '{'
    ensures MatchFence(Repeat('=', n) + spaces + t, '=').None?
  {
    var text := Repeat('=', n) + spaces + t;
    FenceThenSpaces(n, spaces, t, text);
    MatchFenceOfRest(text, n, t);
  }

  /**
   * After the fence, its spaces and `[caption]` (the caption running to the last `]`), the line is
   * a fence exactly when the rest is an optional annotation between spaces, and then it carries
   * that caption and annotation. A line with `[` and no `]` after the fence is no fence.
   */
  lemma {:induction false} FenceWithCaption(n: nat, spaces: string, caption: string, t: string)
    requires n >= 3 && AllSpaces(spaces) && ']' !in t
    ensures var r := MatchFence(Repeat('=', n) + spaces + "[" + caption + "]" + t, '=');
      && (r.Some? <==> TrailingAnnotation(t).Some?)
      && (r.Some? ==> r.value == Fence(Some(caption), TrailingAnnotation(t).value))
  {
    var rest := "[" + caption + "]" + t;
    var text := Repeat('=', n) + spaces + rest;
    assert Repeat('=', n) + spaces + "[" + caption + "]" + t == text;
    FenceThenSpaces(n, spaces, rest, text);
    MatchFenceOfRest(text, n, rest);
    CaptionParts(caption, t, rest);
    FenceTailOfCaption(rest, |caption| + 1);
  }

  lemma {:induction false} FenceTailOfCaption(rest: string, j: nat)
    requires 0 < j < |rest| && rest[0] == '[' && LastIndexOf(rest, ']') == Some(j)
    ensures var r := FenceTail(rest);
      && (r.Some? <==> TrailingAnnotation(rest[j + 1..]).Some?)
      && (r.Some? ==> r.value == Fence(Some(rest[1..j]), TrailingAnnotation(rest[j + 1..]).value))
  {
  }

  lemma {:induction false} NoClosingBracket(n: nat, spaces: string, t: string)
    requires n >= 3 && AllSpaces(spaces) && ']' !in t
    ensures MatchFence(Repeat('=', n) + spaces + "[" + t, '=').None?
  {
    var rest := "[" + t;
    var text := Repeat('=', n) + spaces + rest;
    assert Repeat('=', n) + spaces + "[" + t == text;
    FenceThenSpaces(n, spaces, rest, text);
    MatchFenceOfRest(text, n, rest);
    FenceTailWithoutBracket(t);
  }

  lemma {:induction false} FenceTailWithoutBracket(t: string)
    requires ']' !in t
    ensures FenceTail("[" + t).None?
  {
    assert ']' !in "[" + t;
  }

  /** The fence, spaces and a rest that starts with neither: the run and the rest after the spaces. */
  lemma {:induction false} FenceThenSpaces(n: nat, spaces: string, rest: string, text: string)
    requires AllSpaces(spaces) && (rest == [] || (rest[0] != ' ' && rest[0] != '='))
    requires text == Repeat('=', n) + spaces + rest
    ensures Run(text, '=') == n && DropSpaces(text[n..]) == rest
  {
    assert text == Repeat('=', n) + (spaces + rest);
    assert spaces + rest == [] || (spaces + rest)[0] != '=' by {
      if spaces != [] { assert (spaces + rest)[0] == spaces[0]; }
      else { assert spaces + rest == rest; }
    }
    RunOfRepeat('=', n, spaces + rest);
    assert text[n..] == spaces + rest;
    DropSpacesOfPadding(spaces, rest);
  }

  // A whole figure.

  /** One step of the base engine's loop; the block ends at the first line it declines. */
  function Step(figure: Figure, input: Input): Option<Figure>
  {
    match input
    case Blank => Some(figure.(interrupted := true))
    case NonBlank(line) => BlockFigureContinue(line, figure)
  }

  function ContinueAll(figure: Figure, inputs: seq<Input>): Option<Figure>
    decreases |inputs|
  {
    if inputs == [] then Some(figure)
    else
      var next := Step(figure, inputs[0]);
      if next.None? then None else ContinueAll(next.value, inputs[1..])
  }

  /** The body lines among the inputs, each after a newline; blank lines contribute nothing. */
  function Bodies(inputs: seq<Input>): string
  {
    if inputs == [] then ""
    else (if inputs[0].NonBlank? then "\n" + inputs[0].line.body else "") + Bodies(inputs[1..])
  }

  /**
   * Until the closing fence, every line is appended to the figure's text after a newline, and
   * blank lines are lost: the text gains exactly the lines' bodies.
   */
  lemma {:induction false} BodyLinesAppended(figure: Figure, inputs: seq<Input>)
    requires !figure.complete
    requires forall i :: 0 <= i < |inputs| && inputs[i].NonBlank? ==> MatchFence(inputs[i].line.text, figure.fence).None?
    ensures var r := ContinueAll(figure, inputs);
      && r.Some? && !r.value.complete && r.value.fence == figure.fence
      && r.value.text == figure.text + Bodies(inputs)
      && r.value.caption == figure.caption && r.value.attributes == figure.attributes
    decreases |inputs|
  {
    if inputs != [] {
      var next := Step(figure, inputs[0]).value;
      BodyLinesAppended(next, inputs[1..]);
      var b := if inputs[0].NonBlank? then "\n" + inputs[0].line.body else "";
      assert figure.text + b + Bodies(inputs[1..]) == figure.text + Bodies(inputs);
    }
  }
}
