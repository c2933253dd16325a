/**
 * Attribute annotations on headings and links: `## Title {#id .class}` (ParsedownExtra.php:206-220),
 * a setext heading's `Title {#id}` line (ParsedownExtra.php:238-252) and `[text](url){.class}`
 * (ParsedownExtra.php:302-316). The base engine builds the heading or link; this layer only looks
 * for an annotation, parses it and strips it from the text or consumes it from the input.
 */
module Headers {
  import opened Options
  import opened Strings
  import opened Lines
  import opened Attributes

  /** The heading element the base engine returns: its tag name, its text and its attributes. */
  datatype Element = Element(name: string, text: string, attributes: map<string, string>)

  /** Characters allowed between a heading's text and its annotation: `[ #]` for atx headings. */
  const AtxMarks: set<char> := {' ', '#'}

  /** `[ ]` for setext headings. */
  const SetextMarks: set<char> := {' '}

  /** The length of the run of `marks` characters at the end of `s`. */
  function TrailingRun(s: string, marks: set<char>): (n: nat)
    ensures n <= |s|
    ensures forall i :: |s| - n <= i < |s| ==> s[i] in marks
    ensures n < |s| ==> s[|s| - 1 - n] !in marks
  {
    if s != [] && s[|s| - 1] in marks then 1 + TrailingRun(s[..|s| - 1], marks) else 0
  }

  /** A heading text split at its annotation: the text kept and the fragment between the braces. */
  datatype Annotated = Annotated(kept: string, fragment: string)

  /**
   * The leftmost match of `M*\{(A+)\}[ ]*$` with its offset, `M` being the marks: the annotation
   * is the last `{` up to a final `}`, since a fragment holds no braces, and the match starts where
   * the run of marks before that `{` starts. The text kept is everything before the match.
   */
  function TrailingAnnotation(text: string, marks: set<char>): (r: Option<Annotated>)
    ensures r.Some? ==> IsAttrList(r.value.fragment)
    ensures r.Some? ==> StartsWith(text, r.value.kept)
    ensures r.Some? && r.value.kept != [] ==> r.value.kept[|r.value.kept| - 1] !in marks
  {
    var u := DropTrailingSpaces(text);
    if u == [] || u[|u| - 1] != '}' then None
    else
      match LastIndexOf(u, '{')
      case None => None
      case Some(k) =>
        var fragment := u[k + 1..|u| - 1];
        if !IsAttrList(fragment) then None
        else
          var p := k - TrailingRun(text[..k], marks);
          assert text[..p] == text[..k][..p];
          Some(Annotated(text[..p], fragment))
  }

  /** The annotation applied to a heading: the fragment's attributes replace the element's. */
  function Annotate(element: Element, marks: set<char>): (r: Element)
    ensures r.name == element.name
    ensures TrailingAnnotation(element.text, marks).None? ==> r == element
    ensures TrailingAnnotation(element.text, marks).Some? ==>
      && StartsWith(element.text, r.text) && |r.text| < |element.text|
      && r.attributes == AttributeData(TrailingAnnotation(element.text, marks).value.fragment)
  {
    match TrailingAnnotation(element.text, marks)
    case None => element
    case Some(a) =>
      AnnotatedIsShorter(element.text, marks);
      element.(text := a.kept, attributes := AttributeData(a.fragment))
  }

  /** `blockHeader` (ParsedownExtra.php:206-220): `parent` is what the base engine made of the line. */
  function BlockHeader(parent: Option<Element>): (r: Option<Element>)
    ensures r.Some? <==> parent.Some?
    ensures r.Some? ==> r.value == Annotate(parent.value, AtxMarks)
  {
    if parent.None? then None else Some(Annotate(parent.value, AtxMarks))
  }

  /** `blockSetextHeader` (ParsedownExtra.php:238-252), on the heading the base engine made. */
  function BlockSetextHeader(parent: Option<Element>): (r: Option<Element>)
    ensures r.Some? <==> parent.Some?
    ensures r.Some? ==> r.value == Annotate(parent.value, SetextMarks)
  {
    if parent.None? then None else Some(Annotate(parent.value, SetextMarks))
  }

  /** The kept text is strictly shorter: at least the braces go. */
  lemma AnnotatedIsShorter(text: string, marks: set<char>)
    requires TrailingAnnotation(text, marks).Some?
    ensures |TrailingAnnotation(text, marks).value.kept| < |text|
  {
  }

  // Reading back an annotated heading.

  /** Trailing spaces after a non-space end are dropped exactly. */
  lemma DropTrailingSpacesOfPadded(x: string, trail: string)
    requires x != [] && x[|x| - 1] != ' '
    requires forall i :: 0 <= i < |trail| ==> trail[i] == ' '
    ensures DropTrailingSpaces(x + trail) == x
  {
    var s := x + trail;
    var r := DropTrailingSpaces(s);
    assert s[|x| - 1] == x[|x| - 1];
    assert |r| == |x|;
    assert r == s[..|x|] == x;
  }

  /** A run of marks after a text that does not end in one is counted exactly. */
  lemma {:induction false} TrailingRunOf(base: string, sep: string, marks: set<char>)
    requires base == [] || base[|base| - 1] !in marks
    requires forall i :: 0 <= i < |sep| ==> sep[i] in marks
    ensures TrailingRun(base + sep, marks) == |sep|
    decreases |sep|
  {
    if sep == [] {
      assert base + sep == base;
    } else {
      var init := sep[..|sep| - 1];
      assert (base + sep)[..|base + sep| - 1] == base + init;
      TrailingRunOf(base, init, marks);
    }
  }

  /** The shape of `{F}` ended text: where its last `{` is and what it encloses. */
  lemma BracedTail(head: string, fragment: string)
    requires IsAttrList(fragment)
    ensures var u := head + "{" + fragment + "}";
      && u[|u| - 1] == '}'
      && LastIndexOf(u, '{') == Some(|head|)
      && u[|head| + 1..|u| - 1] == fragment
      && u[..|head|] == head
  {
    var u := head + "{" + fragment + "}";
    AttrListChars(fragment);
    forall i | |head| < i < |u|
      ensures u[i] != '{'
    {
      if i < |u| - 1 {
        assert u[i] == fragment[i - |head| - 1];
      }
    }
    LastIndexOfAt(u, '{', |head|);
  }

  /**
   * A heading text, a run of marks, an annotation `{F}` and trailing spaces: the annotation is
   * found, and the text kept is the heading text without the marks.
   */
  lemma TrailingAnnotationOf(base: string, sep: string, fragment: string, trail: string, marks: set<char>)
    requires IsAttrList(fragment)
    requires base == [] || base[|base| - 1] !in marks
    requires forall i :: 0 <= i < |sep| ==> sep[i] in marks
    requires forall i :: 0 <= i < |trail| ==> trail[i] == ' '
    ensures TrailingAnnotation(base + sep + "{" + fragment + "}" + trail, marks) == Some(Annotated(base, fragment))
  {
    var head := base + sep;
    var u := head + "{" + fragment + "}";
    var text := u + trail;
    assert text == base + sep + "{" + fragment + "}" + trail;
    DropTrailingSpacesOfPadded(u, trail);
    BracedTail(head, fragment);
    var k := |head|;
    assert text[..k] == head;
    TrailingRunOf(base, sep, marks);
    assert text[..|base|] == base;
  }

  /**
   * `## Title ## {#id .a}`: an atx heading's closing hashes and spaces go with the annotation,
   * and its attributes are those the annotation gives.
   */
  lemma AtxHeadingRoundTrip(name: string, base: string, sep: string, fragment: string, trail: string, attributes: map<string, string>)
    requires IsAttrList(fragment)
    requires base == [] || base[|base| - 1] !in AtxMarks
    requires forall i :: 0 <= i < |sep| ==> sep[i] in AtxMarks
    requires forall i :: 0 <= i < |trail| ==> trail[i] == ' '
    ensures BlockHeader(Some(Element(name, base + sep + "{" + fragment + "}" + trail, attributes)))
      == Some(Element(name, base, AttributeData(fragment)))
  {
    TrailingAnnotationOf(base, sep, fragment, trail, AtxMarks);
  }

  /** A setext heading's annotation is stripped with the spaces before it, not with any `#`. */
  lemma SetextHeadingRoundTrip(name: string, base: string, sep: string, fragment: string, trail: string, attributes: map<string, string>)
    requires IsAttrList(fragment)
    requires base == [] || base[|base| - 1] != ' '
    requires forall i :: 0 <= i < |sep| ==> sep[i] == ' '
    requires forall i :: 0 <= i < |trail| ==> trail[i] == ' '
    ensures BlockSetextHeader(Some(Element(name, base + sep + "{" + fragment + "}" + trail, attributes)))
      == Some(Element(name, base, AttributeData(fragment)))
  {
    TrailingAnnotationOf(base, sep, fragment, trail, SetextMarks);
  }

  /** A heading whose text does not end in `}` (before trailing spaces) is left as it is. */
  lemma UnannotatedHeadingUnchanged(element: Element, marks: set<char>)
    requires var u := DropTrailingSpaces(element.text); u == [] || u[|u| - 1] != '}'
    ensures Annotate(element, marks) == element
  {
  }

  /**
   * `Title {foo}`: braces at the end that do not hold an attribute list (and no other brace)
   * are no annotation, and the heading is left as it is.
   */
  lemma {:induction false} BadAnnotationUnchanged(element: Element, marks: set<char>, base: string, inner: string, trail: string)
    requires '{' !in inner && !IsAttrList(inner)
    requires AllSpaces(trail)
    requires element.text == base + "{" + inner + "}" + trail
    ensures Annotate(element, marks) == element
  {
    var u := base + "{" + inner + "}";
    DropTrailingSpacesOfPadded(u, trail);
    forall i | |base| < i < |u| ensures u[i] != '{' {
      if i < |u| - 1 {
        assert u[i] == inner[i - |base| - 1];
      }
    }
    LastIndexOfAt(u, '{', |base|);
    assert u[|base| + 1..|u| - 1] == inner;
  }

  /** `Title}`: a final `}` with no `{` anywhere before it is no annotation. */
  lemma {:induction false} NoOpeningBraceUnchanged(element: Element, marks: set<char>)
    requires '{' !in element.text
    ensures Annotate(element, marks) == element
  {
    var u := DropTrailingSpaces(element.text);
    assert '{' !in u by {
      forall i | 0 <= i < |u| ensures u[i] != '{' {
        assert u[i] == element.text[i];
      }
    }
  }

  // Links.

  /** The link the base engine returns: the input length it consumed and its `a` attributes. */
  datatype Link = Link(extent: nat, attributes: map<string, string>)

  /** A `^[ ]*\{(A+)\}` match: its length and the fragment. */
  datatype LinkAnnotation = LinkAnnotation(length: nat, fragment: string)

  /** `^[ ]*\{(A+)\}` on the input after the link. */
  function LeadingLinkAnnotation(remainder: string): (r: Option<LinkAnnotation>)
    ensures r.Some? ==> IsAttrList(r.value.fragment) && r.value.length <= |remainder|
  {
    var n := SpaceRun(remainder);
    match LeadingAnnotation(remainder[n..])
    case Some(fragment) => Some(LinkAnnotation(n + |fragment| + 2, fragment))
    case None => None
  }

  /**
   * `inlineLink` (ParsedownExtra.php:302-316): an annotation right after the link adds its
   * attributes, keeping those the link already has (PHP's `+=` on arrays keeps the left-hand
   * keys), and the link consumes it too. Without a link there is nothing to annotate.
   */
  function InlineLink(excerpt: string, parent: Option<Link>): (r: Option<Link>)
    ensures r.Some? <==> parent.Some?
    ensures r.Some? ==> r.value.extent >= parent.value.extent
    ensures r.Some? ==> forall key :: key in parent.value.attributes ==>
      key in r.value.attributes && r.value.attributes[key] == parent.value.attributes[key]
    ensures r.Some? ==> r.value.attributes.Keys <= parent.value.attributes.Keys + {"id", "class"}
  {
    match parent
    case None => None
    case Some(link) =>
      match LeadingLinkAnnotation(Substr(excerpt, link.extent))
      case None => Some(link)
      case Some(m) => Some(Link(link.extent + m.length, AttributeData(m.fragment) + link.attributes))
  }

  /** A run of spaces before a non-space is counted exactly. */
  lemma {:induction false} SpaceRunOf(spaces: string, rest: string)
    requires forall i :: 0 <= i < |spaces| ==> spaces[i] == ' '
    requires rest == [] || rest[0] != ' '
    ensures SpaceRun(spaces + rest) == |spaces|
  {
    if spaces != [] {
      assert (spaces + rest)[1..] == spaces[1..] + rest;
      SpaceRunOf(spaces[1..], rest);
    } else {
      assert spaces + rest == rest;
    }
  }

  /**
   * `[text](url) {#id .a}`: a link followed by spaces and an annotation consumes both, and gains
   * the annotation's `id` and `class` unless it already has them.
   */
  lemma LinkAnnotationRoundTrip(consumed: string, spaces: string, fragment: string, rest: string, link: Link)
    requires |consumed| == link.extent
    requires forall i :: 0 <= i < |spaces| ==> spaces[i] == ' '
    requires IsAttrList(fragment)
    ensures var r := InlineLink(consumed + spaces + "{" + fragment + "}" + rest, Some(link));
      && r.Some?
      && r.value.extent == link.extent + |spaces| + |fragment| + 2
      && r.value.attributes == AttributeData(fragment) + link.attributes
  {
    var after := "{" + fragment + "}" + rest;
    LeadingAnnotationOf(fragment, rest);
    var excerpt := consumed + spaces + "{" + fragment + "}" + rest;
    LinkExcerptParts(consumed, spaces, fragment, rest);
    AnnotatedLink(excerpt, link, spaces, after, fragment);
  }

  lemma LinkExcerptParts(consumed: string, spaces: string, fragment: string, rest: string)
    ensures var after := "{" + fragment + "}" + rest;
      && after[0] == '{'
      && Substr(consumed + spaces + "{" + fragment + "}" + rest, |consumed|) == spaces + after
  {
    var after := "{" + fragment + "}" + rest;
    assert consumed + spaces + "{" + fragment + "}" + rest == consumed + (spaces + after);
  }

  lemma AnnotatedLink(excerpt: string, link: Link, spaces: string, after: string, fragment: string)
    requires forall i :: 0 <= i < |spaces| ==> spaces[i] == ' '
    requires Substr(excerpt, link.extent) == spaces + after
    requires after != [] && after[0] == '{' && LeadingAnnotation(after) == Some(fragment)
    ensures var r := InlineLink(excerpt, Some(link));
      && r.Some?
      && r.value.extent == link.extent + |spaces| + |fragment| + 2
      && r.value.attributes == AttributeData(fragment) + link.attributes
  {
    LinkAnnotationAt(spaces, after, fragment);
    LinkOfAnnotation(excerpt, link, LinkAnnotation(|spaces| + |fragment| + 2, fragment));
  }

  lemma LinkOfAnnotation(excerpt: string, link: Link, m: LinkAnnotation)
    requires LeadingLinkAnnotation(Substr(excerpt, link.extent)) == Some(m)
    ensures var r := InlineLink(excerpt, Some(link));
      && r.Some?
      && r.value.extent == link.extent + m.length
      && r.value.attributes == AttributeData(m.fragment) + link.attributes
  {
  }

  lemma LinkAnnotationAt(spaces: string, after: string, fragment: string)
    requires forall i :: 0 <= i < |spaces| ==> spaces[i] == ' '
    requires after != [] && after[0] == '{' && LeadingAnnotation(after) == Some(fragment)
    ensures LeadingLinkAnnotation(spaces + after) == Some(LinkAnnotation(|spaces| + |fragment| + 2, fragment))
  {
    SpaceRunOf(spaces, after);
    assert (spaces + after)[|spaces|..] == after;
  }

  /**
   * `[a](b) {foo}`: braces after the link that do not hold an attribute list are no annotation,
   * and the link is returned as the base engine made it.
   */
  lemma {:induction false} BadLinkAnnotationUnchanged(consumed: string, spaces: string, inner: string, rest: string, link: Link)
    requires |consumed| == link.extent
    requires AllSpaces(spaces)
    requires '}' !in inner && !IsAttrList(inner)
    ensures InlineLink(consumed + spaces + "{" + inner + "}" + rest, Some(link)) == Some(link)
  {
    var after := "{" + inner + "}" + rest;
    LinkExcerptParts(consumed, spaces, inner, rest);
    SpaceRunOf(spaces, after);
    assert (spaces + after)[|spaces|..] == after;
    NotAnAnnotation(inner, rest);
  }

  lemma {:induction false} NotAnAnnotation(inner: string, rest: string)
    requires '}' !in inner && !IsAttrList(inner)
    ensures LeadingAnnotation("{" + inner + "}" + rest).None?
  {
    var s := "{" + inner + "}" + rest;
    var k := |inner| + 1;
    forall i | 1 <= i < k ensures s[i] != '}' {
      assert s[i] == inner[i - 1];
    }
    FirstIndexOfAt(s, '}', 1, k);
    assert s[1..k] == inner;
  }

  /** Without an annotation right after it, the link is returned as the base engine made it. */
  lemma UnannotatedLinkUnchanged(excerpt: string, link: Link)
    requires var rest := Substr(excerpt, link.extent); var n := SpaceRun(rest); n == |rest| || rest[n] != '{'
    ensures InlineLink(excerpt, Some(link)) == Some(link)
  {
  }
}
