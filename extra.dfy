/**
 * The parser object of ParsedownExtra.php: the state it updates in place is the definition data
 * of the document being rendered (`DefinitionData['Footnote']` and `DefinitionData['Abbreviation']`)
 * and the private counter `footnoteCount` (ParsedownExtra.php:297). Each method is specified by
 * the registry transition of the same name, so the lemmas about registries apply to the object.
 */
module Extra {
  import opened Options
  import opened Strings
  import opened Lines
  import opened Registry
  import opened FootnoteBlocks
  import opened Footnotes

  /** The labels of the footnote markers at the heads of `excerpts`, in order. */
  function MarkerNames(excerpts: seq<string>): (names: seq<string>)
    ensures |names| <= |excerpts|
  {
    if excerpts == [] then []
    else
      var init := MarkerNames(excerpts[..|excerpts| - 1]);
      match FootnoteReference(excerpts[|excerpts| - 1])
      case Some(reference) => init + [reference.name]
      case None => init
  }

  /** A marker excerpt moves the registry as a reference to its label; any other excerpt leaves it. */
  lemma MarkerRefers(r: Registry, excerpt: string)
    ensures FootnoteMarker(r, excerpt).0 ==
      match FootnoteReference(excerpt)
      case Some(reference) => Refer(r, reference.name)
      case None => r
  {
  }

  /** Excerpts written as `[^name]...` for labels without `]` yield exactly those labels. */
  lemma {:induction false} MarkerNamesOfMarkers(names: seq<string>, excerpts: seq<string>)
    requires |excerpts| == |names|
    requires forall i :: 0 <= i < |names| ==> names[i] != [] && ']' !in names[i] && StartsWith(excerpts[i], "[^" + names[i] + "]")
    ensures MarkerNames(excerpts) == names
  {
    if excerpts != [] {
      var n := |excerpts| - 1;
      MarkerNamesOfMarkers(names[..n], excerpts[..n]);
      assert excerpts == excerpts[..n] + [excerpts[n]];
      MarkerNamesSnoc(excerpts[..n], names[n], excerpts[n]);
      assert names == names[..n] + [names[n]];
    }
  }

  /** One more marker excerpt adds its label. */
  lemma MarkerNamesSnoc(init: seq<string>, name: string, excerpt: string)
    requires name != [] && ']' !in name && StartsWith(excerpt, "[^" + name + "]")
    ensures MarkerNames(init + [excerpt]) == MarkerNames(init) + [name]
  {
    var excerpts := init + [excerpt];
    assert excerpts[..|excerpts| - 1] == init;
    assert excerpt == "[^" + name + "]" + excerpt[|name| + 3..];
    FootnoteReferenceRoundTrip(name, excerpt[|name| + 3..]);
  }

  class ParsedownExtra {
    var footnotes: map<string, Footnote>
    var abbreviations: map<string, string>
    var footnoteCount: nat

    /** The object's definition data and counter, as a registry value. */
    function Model(): Registry
      reads this
    {
      Registry(footnotes, abbreviations, footnoteCount)
    }

    /** A fresh object: no definitions, and the counter at 0. */
    constructor ()
      ensures Model() == Registry(map[], map[], 0)
      ensures Valid(Model())
    {
      footnotes := map[];
      abbreviations := map[];
      footnoteCount := 0;
    }

    /**
     * The base engine starts every document by emptying the definition data; the counter, a
     * field of this class, is left alone.
     */
    method BeginDocument()
      modifies this
      ensures Model() == Registry(map[], map[], old(footnoteCount))
      ensures Valid(Model())
    {
      footnotes := map[];
      abbreviations := map[];
    }

    /**
     * `blockAbbreviation` (ParsedownExtra.php:71-84): a `*[term]: meaning` line defines the
     * abbreviation and opens a hidden block; any other line changes nothing.
     */
    method BlockAbbreviation(line: Line) returns (hidden: bool)
      modifies this
      ensures hidden <==> AbbreviationDefinition(line.text).Some?
      ensures Model() == match AbbreviationDefinition(line.text)
        case Some(d) => DefineAbbreviation(old(Model()), d.name, d.text)
        case None => old(Model())
      ensures Valid(old(Model())) ==> Valid(Model())
    {
      match AbbreviationDefinition(line.text)
      case Some(d) =>
        abbreviations := abbreviations[d.name := d.text];
        hidden := true;
      case None =>
        hidden := false;
    }

    /**
     * `blockFootnoteComplete` (ParsedownExtra.php:127-136): the finished block (re)defines its
     * label with its text, as yet unreferenced, and is returned as it was.
     */
    method BlockFootnoteComplete(block: FootnoteBlock) returns (completed: FootnoteBlock)
      modifies this
      ensures completed == block
      ensures Model() == DefineFootnote(old(Model()), block.name, block.text)
      ensures Valid(old(Model())) ==> Valid(Model())
    {
      footnotes := footnotes[block.name := Footnote(block.text, 0, None)];
      completed := block;
    }

    /**
     * `inlineFootnoteMarker` (ParsedownExtra.php:261-295): a `[^name]` marker for a defined label
     * counts one more reference to it, numbers it on its first reference, and yields the `sup`
     * element; a marker for an undefined label, or anything else, yields nothing.
     */
    method InlineFootnoteMarker(excerpt: string) returns (marker: Option<Marker>)
      modifies this
      ensures Model() == FootnoteMarker(old(Model()), excerpt).0
      ensures marker == FootnoteMarker(old(Model()), excerpt).1
      ensures Valid(old(Model())) ==> Valid(Model())
    {
      var reference := FootnoteReference(excerpt);
      if reference.None? {
        return None;
      }
      var name := reference.value.name;
      if name !in footnotes {
        return None;
      }
      var footnote := footnotes[name];
      footnote := footnote.(count := footnote.count + 1);
      if footnote.number.None? {
        footnoteCount := footnoteCount + 1;
        footnote := footnote.(number := Some(footnoteCount));
      }
      footnotes := footnotes[name := footnote];
      assert Model() == Refer(old(Model()), name);
      marker := Some(Marker(reference.value.extent, "fnref" + NatToString(footnote.count) + ":" + name,
                            "#fn:" + name, footnote.number.value));
      if Valid(old(Model())) {
        ReferPreservesValid(old(Model()), name);
      }
    }

    /**
     * `buildFootnoteElement` (ParsedownExtra.php:368-429): the `li` of every referenced footnote,
     * by ascending number. Sorting the definition data reorders it and changes nothing else.
     */
    method BuildFootnoteElement(render: string -> string) returns (labels: seq<string>, items: seq<Item>)
      requires Valid(Model())
      ensures InNumberOrder(Model(), labels) && Complete(Model(), labels)
      ensures |items| == |labels|
      ensures forall i :: 0 <= i < |items| ==>
        items[i] == ItemOf(labels[i], render(footnotes[labels[i]].text), footnotes[labels[i]].count)
    {
      labels, items := Footnotes.BuildFootnoteElement(Model(), render);
    }

    /**
     * `text` (ParsedownExtra.php:45-63) for a document whose footnote blocks complete with
     * `definitions`, in order, and whose inline parser offers `excerpts`, in order, to the
     * footnote marker. The footnote section is appended when the document defines a footnote;
     * it lists the referenced footnotes in the order of their first reference.
     */
    method Text(definitions: seq<Definition>, excerpts: seq<string>, render: string -> string)
      returns (hasSection: bool, labels: seq<string>, items: seq<Item>)
      modifies this
      ensures Model() == RenderAsWritten(old(Model()), definitions, MarkerNames(excerpts))
      ensures Valid(Model())
      ensures hasSection <==> definitions != []
      ensures hasSection ==> labels == FirstReferences(MarkerNames(excerpts), footnotes.Keys)
      ensures !hasSection ==> labels == [] && items == []
      ensures |items| == |labels|
      ensures forall i :: 0 <= i < |items| ==>
        items[i] == ItemOf(labels[i], render(footnotes[labels[i]].text), footnotes[labels[i]].count)
    {
      ghost var start := Registry(map[], map[], footnoteCount);
      BeginDocument();
      var i := 0;
      while i < |definitions|
        invariant 0 <= i <= |definitions|
        invariant Model() == DefineAll(start, definitions[..i])
      {
        assert definitions[..i + 1][..i] == definitions[..i];
        var completed := BlockFootnoteComplete(FootnoteBlock(definitions[i].name, definitions[i].text, false));
        i := i + 1;
      }
      assert definitions[..i] == definitions;
      ghost var defined := Model();
      var k := 0;
      while k < |excerpts|
        invariant 0 <= k <= |excerpts|
        invariant Model() == ReferAll(defined, MarkerNames(excerpts[..k]))
      {
        assert excerpts[..k + 1][..k] == excerpts[..k];
        MarkerRefers(Model(), excerpts[k]);
        var marker := InlineFootnoteMarker(excerpts[k]);
        k := k + 1;
      }
      assert excerpts[..k] == excerpts;
      RenderAsWrittenContinues(old(Model()), definitions, MarkerNames(excerpts));
      if footnotes != map[] {
        hasSection := true;
        labels, items := BuildFootnoteElement(render);
        SectionInFirstReferenceOrder(old(Model()), definitions, MarkerNames(excerpts), labels);
      } else {
        hasSection := false;
        labels, items := [], [];
      }
    }
  }
}
