/**
 * The cross-reference registry: `DefinitionData['Footnote']`, `DefinitionData['Abbreviation']`
 * and the private counter `footnoteCount` (ParsedownExtra.php:297), as a value. The class in
 * extra.dfy holds the same three things as fields and its methods are specified by the
 * transitions below.
 */
module Registry {
  import opened Options
  import opened Strings
  import opened Lines

  /**
   * One footnote definition. `count` is the number of references seen so far (PHP keeps `null`
   * until the first one; `null++` is 1, so 0 stands for it); `number` is unset until the first
   * reference assigns it.
   */
  datatype Footnote = Footnote(text: string, count: nat, number: Option<nat>)

  datatype Registry = Registry(
    footnotes: map<string, Footnote>,
    abbreviations: map<string, string>,
    footnoteCount: nat)

  /**
   * What the registry keeps true: a footnote has a number exactly when it has been referenced,
   * numbers lie in 1..footnoteCount, and no two footnotes share a number.
   */
  predicate Valid(r: Registry) {
    && (forall l :: l in r.footnotes ==> (r.footnotes[l].number.Some? <==> r.footnotes[l].count > 0))
    && (forall l :: l in r.footnotes && r.footnotes[l].number.Some? ==>
          1 <= r.footnotes[l].number.value <= r.footnoteCount)
    && (forall l, m :: l in r.footnotes && m in r.footnotes && l != m && r.footnotes[l].number.Some? ==>
          r.footnotes[l].number != r.footnotes[m].number)
  }

  /** `blockFootnoteComplete` (ParsedownExtra.php:129-133): (re)defines a footnote, unreferenced. */
  function DefineFootnote(r: Registry, name: string, text: string): Registry {
    r.(footnotes := r.footnotes[name := Footnote(text, 0, None)])
  }

  /** `blockAbbreviation` (ParsedownExtra.php:76): (re)defines an abbreviation. */
  function DefineAbbreviation(r: Registry, term: string, meaning: string): Registry {
    r.(abbreviations := r.abbreviations[term := meaning])
  }

  /**
   * The registry update of `inlineFootnoteMarker` (ParsedownExtra.php:267-277): an undefined label
   * changes nothing; a defined one has its count bumped and, on its first reference only, gets
   * the next number.
   */
  function Refer(r: Registry, name: string): (r': Registry)
    ensures name !in r.footnotes ==> r' == r
    ensures r'.footnotes.Keys == r.footnotes.Keys && r'.abbreviations == r.abbreviations
    ensures forall l :: l in r.footnotes && l != name ==> r'.footnotes[l] == r.footnotes[l]
    ensures name in r.footnotes ==> (
      && r'.footnotes[name].text == r.footnotes[name].text
      && r'.footnotes[name].count == r.footnotes[name].count + 1
      && r'.footnotes[name].number ==
           if r.footnotes[name].number.None? then Some(r.footnoteCount + 1) else r.footnotes[name].number)
    ensures r'.footnoteCount ==
      if name in r.footnotes && r.footnotes[name].number.None? then r.footnoteCount + 1 else r.footnoteCount
  {
    if name !in r.footnotes then r
    else
      var f := r.footnotes[name];
      if f.number.None? then
        Registry(r.footnotes[name := Footnote(f.text, f.count + 1, Some(r.footnoteCount + 1))],
                 r.abbreviations, r.footnoteCount + 1)
      else
        r.(footnotes := r.footnotes[name := f.(count := f.count + 1)])
  }

  /** The `sup` element `inlineFootnoteMarker` returns, with the length of text it consumed. */
  datatype Marker = Marker(extent: nat, id: string, href: string, number: nat)

  /** `inlineFootnoteMarker` (ParsedownExtra.php:261-295): the new registry and the marker, if any. */
  function FootnoteMarker(r: Registry, excerpt: string): (result: (Registry, Option<Marker>))
    ensures result.1.None? <==>
      FootnoteReference(excerpt).None? || FootnoteReference(excerpt).value.name !in r.footnotes
    ensures result.1.None? ==> result.0 == r
    ensures result.1.Some? ==> (
      var name := FootnoteReference(excerpt).value.name;
      && name in r.footnotes
      && result.0 == Refer(r, name)
      && result.0.footnotes[name].number.Some?
      && result.1.value == Marker(|name| + 3,
           "fnref" + NatToString(r.footnotes[name].count + 1) + ":" + name,
           "#fn:" + name,
           result.0.footnotes[name].number.value))
  {
    match FootnoteReference(excerpt)
    case None => (r, None)
    case Some(ref) =>
      if ref.name !in r.footnotes then (r, None)
      else
        var r' := Refer(r, ref.name);
        var f := r'.footnotes[ref.name];
        (r', Some(Marker(ref.extent, "fnref" + NatToString(f.count) + ":" + ref.name, "#fn:" + ref.name, f.number.value)))
  }

  lemma DefinePreservesValid(r: Registry, name: string, text: string)
    requires Valid(r)
    ensures Valid(DefineFootnote(r, name, text))
  {
  }

  /** A redefinition replaces the earlier definition and forgets its references. */
  lemma RedefinitionOverwrites(r: Registry, name: string, t1: string, t2: string)
    ensures DefineFootnote(DefineFootnote(r, name, t1), name, t2) == DefineFootnote(r, name, t2)
  {
  }

  /** A reference keeps the registry valid: the new number is larger than every number given out. */
  lemma {:induction false} ReferPreservesValid(r: Registry, name: string)
    requires Valid(r)
    ensures Valid(Refer(r, name))
  {
    var r' := Refer(r, name);
    if name in r.footnotes && r.footnotes[name].number.None? {
      forall l, m | l in r'.footnotes && m in r'.footnotes && l != m && r'.footnotes[l].number.Some?
        ensures r'.footnotes[l].number != r'.footnotes[m].number
      {
        if l == name {
          assert m in r.footnotes && r'.footnotes[m] == r.footnotes[m];
        } else if m == name {
          assert r'.footnotes[l] == r.footnotes[l];
        }
      }
    }
  }

  // Whole documents.

  /** The definitions of a document, in the order their blocks complete. */
  function DefineAll(r: Registry, definitions: seq<Definition>): Registry
  {
    if definitions == [] then r
    else
      var d := definitions[|definitions| - 1];
      DefineFootnote(DefineAll(r, definitions[..|definitions| - 1]), d.name, d.text)
  }

  /** The footnote references of a document, in text order. */
  function ReferAll(r: Registry, names: seq<string>): Registry
  {
    if names == [] then r else Refer(ReferAll(r, names[..|names| - 1]), names[|names| - 1])
  }

  /** The defined labels among `names`, each once, in the order of their first occurrence. */
  function FirstReferences(names: seq<string>, defined: set<string>): (firsts: seq<string>)
    ensures forall i :: 0 <= i < |firsts| ==> firsts[i] in defined && firsts[i] in names
    ensures forall i, j :: 0 <= i < j < |firsts| ==> firsts[i] != firsts[j]
    ensures forall l :: l in names && l in defined ==> l in firsts
  {
    if names == [] then []
    else
      var init := names[..|names| - 1];
      var n := names[|names| - 1];
      var p := FirstReferences(init, defined);
      assert forall l :: l in init ==> l in names;
      if n in defined && n !in p then p + [n] else p
  }

  /** How often `name` occurs in `names`. */
  function Occurrences(names: seq<string>, name: string): nat
  {
    if names == [] then 0
    else Occurrences(names[..|names| - 1], name) + (if names[|names| - 1] == name then 1 else 0)
  }

  /** No footnote has been referenced yet. */
  predicate Unreferenced(r: Registry) {
    forall l :: l in r.footnotes ==> r.footnotes[l].count == 0 && r.footnotes[l].number.None?
  }

  /** The number a label carries, `None` when it is undefined or unreferenced. */
  function NumberOf(r: Registry, name: string): Option<nat> {
    if name in r.footnotes then r.footnotes[name].number else None
  }

  /**
   * `r` numbers the labels `firsts` base+1, base+2, ... and no other label, and its counter has
   * moved past them.
   */
  predicate NumberedInOrder(base: nat, r: Registry, firsts: seq<string>) {
    && r.footnoteCount == base + |firsts|
    && (forall l :: l in r.footnotes ==> (r.footnotes[l].number.Some? <==> l in firsts))
    && (forall i :: 0 <= i < |firsts| ==> NumberOf(r, firsts[i]) == Some(base + i + 1))
  }

  /** References keep every definition's text and count each reference to it. */
  lemma {:induction false} ReferAllCounts(r: Registry, names: seq<string>, name: string)
    requires name in r.footnotes
    ensures name in ReferAll(r, names).footnotes
    ensures ReferAll(r, names).footnotes[name].text == r.footnotes[name].text
    ensures ReferAll(r, names).footnotes[name].count == r.footnotes[name].count + Occurrences(names, name)
  {
    if names != [] {
      ReferAllCounts(r, names[..|names| - 1], name);
    }
  }

  /**
   * Numbering in first-reference order: starting from definitions that carry no number, the
   * references `names` number the defined labels footnoteCount+1, footnoteCount+2, ... in the
   * order of their first reference, leave the others unnumbered, and ignore undefined labels.
   */
  lemma {:induction false} FirstReferenceOrder(r: Registry, names: seq<string>)
    requires forall l :: l in r.footnotes ==> r.footnotes[l].number.None?
    ensures ReferAll(r, names).footnotes.Keys == r.footnotes.Keys
    ensures NumberedInOrder(r.footnoteCount, ReferAll(r, names), FirstReferences(names, r.footnotes.Keys))
  {
    if names != [] {
      var init := names[..|names| - 1];
      var n := names[|names| - 1];
      FirstReferenceOrder(r, init);
      var s := ReferAll(r, init);
      var p := FirstReferences(init, r.footnotes.Keys);
      var r' := Refer(s, n);
      var firsts := FirstReferences(names, r.footnotes.Keys);
      if n in r.footnotes && n !in p {
        assert firsts == p + [n];
        assert s.footnotes[n].number.None?;
        forall l | l in r'.footnotes
          ensures r'.footnotes[l].number.Some? <==> l in firsts
        {
          if l != n {
            assert r'.footnotes[l] == s.footnotes[l];
          }
        }
        forall i | 0 <= i < |firsts|
          ensures NumberOf(r', firsts[i]) == Some(r.footnoteCount + i + 1)
        {
          if i < |p| {
            assert firsts[i] == p[i] && p[i] != n;
            assert NumberOf(s, p[i]) == Some(r.footnoteCount + i + 1);
          } else {
            assert firsts[i] == n && s.footnoteCount == r.footnoteCount + i;
          }
        }
      } else {
        assert firsts == p;
        forall l | l in r'.footnotes
          ensures r'.footnotes[l].number == s.footnotes[l].number
        {
          if l == n {
            assert n in p;
          }
        }
        forall i | 0 <= i < |firsts|
          ensures NumberOf(r', firsts[i]) == Some(r.footnoteCount + i + 1)
        {
          assert NumberOf(s, p[i]) == Some(r.footnoteCount + i + 1);
        }
      }
    }
  }

  /** Defining footnotes never gives one a reference, and defines every name it is given. */
  lemma {:induction false} DefineAllUnreferenced(r: Registry, definitions: seq<Definition>)
    requires Unreferenced(r)
    ensures Unreferenced(DefineAll(r, definitions))
    ensures DefineAll(r, definitions).footnoteCount == r.footnoteCount
    ensures r.footnotes.Keys <= DefineAll(r, definitions).footnotes.Keys
    ensures forall i :: 0 <= i < |definitions| ==> definitions[i].name in DefineAll(r, definitions).footnotes
  {
    if definitions != [] {
      var init := definitions[..|definitions| - 1];
      DefineAllUnreferenced(r, init);
      forall i | 0 <= i < |init|
        ensures definitions[i].name in DefineAll(r, definitions).footnotes
      {
        assert definitions[i] == init[i];
      }
    }
  }

  lemma {:induction false} ReferAllPreservesValid(r: Registry, names: seq<string>)
    requires Valid(r)
    ensures Valid(ReferAll(r, names))
  {
    if names != [] {
      ReferAllPreservesValid(r, names[..|names| - 1]);
      ReferPreservesValid(ReferAll(r, names[..|names| - 1]), names[|names| - 1]);
    }
  }

  /**
   * `text()` (ParsedownExtra.php:45-63) as written: the base engine starts each document with no
   * definitions, every definition is registered while blocks are parsed, then every reference
   * while inline text is parsed; `footnoteCount` is a field of the object and keeps its value
   * from the previous document.
   */
  function RenderAsWritten(previous: Registry, definitions: seq<Definition>, references: seq<string>): Registry
  {
    ReferAll(DefineAll(Registry(map[], map[], previous.footnoteCount), definitions), references)
  }

  /** The same with the counter reset for every document, as a per-document registry requires. */
  function Render(definitions: seq<Definition>, references: seq<string>): Registry
  {
    ReferAll(DefineAll(Registry(map[], map[], 0), definitions), references)
  }

  /**
   * With the counter reset, footnotes are numbered 1, 2, 3, ... in the order of their first
   * reference, whatever the order of their definitions, and the registry is valid.
   */
  lemma RenderNumbersFromOne(definitions: seq<Definition>, references: seq<string>)
    ensures var r := Render(definitions, references);
      && Valid(r)
      && NumberedInOrder(0, r, FirstReferences(references, r.footnotes.Keys))
  {
    var d := DefineAll(Registry(map[], map[], 0), definitions);
    DefineAllUnreferenced(Registry(map[], map[], 0), definitions);
    FirstReferenceOrder(d, references);
    ReferAllPreservesValid(d, references);
  }

  /**
   * As written, the numbers of a document depend on what the object rendered before: they start
   * after the previous document's last number. The registry is still valid, and its footnotes
   * are exactly the labels defined in the document.
   */
  lemma RenderAsWrittenContinues(previous: Registry, definitions: seq<Definition>, references: seq<string>)
    ensures var r := RenderAsWritten(previous, definitions, references);
      && NumberedInOrder(previous.footnoteCount, r, FirstReferences(references, r.footnotes.Keys))
      && Valid(r)
      && (r.footnotes == map[] <==> definitions == [])
  {
    var empty := Registry(map[], map[], previous.footnoteCount);
    var d := DefineAll(empty, definitions);
    DefineAllUnreferenced(empty, definitions);
    FirstReferenceOrder(d, references);
    ReferAllPreservesValid(d, references);
    if definitions != [] {
      assert definitions[0].name in ReferAll(d, references).footnotes;
    }
  }

  /**
   * Definitions of `b` then `a`, references to `a` then `b`: `a` is footnote 1 and `b`
   * footnote 2.
   */
  lemma NumberedByFirstReference(a: string, b: string, ta: string, tb: string)
    requires a != b
    ensures NumberOf(Render([Definition(b, tb), Definition(a, ta)], [a, b]), a) == Some(1)
    ensures NumberOf(Render([Definition(b, tb), Definition(a, ta)], [a, b]), b) == Some(2)
  {
    var defs := [Definition(b, tb), Definition(a, ta)];
    var refs := [a, b];
    var r := Render(defs, refs);
    var d := DefineAll(Registry(map[], map[], 0), defs);
    DefineAllUnreferenced(Registry(map[], map[], 0), defs);
    FirstReferenceOrder(d, refs);
    RenderNumbersFromOne(defs, refs);
    var keys := r.footnotes.Keys;
    assert defs[0].name == b && defs[1].name == a;
    assert a in keys && b in keys;
    FirstReferencesOfTwo(a, b, keys);
    assert NumberOf(r, [a, b][0]) == Some(1);
    assert NumberOf(r, [a, b][1]) == Some(2);
  }

  lemma FirstReferencesOfTwo(a: string, b: string, keys: set<string>)
    requires a != b && a in keys && b in keys
    ensures FirstReferences([a, b], keys) == [a, b]
  {
    assert [a, b][..1] == [a] && [a][..0] == [];
    assert FirstReferences([a], keys) == [a];
  }

  /** A document whose one footnote is referenced: rendered from scratch, it is footnote 1. */
  lemma {:induction false} RenderSingle(previous: Registry, name: string, t: string)
    ensures var r := RenderAsWritten(previous, [Definition(name, t)], [name]);
      && r.footnoteCount == previous.footnoteCount + 1
      && NumberOf(r, name) == Some(previous.footnoteCount + 1)
  {
    var defs := [Definition(name, t)];
    var r := RenderAsWritten(previous, defs, [name]);
    var d := DefineAll(Registry(map[], map[], previous.footnoteCount), defs);
    DefineAllUnreferenced(Registry(map[], map[], previous.footnoteCount), defs);
    FirstReferenceOrder(d, [name]);
    RenderAsWrittenContinues(previous, defs, [name]);
    assert defs[0].name == name;
    assert [name][..0] == [];
    assert FirstReferences([name], r.footnotes.Keys) == [name];
    assert NumberOf(r, [name][0]) == Some(previous.footnoteCount + 1);
  }

  /**
   * Rendering the same one-footnote document twice with one object numbers its footnote 2 the
   * second time, where a reset registry numbers it 1 every time.
   */
  lemma RenderAsWrittenRenumbers(name: string, t: string)
    ensures var defs := [Definition(name, t)];
      var first := RenderAsWritten(Registry(map[], map[], 0), defs, [name]);
      && NumberOf(first, name) == Some(1)
      && NumberOf(RenderAsWritten(first, defs, [name]), name) == Some(2)
      && NumberOf(Render(defs, [name]), name) == Some(1)
  {
    var defs := [Definition(name, t)];
    var first := RenderAsWritten(Registry(map[], map[], 0), defs, [name]);
    RenderSingle(Registry(map[], map[], 0), name, t);
    RenderSingle(first, name, t);
  }
}
