/**
 * The line record the base engine hands to every block recogniser, and the three one-line
 * patterns of the extension that pick out a bracketed label: footnote definitions
 * `^\[\^(.+?)\]:[ ]?(.*)$` (ParsedownExtra.php:91, :105), abbreviation definitions
 * `^\*\[(.+?)\]:[ ]*(.+?)[ ]*$` (:74) and footnote markers `^\[\^(.+?)\]` (:263).
 * Each lazy `(.+?)` is modelled as "the first closing bracket that lets the rest match".
 */
module Lines {
  import opened Options
  import opened Strings

  /**
   * `body` is the whole line, `indent` the number of leading spaces and `text` the line without
   * them. The base engine never hands a blank line to a recogniser (it marks the current block
   * `interrupted` instead), so `text` is never empty.
   */
  datatype Line = Line(body: string, indent: nat, text: string)

  predicate ValidLine(line: Line) {
    && line.text != [] && line.text[0] != ' '
    && |line.body| == line.indent + |line.text|
    && (forall i :: 0 <= i < line.indent ==> line.body[i] == ' ')
    && line.body[line.indent..] == line.text
  }

  /**
   * What the base engine does with one input line while a block is open: a blank line only sets
   * the block's `interrupted` flag; any other line is offered to the block's continue function.
   */
  datatype Input = Blank | NonBlank(line: Line)

  /** `s[j..]` starts with `]:` and at least `rest` characters follow it. */
  predicate IsLabelEnd(s: string, j: nat, rest: nat) {
    j + 2 + rest <= |s| && s[j] == ']' && s[j + 1] == ':'
  }

  /** The first `j >= from` at which IsLabelEnd holds. */
  function FirstLabelEnd(s: string, from: nat, rest: nat): (r: Option<nat>)
    ensures r.Some? ==> from <= r.value && IsLabelEnd(s, r.value, rest)
    ensures r.Some? ==> forall k :: from <= k < r.value ==> !IsLabelEnd(s, k, rest)
    ensures r.None? ==> forall k :: from <= k ==> !IsLabelEnd(s, k, rest)
    decreases |s| - from
  {
    if from + 2 + rest > |s| then None
    else if IsLabelEnd(s, from, rest) then Some(from)
    else FirstLabelEnd(s, from + 1, rest)
  }

  /** The first `j >= from` with `s[j] == c`. */
  function FirstIndexOf(s: string, c: char, from: nat): (r: Option<nat>)
    ensures r.Some? ==> from <= r.value < |s| && s[r.value] == c
    ensures r.Some? ==> forall k :: from <= k < r.value ==> s[k] != c
    ensures r.None? ==> forall k :: from <= k < |s| ==> s[k] != c
    decreases |s| - from
  {
    if from >= |s| then None
    else if s[from] == c then Some(from)
    else FirstIndexOf(s, c, from + 1)
  }

  /** The last `j` with `s[j] == c`. */
  function LastIndexOf(s: string, c: char): (r: Option<nat>)
    ensures r.Some? ==> r.value < |s| && s[r.value] == c
    ensures r.Some? ==> forall k :: r.value < k < |s| ==> s[k] != c
    ensures r.None? ==> c !in s
  {
    if s == [] then None
    else if s[|s| - 1] == c then Some(|s| - 1)
    else
      var r := LastIndexOf(s[..|s| - 1], c);
      assert forall k :: 0 <= k < |s| - 1 ==> s[..|s| - 1][k] == s[k];
      r
  }

  /** `[ ]?`: drops one leading space. */
  function DropOneSpace(s: string): string {
    if s != [] && s[0] == ' ' then s[1..] else s
  }

  datatype Definition = Definition(name: string, text: string)

  /**
   * `^\[\^(.+?)\]:[ ]?(.*)$`: the label runs up to the first `]:` after at least one character,
   * and the text is the rest without one optional leading space.
   */
  function FootnoteDefinition(text: string): (r: Option<Definition>)
    ensures r.Some? ==> (
      && r.value.name != []
      && StartsWith(text, "[^" + r.value.name + "]:")
      && (text[|r.value.name| + 4..] == r.value.text || text[|r.value.name| + 4..] == " " + r.value.text))
    ensures r.Some? ==> forall k :: 3 <= k < |r.value.name| + 2 ==> !IsLabelEnd(text, k, 0)
    ensures r.None? ==> !StartsWith(text, "[^") || forall k :: 3 <= k ==> !IsLabelEnd(text, k, 0)
  {
    if |text| >= 2 && text[0] == '[' && text[1] == '^' then
      match FirstLabelEnd(text, 3, 0)
      case Some(j) =>
        assert text[..j + 2] == "[^" + text[2..j] + "]:";
        Some(Definition(text[2..j], DropOneSpace(text[j + 2..])))
      case None => None
    else None
  }

  /**
   * `^\*\[(.+?)\]:[ ]*(.+?)[ ]*$`: the term runs up to the first `]:` that leaves at least one
   * character after it; the meaning is that rest without its surrounding spaces, or a single
   * space when the rest is nothing but spaces (the lazy `(.+?)` then takes one of them).
   */
  function AbbreviationDefinition(text: string): (r: Option<Definition>)
    ensures r.Some? ==> (
      && r.value.name != [] && r.value.text != []
      && StartsWith(text, "*[" + r.value.name + "]:"))
    ensures r.Some? ==> forall k :: 3 <= k < |r.value.name| + 2 ==> !IsLabelEnd(text, k, 1)
    ensures r.None? ==> !StartsWith(text, "*[") || forall k :: 3 <= k ==> !IsLabelEnd(text, k, 1)
    ensures r.Some? ==> |r.value.name| + 4 < |text| && r.value.text == Meaning(text[|r.value.name| + 4..])
  {
    if |text| >= 2 && text[0] == '*' && text[1] == '[' then
      match FirstLabelEnd(text, 3, 1)
      case Some(j) =>
        assert text[..j + 2] == "*[" + text[2..j] + "]:";
        Some(Definition(text[2..j], Meaning(text[j + 2..])))
      case None => None
    else None
  }

  /**
   * `[ ]*(.+?)[ ]*$` after the `]:` of an abbreviation: the rest without its surrounding
   * spaces, or a single space when the rest is nothing but spaces (the lazy group then takes
   * the last one).
   */
  function Meaning(rest: string): string
  {
    var m := DropTrailingSpaces(DropSpaces(rest));
    if m == [] then " " else m
  }

  datatype Reference = Reference(name: string, extent: nat)

  /**
   * `^\[\^(.+?)\]`: the label runs up to the first `]` after at least one character. PCRE's `.`
   * does not match a newline, so PHP also refuses a label that holds one; the model reads it, which
   * changes no result, since no defined label holds a newline and undefined labels are ignored.
   */
  function FootnoteReference(text: string): (r: Option<Reference>)
    ensures r.Some? ==> (
      && r.value.name != [] && r.value.extent == |r.value.name| + 3
      && StartsWith(text, "[^" + r.value.name + "]")
      && ']' !in r.value.name[1..])
    ensures r.None? ==> !StartsWith(text, "[^") || forall k :: 3 <= k < |text| ==> text[k] != ']'
  {
    if |text| >= 2 && text[0] == '[' && text[1] == '^' then
      match FirstIndexOf(text, ']', 3)
      case Some(j) =>
        assert text[..j + 1] == "[^" + text[2..j] + "]";
        assert forall k :: 0 <= k < j - 3 ==> text[2..j][1..][k] == text[k + 3];
        Some(Reference(text[2..j], j + 1))
      case None => None
    else None
  }

  // Writing a label out and reading it back.

  /** FirstLabelEnd finds `j` when no earlier position qualifies. */
  lemma {:induction false} FirstLabelEndAt(s: string, from: nat, rest: nat, j: nat)
    requires from <= j && IsLabelEnd(s, j, rest)
    requires forall k :: from <= k < j ==> !IsLabelEnd(s, k, rest)
    ensures FirstLabelEnd(s, from, rest) == Some(j)
    decreases j - from
  {
    if from < j {
      FirstLabelEndAt(s, from + 1, rest, j);
    }
  }

  /** FirstIndexOf finds `j` when no earlier position holds `c`. */
  lemma {:induction false} FirstIndexOfAt(s: string, c: char, from: nat, j: nat)
    requires from <= j < |s| && s[j] == c
    requires forall k :: from <= k < j ==> s[k] != c
    ensures FirstIndexOf(s, c, from) == Some(j)
    decreases j - from
  {
    if from < j {
      FirstIndexOfAt(s, c, from + 1, j);
    }
  }

  lemma LastIndexOfAt(s: string, c: char, j: nat)
    requires j < |s| && s[j] == c
    requires forall k :: j < k < |s| ==> s[k] != c
    ensures LastIndexOf(s, c) == Some(j)
  {
    var r := LastIndexOf(s, c);
    assert r.Some? by { assert s[j] in s; }
  }

  /** A definition `[^name]: text` reads back as its name and text when the name has no `]`. */
  lemma FootnoteDefinitionRoundTrip(name: string, text: string)
    requires name != [] && ']' !in name
    ensures FootnoteDefinition("[^" + name + "]: " + text) == Some(Definition(name, text))
  {
    var s := "[^" + name + "]: " + text;
    var j := |name| + 2;
    forall k | 3 <= k < j ensures !IsLabelEnd(s, k, 0) {
      assert s[k] == name[k - 2];
    }
    FirstLabelEndAt(s, 3, 0, j);
    assert s[2..j] == name;
    assert s[j + 2..] == " " + text;
  }

  /**
   * `*[term]:` followed by a meaning padded with any spaces reads back as that term and the
   * meaning without its padding; followed by spaces only, as the single-space meaning ` `.
   * Between them the two cover every line that starts with `*[term]:` and has a character after it.
   */
  lemma {:induction false} AbbreviationDefinitionRoundTrip(term: string, lead: string, meaning: string, trail: string)
    requires term != [] && ']' !in term
    requires AllSpaces(lead) && AllSpaces(trail)
    requires meaning != [] && meaning[0] != ' ' && meaning[|meaning| - 1] != ' '
    ensures AbbreviationDefinition("*[" + term + "]:" + lead + meaning + trail)
         == Some(Definition(term, meaning))
  {
    var rest := lead + (meaning + trail);
    assert "*[" + term + "]:" + lead + meaning + trail == "*[" + term + "]:" + rest;
    AbbreviationTerm("*[" + term + "]:" + rest, term, rest);
    DropSpacesOfPadding(lead, meaning + trail);
    DropTrailingSpacesOfPadding(meaning, trail);
  }

  lemma {:induction false} AbbreviationDefinitionOfBlank(term: string, spaces: string)
    requires term != [] && ']' !in term
    requires spaces != [] && AllSpaces(spaces)
    ensures AbbreviationDefinition("*[" + term + "]:" + spaces) == Some(Definition(term, " "))
  {
    AbbreviationTerm("*[" + term + "]:" + spaces, term, spaces);
    assert spaces + [] == spaces;
    DropSpacesOfPadding(spaces, []);
  }

  /** The term of `*[term]:rest` ends at its first `]:` when `rest` is not empty. */
  lemma {:induction false} AbbreviationTerm(s: string, term: string, rest: string)
    requires term != [] && ']' !in term && rest != []
    requires s == "*[" + term + "]:" + rest
    ensures AbbreviationDefinition(s) == Some(Definition(term, Meaning(rest)))
  {
    var j := |term| + 2;
    assert s[0] == '*' && s[1] == '[' && s[j] == ']' && s[j + 1] == ':';
    forall k | 3 <= k < j ensures !IsLabelEnd(s, k, 1) {
      assert s[k] == term[k - 2];
    }
    FirstLabelEndAt(s, 3, 1, j);
    assert s[2..j] == term && s[j + 2..] == rest;
    assert AbbreviationDefinition(s) == Some(Definition(s[2..j], Meaning(s[j + 2..])));
  }

  /** A marker `[^name]` at the head of an excerpt reads back as its name and length. */
  lemma FootnoteReferenceRoundTrip(name: string, rest: string)
    requires name != [] && ']' !in name
    ensures FootnoteReference("[^" + name + "]" + rest) == Some(Reference(name, |name| + 3))
  {
    var s := "[^" + name + "]" + rest;
    var j := |name| + 2;
    forall k | 3 <= k < j ensures s[k] != ']' {
      assert s[k] == name[k - 2];
    }
    FirstIndexOfAt(s, ']', 3, j);
    assert s[2..j] == name;
  }
}
