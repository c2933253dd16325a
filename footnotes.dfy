/**
 * The footnote section (ParsedownExtra.php:368-429, :721-724): one `li` per referenced footnote,
 * by ascending footnote number, each ending in one back-link per reference to it.
 */
module Footnotes {
  import opened Options
  import opened Strings
  import opened Lines
  import opened Registry

  /** The back-link to the `number`-th reference of footnote `name`. */
  function BackLink(number: nat, name: string): string {
    "<a href=\"#fnref" + NatToString(number) + ":" + name + "\" rev=\"footnote\" class=\"footnote-backref\">&#8617;</a>"
  }

  /** PHP `range(1, $count)`: 1 up to `count`, or 1 then 0 when `count` is 0 (PHP counts down). */
  function RefNumbers(count: nat): (r: seq<nat>)
    ensures |r| >= 1
    ensures count >= 1 ==> |r| == count && forall i :: 0 <= i < count ==> r[i] == i + 1
  {
    if count >= 1 then seq(count, (i: nat) => i + 1) else [1, 0]
  }

  /** The back-links for the given reference numbers, in their order. */
  function BackLinkList(numbers: seq<nat>, name: string): (r: seq<string>)
    ensures |r| == |numbers|
  {
    seq(|numbers|, i requires 0 <= i < |numbers| => BackLink(numbers[i], name))
  }

  /** `$backLinksMarkup` once built: the back-links separated by single spaces. */
  function BackLinksOf(count: nat, name: string): string {
    Join(BackLinkList(RefNumbers(count), name), " ")
  }

  /** Each link preceded by a space, as the loop of ParsedownExtra.php:403-406 accumulates them. */
  function SpacePrefixed(links: seq<string>): string
  {
    if links == [] then "" else SpacePrefixed(links[..|links| - 1]) + " " + links[|links| - 1]
  }

  /** Dropping the first space of the accumulated links leaves them separated by single spaces. */
  lemma {:induction false} SpacePrefixedJoin(links: seq<string>)
    requires links != []
    ensures SpacePrefixed(links) == " " + Join(links, " ")
    decreases |links|
  {
    var init := links[..|links| - 1];
    if init == [] {
      assert links == [links[0]];
    } else {
      var last := links[|links| - 1];
      var joined := Join(init, " ");
      assert SpacePrefixed(links) == SpacePrefixed(init) + " " + last;
      SpacePrefixedJoin(init);
      assert init + [last] == links;
      JoinSnoc(init, last, " ");
      assert " " + joined + " " + last == " " + (joined + " " + last);
    }
  }

  /** The loop of ParsedownExtra.php:401-406, which prefixes every link with a space, and the
    * `substr(..., 1)` at :408 that drops the first space. */
  method BackLinks(count: nat, name: string) returns (markup: string)
    ensures markup == BackLinksOf(count, name)
  {
    var numbers := RefNumbers(count);
    ghost var links := BackLinkList(numbers, name);
    markup := "";
    var i := 0;
    while i < |numbers|
      invariant 0 <= i <= |numbers|
      invariant markup == SpacePrefixed(links[..i])
    {
      assert links[..i + 1][..i] == links[..i];
      markup := markup + " " + BackLink(numbers[i], name);
      i := i + 1;
    }
    assert links[..i] == links;
    SpacePrefixedJoin(links);
    markup := Substr(markup, 1);
  }

  /**
   * A referenced footnote (count at least 1) gets exactly `count` back-links, to references 1,
   * 2, ..., `count` in that order.
   */
  lemma BackLinksPerReference(count: nat, name: string)
    requires count >= 1
    ensures var links := BackLinkList(RefNumbers(count), name);
      && |links| == count
      && (forall k :: 0 <= k < count ==> links[k] == BackLink(k + 1, name))
      && BackLinksOf(count, name) == Join(links, " ")
  {
  }

  /** Digits before a `:` are delimited by it. */
  lemma DigitsBeforeColon(a: string, b: string, x: string, y: string)
    requires forall i :: 0 <= i < |a| ==> '0' <= a[i] <= '9'
    requires forall i :: 0 <= i < |b| ==> '0' <= b[i] <= '9'
    requires a + ":" + x == b + ":" + y
    ensures a == b
  {
    var s := a + ":" + x;
    var t := b + ":" + y;
    ColonAfter(a, x);
    ColonAfter(b, y);
    if |a| == |b| {
      assert a == s[..|a|] && b == t[..|b|];
    }
  }

  lemma ColonAfter(a: string, x: string)
    ensures (a + ":" + x)[|a|] == ':'
    ensures forall i :: 0 <= i < |a| ==> (a + ":" + x)[i] == a[i]
  {
  }

  /** What follows the number in a back-link. */
  function BackLinkTail(name: string): string {
    name + "\" rev=\"footnote\" class=\"footnote-backref\">&#8617;</a>"
  }

  /** A back-link after its fixed 15-character head: the number, a colon and the rest. */
  lemma BackLinkAfterHead(number: nat, name: string)
    ensures |BackLink(number, name)| >= 15
    ensures BackLink(number, name)[15..] == NatToString(number) + ":" + BackLinkTail(name)
  {
    var head := "<a href=\"#fnref";
    assert |head| == 15;
    assert BackLink(number, name) == head + (NatToString(number) + ":" + BackLinkTail(name));
  }

  /** Back-links to different references of a footnote are different. */
  lemma BackLinksDistinct(m: nat, n: nat, name: string)
    requires m != n
    ensures BackLink(m, name) != BackLink(n, name)
  {
    BackLinkAfterHead(m, name);
    BackLinkAfterHead(n, name);
    if BackLink(m, name) == BackLink(n, name) {
      DigitsBeforeColon(NatToString(m), NatToString(n), BackLinkTail(name), BackLinkTail(name));
      NatToStringRoundTrip(m);
      NatToStringRoundTrip(n);
    }
  }

  /**
   * ParsedownExtra.php:409-418: a rendered text ending in `</p>` takes the back-links inside that
   * last paragraph after a no-break space; any other text gets a new paragraph holding only them.
   * Either way the result ends with the links and `</p>`, and what came before is kept.
   */
  function Splice(text: string, links: string): (r: string)
    ensures EndsWith(r, links + "</p>")
    ensures EndsWith(text, "</p>") ==>
      StartsWith(r, text[..|text| - 4] + "&#160;") && |r| == |text| + 6 + |links|
    ensures !EndsWith(text, "</p>") ==>
      StartsWith(r, text + "\n<p>") && |r| == |text| + 8 + |links|
  {
    if EndsWith(text, "</p>") then
      var r := text[..|text| - 4] + "&#160;" + links + "</p>";
      assert r[..|text| - 4 + 6] == text[..|text| - 4] + "&#160;";
      assert r[|r| - |links + "</p>"|..] == links + "</p>";
      r
    else
      var r := text + "\n<p>" + links + "</p>";
      assert r[..|text| + 4] == text + "\n<p>";
      assert r[|r| - |links + "</p>"|..] == links + "</p>";
      r
  }

  /** An `li` of the footnote list: its `id` and its text. */
  datatype Item = Item(id: string, text: string)

  /** The `li` of ParsedownExtra.php:421-425, from the rendered text and the back-links markup. */
  function LinkedItem(name: string, rendered: string, links: string): Item {
    Item("fn:" + name, "\n" + Splice(rendered, links) + "\n")
  }

  /** The `li` of footnote `name`, `rendered` being its text as the base engine renders it. */
  function ItemOf(name: string, rendered: string, count: nat): Item {
    LinkedItem(name, rendered, BackLinksOf(count, name))
  }

  /** `labels` are numbered footnotes of `r` by strictly ascending number. */
  predicate InNumberOrder(r: Registry, labels: seq<string>) {
    && (forall i :: 0 <= i < |labels| ==> labels[i] in r.footnotes && r.footnotes[labels[i]].number.Some?)
    && (forall i, j :: 0 <= i < j < |labels| ==>
          r.footnotes[labels[i]].number.value < r.footnotes[labels[j]].number.value)
  }

  /** Every numbered footnote of `r` is among `labels`. */
  predicate Complete(r: Registry, labels: seq<string>) {
    forall l :: l in r.footnotes && r.footnotes[l].number.Some? ==> l in labels
  }

  /** The footnote carrying number `n`, looked for among all the definitions. */
  method LabelNumbered(r: Registry, n: nat) returns (found: Option<string>)
    ensures found.Some? ==> found.value in r.footnotes && r.footnotes[found.value].number == Some(n)
    ensures found.None? ==> forall l :: l in r.footnotes ==> r.footnotes[l].number != Some(n)
  {
    found := None;
    var remaining := r.footnotes.Keys;
    while remaining != {}
      invariant remaining <= r.footnotes.Keys
      invariant found.Some? ==> found.value in r.footnotes && r.footnotes[found.value].number == Some(n)
      invariant found.None? ==> forall l :: l in r.footnotes && l !in remaining ==> r.footnotes[l].number != Some(n)
      decreases |remaining|
    {
      var l :| l in remaining;
      if r.footnotes[l].number == Some(n) {
        found := Some(l);
      }
      remaining := remaining - {l};
    }
  }

  /**
   * `uasort` by `sortFootnotes` and the loop that skips unnumbered definitions
   * (ParsedownExtra.php:386-393, :721-724): the numbered footnotes by ascending number. Numbers
   * of a valid registry are distinct and lie in 1..footnoteCount, so taking the footnote numbered
   * 1, then 2, and so on yields that sequence.
   */
  method NumberedLabels(r: Registry) returns (labels: seq<string>)
    requires Valid(r)
    ensures InNumberOrder(r, labels) && Complete(r, labels)
  {
    labels := [];
    var n := 1;
    while n <= r.footnoteCount
      invariant 1 <= n <= r.footnoteCount + 1
      invariant InNumberOrder(r, labels)
      invariant forall i :: 0 <= i < |labels| ==> r.footnotes[labels[i]].number.value < n
      invariant forall l :: l in r.footnotes && r.footnotes[l].number.Some? && r.footnotes[l].number.value < n ==> l in labels
    {
      var found := LabelNumbered(r, n);
      if found.Some? {
        NumberedAppend(r, labels, found.value, n);
        labels := labels + [found.value];
      }
      n := n + 1;
    }
  }

  /** The footnote numbered `n` goes after those numbered below `n`. */
  lemma NumberedAppend(r: Registry, labels: seq<string>, l: string, n: nat)
    requires InNumberOrder(r, labels)
    requires forall i :: 0 <= i < |labels| ==> r.footnotes[labels[i]].number.value < n
    requires l in r.footnotes && r.footnotes[l].number == Some(n)
    ensures InNumberOrder(r, labels + [l])
    ensures forall i :: 0 <= i < |labels + [l]| ==> r.footnotes[(labels + [l])[i]].number.value < n + 1
  {
    var next := labels + [l];
    assert forall i :: 0 <= i < |labels| ==> next[i] == labels[i];
  }

  /**
   * `buildFootnoteElement` (ParsedownExtra.php:368-429), returning the labels it lists and the
   * `li` elements of the `ol`; `render` stands for the base engine's `text`, which renders each
   * footnote's text.
   */
  method BuildFootnoteElement(r: Registry, render: string -> string) returns (labels: seq<string>, items: seq<Item>)
    requires Valid(r)
    ensures InNumberOrder(r, labels) && Complete(r, labels)
    ensures |items| == |labels|
    ensures forall i :: 0 <= i < |items| ==>
      items[i] == ItemOf(labels[i], render(r.footnotes[labels[i]].text), r.footnotes[labels[i]].count)
  {
    labels := NumberedLabels(r);
    items := ListItems(r, render, labels);
  }

  /** The loop of ParsedownExtra.php:388-426 over the listed footnotes: one `li` each, in order. */
  method ListItems(r: Registry, render: string -> string, labels: seq<string>) returns (items: seq<Item>)
    requires forall i :: 0 <= i < |labels| ==> labels[i] in r.footnotes
    ensures |items| == |labels|
    ensures forall i :: 0 <= i < |items| ==>
      items[i] == ItemOf(labels[i], render(r.footnotes[labels[i]].text), r.footnotes[labels[i]].count)
  {
    items := [];
    var i := 0;
    while i < |labels|
      invariant 0 <= i <= |labels|
      invariant |items| == i
      invariant forall k :: 0 <= k < i ==>
        items[k] == ItemOf(labels[k], render(r.footnotes[labels[k]].text), r.footnotes[labels[k]].count)
    {
      var name := labels[i];
      var footnote := r.footnotes[name];
      var text := render(footnote.text);
      var links := BackLinks(footnote.count, name);
      items := items + [LinkedItem(name, text, links)];
      i := i + 1;
    }
  }

  /** A footnote listed in the section has been referenced, so it carries at least one back-link. */
  lemma ListedFootnotesAreReferenced(r: Registry, labels: seq<string>, i: nat)
    requires Valid(r) && InNumberOrder(r, labels) && i < |labels|
    ensures r.footnotes[labels[i]].count >= 1
  {
  }

  /**
   * The order of the section is determined: two sequences listing the same footnotes by
   * ascending number are the same sequence.
   */
  lemma {:induction false} NumberOrderUnique(r: Registry, a: seq<string>, b: seq<string>)
    requires InNumberOrder(r, a) && InNumberOrder(r, b)
    requires forall l :: l in a <==> l in b
    ensures a == b
    decreases |a|
  {
    assert a != [] ==> a[0] in b;
    assert b != [] ==> b[0] in a;
    if a != [] && b != [] {
      HeadsAgree(r, a, b);
      HeadNotInTail(r, a);
      HeadNotInTail(r, b);
      assert a == [a[0]] + a[1..] && b == [b[0]] + b[1..];
      forall l
        ensures l in a[1..] <==> l in b[1..]
      {
        assert l in a <==> l == a[0] || l in a[1..];
        assert l in b <==> l == b[0] || l in b[1..];
      }
      TailInNumberOrder(r, a);
      TailInNumberOrder(r, b);
      NumberOrderUnique(r, a[1..], b[1..]);
    }
  }

  /** The footnote with the least number heads both sequences. */
  lemma HeadsAgree(r: Registry, a: seq<string>, b: seq<string>)
    requires InNumberOrder(r, a) && InNumberOrder(r, b)
    requires a != [] && b != [] && a[0] in b && b[0] in a
    ensures a[0] == b[0]
  {
    var k :| 0 <= k < |b| && b[k] == a[0];
    var j :| 0 <= j < |a| && a[j] == b[0];
  }

  lemma TailInNumberOrder(r: Registry, a: seq<string>)
    requires InNumberOrder(r, a) && a != []
    ensures InNumberOrder(r, a[1..])
  {
    assert forall i :: 0 <= i < |a| - 1 ==> a[1..][i] == a[i + 1];
  }

  /** A sequence in number order lists its first footnote once. */
  lemma HeadNotInTail(r: Registry, a: seq<string>)
    requires InNumberOrder(r, a) && a != []
    ensures a[0] !in a[1..]
  {
    forall j | 0 <= j < |a| - 1
      ensures a[1..][j] != a[0]
    {
      assert a[1..][j] == a[j + 1];
    }
  }

  /**
   * The section of a rendered document lists its footnotes in the order of their first
   * reference in the text.
   */
  lemma SectionInFirstReferenceOrder(previous: Registry, definitions: seq<Definition>,
                                     references: seq<string>, labels: seq<string>)
    requires var r := RenderAsWritten(previous, definitions, references);
      InNumberOrder(r, labels) && Complete(r, labels)
    ensures labels == FirstReferences(references, RenderAsWritten(previous, definitions, references).footnotes.Keys)
  {
    var r := RenderAsWritten(previous, definitions, references);
    var firsts := FirstReferences(references, r.footnotes.Keys);
    RenderAsWrittenContinues(previous, definitions, references);
    assert forall i :: 0 <= i < |firsts| ==> NumberOf(r, firsts[i]) == Some(previous.footnoteCount + i + 1);
    assert InNumberOrder(r, firsts);
    NumberOrderUnique(r, labels, firsts);
  }
}
