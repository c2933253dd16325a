/**
 * The attribute annotation grammar `{#id .class ...}`: the fragment recogniser shared by
 * headings, links, blockquotes and figures (the `regexAttribute` field, ParsedownExtra.php:730),
 * and `parseAttributeData` (ParsedownExtra.php:637-661), which turns the fragment into attributes.
 */
module Attributes {
  import opened Options
  import opened Strings
  import opened Lines

  /** A token that sets the `id` (PHP: `$attribute[0] === '#'`); every other token is a class. */
  predicate IsIdToken(t: string) {
    t != [] && t[0] == '#'
  }

  /** `substr($attribute, 1)`: the token without its marker character. */
  function Tail(t: string): string {
    if t == [] then [] else t[1..]
  }

  /** The `id` a token list sets: the name carried by its last `#` token, if any. */
  function IdOf(tokens: seq<string>): Option<string>
  {
    if tokens == [] then None
    else if IsIdToken(tokens[|tokens| - 1]) then Some(Tail(tokens[|tokens| - 1]))
    else IdOf(tokens[..|tokens| - 1])
  }

  /** The class names a token list sets, in the order the tokens appear. */
  function ClassesOf(tokens: seq<string>): seq<string>
  {
    if tokens == [] then []
    else
      var last := tokens[|tokens| - 1];
      ClassesOf(tokens[..|tokens| - 1]) + (if IsIdToken(last) then [] else [Tail(last)])
  }

  /** The map `parseAttributeData` returns for the tokens it splits off. */
  function DataOf(tokens: seq<string>): (r: map<string, string>)
    ensures r.Keys <= {"id", "class"}
    ensures "id" in r <==> IdOf(tokens).Some?
    ensures "class" in r <==> ClassesOf(tokens) != []
  {
    var id := IdOf(tokens);
    var classes := ClassesOf(tokens);
    (if id.Some? then map["id" := id.value] else map[])
      + (if classes != [] then map["class" := Join(classes, " ")] else map[])
  }

  /** What `parseAttributeData($attributeString)` returns. */
  function AttributeData(attributeString: string): (r: map<string, string>)
    ensures attributeString == "" ==> r == map[]
    ensures r.Keys <= {"id", "class"}
  {
    DataOf(Words(attributeString))
  }

  /** ParsedownExtra.php:637-661: one pass over the space-separated tokens. */
  method ParseAttributeData(attributeString: string) returns (data: map<string, string>)
    ensures data == AttributeData(attributeString)
  {
    data := map[];
    var attributes := Words(attributeString);
    var classes: seq<string> := [];
    var i := 0;
    while i < |attributes|
      invariant 0 <= i <= |attributes|
      invariant classes == ClassesOf(attributes[..i])
      invariant data == if IdOf(attributes[..i]).Some? then map["id" := IdOf(attributes[..i]).value] else map[]
    {
      var attribute := attributes[i];
      assert attributes[..i + 1][..i] == attributes[..i];
      if IsIdToken(attribute) {
        data := data["id" := Tail(attribute)];
      } else {
        classes := classes + [Tail(attribute)];
      }
      i := i + 1;
    }
    assert attributes[..i] == attributes;
    if classes != [] {
      data := data["class" := Join(classes, " ")];
    }
  }

  /** A later `#` token overrides every earlier one. */
  lemma {:induction false} IdOfAppend(a: seq<string>, b: seq<string>)
    ensures IdOf(a + b) == if IdOf(b).Some? then IdOf(b) else IdOf(a)
  {
    if b != [] {
      assert (a + b)[..|a + b| - 1] == a + b[..|b| - 1];
      IdOfAppend(a, b[..|b| - 1]);
    } else {
      assert a + b == a;
    }
  }

  /** Class names keep the order of their tokens. */
  lemma {:induction false} ClassesOfAppend(a: seq<string>, b: seq<string>)
    ensures ClassesOf(a + b) == ClassesOf(a) + ClassesOf(b)
  {
    if b != [] {
      assert (a + b)[..|a + b| - 1] == a + b[..|b| - 1];
      ClassesOfAppend(a, b[..|b| - 1]);
    } else {
      assert a + b == a;
    }
  }

  /** The `id` is the name of the last `#` token. */
  lemma {:induction false} IdIsLastHashToken(tokens: seq<string>, i: nat)
    requires i < |tokens| && IsIdToken(tokens[i])
    requires forall j :: i < j < |tokens| ==> !IsIdToken(tokens[j])
    ensures IdOf(tokens) == Some(Tail(tokens[i]))
  {
    if i < |tokens| - 1 {
      IdIsLastHashToken(tokens[..|tokens| - 1], i);
    }
  }

  /** Without a `#` token there is no `id`. */
  lemma {:induction false} NoHashTokenNoId(tokens: seq<string>)
    requires forall j :: 0 <= j < |tokens| ==> !IsIdToken(tokens[j])
    ensures IdOf(tokens) == None
  {
    if tokens != [] {
      NoHashTokenNoId(tokens[..|tokens| - 1]);
    }
  }

  /** There are class names exactly when some token is not a `#` token. */
  lemma {:induction false} ClassesOfEmpty(tokens: seq<string>)
    ensures ClassesOf(tokens) == [] <==> forall j :: 0 <= j < |tokens| ==> IsIdToken(tokens[j])
  {
    if tokens != [] {
      var init, last := tokens[..|tokens| - 1], tokens[|tokens| - 1];
      ClassesOfEmpty(init);
      assert ClassesOf(tokens) == ClassesOf(init) + (if IsIdToken(last) then [] else [Tail(last)]);
      assert forall j :: 0 <= j < |init| ==> init[j] == tokens[j];
      assert (forall j :: 0 <= j < |tokens| ==> IsIdToken(tokens[j]))
        <==> (forall j :: 0 <= j < |init| ==> IsIdToken(init[j])) && IsIdToken(last);
    }
  }

  /** There is an `id` exactly when some token is a `#` token. */
  lemma {:induction false} IdOfPresent(tokens: seq<string>)
    ensures IdOf(tokens).Some? <==> exists j :: 0 <= j < |tokens| && IsIdToken(tokens[j])
  {
    if tokens != [] {
      var init := tokens[..|tokens| - 1];
      IdOfPresent(init);
      if exists j :: 0 <= j < |init| && IsIdToken(init[j]) {
        var j :| 0 <= j < |init| && IsIdToken(init[j]);
        assert tokens[j] == init[j];
      }
      if exists j :: 0 <= j < |tokens| && IsIdToken(tokens[j]) {
        var j :| 0 <= j < |tokens| && IsIdToken(tokens[j]);
        if j < |init| {
          assert init[j] == tokens[j];
        }
      }
    }
  }

  /** Applied to tokens written out with single spaces, `parseAttributeData` sees exactly those
    * tokens: `id` comes from the last `#` token (IdIsLastHashToken), `class` is the other tokens'
    * names joined by single spaces in source order, and each key is present exactly when such a
    * token exists. */
  lemma AttributeDataOfTokens(tokens: seq<string>)
    requires forall j :: 0 <= j < |tokens| ==> tokens[j] != [] && ' ' !in tokens[j]
    ensures AttributeData(Join(tokens, " ")) == DataOf(tokens)
    ensures "id" in DataOf(tokens) <==> exists j :: 0 <= j < |tokens| && IsIdToken(tokens[j])
    ensures "class" in DataOf(tokens) <==> exists j :: 0 <= j < |tokens| && !IsIdToken(tokens[j])
    ensures "class" in DataOf(tokens) ==> DataOf(tokens)["class"] == Join(ClassesOf(tokens), " ")
  {
    WordsOfJoin(tokens);
    IdOfPresent(tokens);
    ClassesOfEmpty(tokens);
  }

  // The fragment grammar `(?:[#.][-\w]+[ ]*)+`.

  /** Length of the longest prefix of name characters. */
  function NameRun(s: string): (n: nat)
    ensures n <= |s|
    ensures forall i :: 0 <= i < n ==> IsNameChar(s[i])
    ensures n < |s| ==> !IsNameChar(s[n])
  {
    if s != [] && IsNameChar(s[0]) then 1 + NameRun(s[1..]) else 0
  }

  /** Length of the longest prefix of spaces. */
  function SpaceRun(s: string): (n: nat)
    ensures n <= |s|
    ensures forall i :: 0 <= i < n ==> s[i] == ' '
    ensures n < |s| ==> s[n] != ' '
  {
    if s != [] && s[0] == ' ' then 1 + SpaceRun(s[1..]) else 0
  }

  /** Characters an attribute fragment may contain. */
  predicate IsFragmentChar(c: char) {
    IsNameChar(c) || c == '#' || c == '.' || c == ' '
  }

  /**
   * `s` matches `(?:[#.][-\w]+[ ]*)+` in full. The match is unique: after the greedy name run the
   * next character is not a name character, and after the greedy spaces it is not a space, so no
   * backtracking can produce a different split.
   */
  predicate IsAttrList(s: string)
    decreases |s|
  {
    && |s| >= 2 && (s[0] == '#' || s[0] == '.') && IsNameChar(s[1])
    && var n := 1 + NameRun(s[1..]);
       var m := n + SpaceRun(s[n..]);
       m == |s| || IsAttrList(s[m..])
  }

  /** A fragment holds no braces, brackets or other punctuation than `#`, `.` and `-`. */
  lemma {:induction false} AttrListChars(s: string)
    requires IsAttrList(s)
    ensures forall i :: 0 <= i < |s| ==> IsFragmentChar(s[i])
  {
    var n := 1 + NameRun(s[1..]);
    var m := n + SpaceRun(s[n..]);
    SegmentChars(s, n, m);
    if m < |s| {
      AttrListChars(s[m..]);
      TailChars(s, m);
    }
  }

  /** The first `#name` or `.name` of a fragment and the spaces after it. */
  lemma SegmentChars(s: string, n: nat, m: nat)
    requires |s| >= 1 && (s[0] == '#' || s[0] == '.')
    requires n == 1 + NameRun(s[1..]) && m == n + SpaceRun(s[n..])
    ensures m <= |s| && forall i :: 0 <= i < m ==> IsFragmentChar(s[i])
  {
    forall i | 0 <= i < m ensures IsFragmentChar(s[i]) {
      if 1 <= i < n {
        assert s[i] == s[1..][i - 1];
      } else if n <= i {
        assert s[i] == s[n..][i - n];
      }
    }
  }

  lemma TailChars(s: string, m: nat)
    requires m <= |s| && forall i :: 0 <= i < |s[m..]| ==> IsFragmentChar(s[m..][i])
    ensures forall i :: m <= i < |s| ==> IsFragmentChar(s[i])
  {
    forall i | m <= i < |s| ensures IsFragmentChar(s[i]) {
      assert s[i] == s[m..][i - m];
    }
  }

  /**
   * `\{A+\}` at the head of `s`: the fragment between `{` and the first `}`, when it is an
   * attribute list (a fragment holds no `}`, so no other `}` can close it).
   */
  function LeadingAnnotation(s: string): (r: Option<string>)
    ensures r.Some? ==> StartsWith(s, "{" + r.value + "}") && IsAttrList(r.value)
  {
    if s != [] && s[0] == '{' then
      match FirstIndexOf(s, '}', 1)
      case Some(k) =>
        assert s[..k + 1] == "{" + s[1..k] + "}";
        if IsAttrList(s[1..k]) then Some(s[1..k]) else None
      case None => None
    else None
  }

  /** An annotation `{F}` at the head of a string is recognised up to its `}`. */
  lemma LeadingAnnotationOf(fragment: string, rest: string)
    requires IsAttrList(fragment)
    ensures LeadingAnnotation("{" + fragment + "}" + rest) == Some(fragment)
  {
    var s := "{" + fragment + "}" + rest;
    AttrListChars(fragment);
    var k := |fragment| + 1;
    forall i | 1 <= i < k ensures s[i] != '}' {
      assert s[i] == fragment[i - 1];
    }
    FirstIndexOfAt(s, '}', 1, k);
    assert s[1..k] == fragment;
  }
}
