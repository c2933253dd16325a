/**
 * String helpers standing in for the PHP library calls the extension uses:
 * `trim`, `explode`/`preg_split` on one character, `preg_split('/[ ]+/', ..., NO_EMPTY)`,
 * `implode`, and the decimal rendering of integers.
 */
module Strings {

  /** Characters removed by PHP's `trim` with its default character list. */
  predicate IsTrimChar(c: char) {
    c == ' ' || c == '\t' || c == '\n' || c == '\r' || c == '\U{0}' || c == '\U{B}'
  }

  /** The characters of PCRE's `\w` without the `u` flag, plus `-`: the name part of an attribute. */
  predicate IsNameChar(c: char) {
    ('a' <= c <= 'z') || ('A' <= c <= 'Z') || ('0' <= c <= '9') || c == '_' || c == '-'
  }

  predicate StartsWith(s: string, prefix: string) {
    |prefix| <= |s| && s[..|prefix|] == prefix
  }

  predicate EndsWith(s: string, suffix: string) {
    |suffix| <= |s| && s[|s| - |suffix|..] == suffix
  }

  function TrimLeft(s: string): (r: string)
    ensures |r| <= |s| && r == s[|s| - |r|..]
    ensures r == [] || !IsTrimChar(r[0])
    ensures forall i :: 0 <= i < |s| - |r| ==> IsTrimChar(s[i])
  {
    if s != [] && IsTrimChar(s[0]) then TrimLeft(s[1..]) else s
  }

  function TrimRight(s: string): (r: string)
    ensures |r| <= |s| && r == s[..|r|]
    ensures r == [] || !IsTrimChar(r[|r| - 1])
    ensures forall i :: |r| <= i < |s| ==> IsTrimChar(s[i])
  {
    if s != [] && IsTrimChar(s[|s| - 1]) then TrimRight(s[..|s| - 1]) else s
  }

  /** Where `trim` starts keeping characters. */
  function TrimStart(s: string): nat
  {
    |s| - |TrimLeft(s)|
  }

  /**
   * PHP `trim($s)`: the infix of `s` left once trim characters are removed at both ends. Every
   * character removed is a trim character and neither end of the result is one, which fixes the
   * result: when it is empty, `s` holds trim characters only.
   */
  function Trim(s: string): (r: string)
    ensures TrimStart(s) + |r| <= |s| && r == s[TrimStart(s)..TrimStart(s) + |r|]
    ensures r == [] || (!IsTrimChar(r[0]) && !IsTrimChar(r[|r| - 1]))
    ensures forall i :: 0 <= i < TrimStart(s) ==> IsTrimChar(s[i])
    ensures forall i :: TrimStart(s) + |r| <= i < |s| ==> IsTrimChar(s[i])
  {
    var l := TrimLeft(s);
    var r := TrimRight(l);
    PrefixOfSuffix(s, l, r);
    TrimmedTail(s, l, r);
    r
  }

  /** What `TrimRight` removes from the suffix `l` of `s` lies at the end of `s`. */
  lemma {:induction false} TrimmedTail(s: string, l: string, r: string)
    requires |l| <= |s| && l == s[|s| - |l|..]
    requires |r| <= |l| && forall i :: |r| <= i < |l| ==> IsTrimChar(l[i])
    ensures forall i :: |s| - |l| + |r| <= i < |s| ==> IsTrimChar(s[i])
  {
    forall i | |s| - |l| + |r| <= i < |s|
      ensures IsTrimChar(s[i])
    {
      assert s[i] == l[i - (|s| - |l|)];
    }
  }

  /** A prefix of a suffix is an infix. */
  lemma PrefixOfSuffix(s: string, l: string, r: string)
    requires |l| <= |s| && l == s[|s| - |l|..]
    requires |r| <= |l| && r == l[..|r|]
    ensures r == s[|s| - |l|..|s| - |l| + |r|]
  {
    SliceOfSlice(s, |s| - |l|, |r|);
  }

  lemma SliceOfSlice(s: string, k: nat, n: nat)
    requires k + n <= |s|
    ensures s[k..][..n] == s[k..k + n]
  {
  }

  /** Removes leading spaces only (the `[ ]*` / ` *` of the extension's patterns). */
  function DropSpaces(s: string): (r: string)
    ensures |r| <= |s| && r == s[|s| - |r|..]
    ensures r == [] || r[0] != ' '
    ensures forall i :: 0 <= i < |s| - |r| ==> s[i] == ' '
  {
    if s != [] && s[0] == ' ' then DropSpaces(s[1..]) else s
  }

  lemma DropSpacesUnchanged(s: string)
    requires s == [] || s[0] != ' '
    ensures DropSpaces(s) == s
  {
  }

  lemma DropSpacesOfAllSpaces(s: string)
    ensures AllSpaces(s) <==> DropSpaces(s) == []
  {
    var r := DropSpaces(s);
    if r != [] {
      assert r[0] == s[|s| - |r|];
    }
  }

  lemma DropSpacesOfSpace(s: string)
    ensures DropSpaces([' '] + s) == DropSpaces(s)
  {
    assert ([' '] + s)[1..] == s;
  }

  lemma {:induction false} DropSpacesOfPadding(lead: string, t: string)
    requires AllSpaces(lead) && (t == [] || t[0] != ' ')
    ensures DropSpaces(lead + t) == t
  {
    if lead == [] {
      assert lead + t == t;
    } else {
      assert (lead + t)[0] == ' ' && (lead + t)[1..] == lead[1..] + t;
      DropSpacesOfPadding(lead[1..], t);
    }
  }

  lemma {:induction false} DropTrailingSpacesOfPadding(t: string, trail: string)
    requires AllSpaces(trail) && (t == [] || t[|t| - 1] != ' ')
    ensures DropTrailingSpaces(t + trail) == t
  {
    if trail == [] {
      assert t + trail == t;
    } else {
      var u := t + trail;
      assert u[|u| - 1] == ' ' && u[..|u| - 1] == t + trail[..|trail| - 1];
      DropTrailingSpacesOfPadding(t, trail[..|trail| - 1]);
    }
  }

  /** Removes trailing spaces only. */
  function DropTrailingSpaces(s: string): (r: string)
    ensures |r| <= |s| && r == s[..|r|]
    ensures r == [] || r[|r| - 1] != ' '
    ensures forall i :: |r| <= i < |s| ==> s[i] == ' '
  {
    if s != [] && s[|s| - 1] == ' ' then DropTrailingSpaces(s[..|s| - 1]) else s
  }

  lemma DropTrailingSpacesUnchanged(s: string)
    requires s == [] || s[|s| - 1] != ' '
    ensures DropTrailingSpaces(s) == s
  {
  }

  /** PHP `substr($s, $start)` for a non-negative start: the empty string past the end. */
  function Substr(s: string, start: nat): (r: string)
    ensures start <= |s| ==> r == s[start..]
    ensures start >= |s| ==> r == []
  {
    if start <= |s| then s[start..] else []
  }

  /** PHP `implode($sep, $parts)`. */
  function Join(parts: seq<string>, sep: string): string
  {
    if |parts| == 0 then ""
    else if |parts| == 1 then parts[0]
    else parts[0] + sep + Join(parts[1..], sep)
  }

  /** Joining one more part adds the separator and that part. */
  lemma {:induction false} JoinSnoc(parts: seq<string>, part: string, sep: string)
    requires |parts| >= 1
    ensures Join(parts + [part], sep) == Join(parts, sep) + sep + part
    decreases |parts|
  {
    var all := parts + [part];
    if |parts| == 1 {
      assert all[1..] == [part];
    } else {
      assert all[1..] == parts[1..] + [part];
      JoinSnoc(parts[1..], part, sep);
    }
  }

  /** PHP `explode($sep, $s)` for a one-character separator (also `preg_split('/\|/', $s)`). */
  function Split(s: string, sep: char): (r: seq<string>)
    ensures |r| >= 1
    ensures forall i :: 0 <= i < |r| ==> sep !in r[i]
    ensures Join(r, [sep]) == s
  {
    if s == [] then [[]]
    else
      var rest := Split(s[1..], sep);
      if s[0] == sep then
        [[]] + rest
      else
        assert Join([[s[0]] + rest[0]] + rest[1..], [sep]) == [s[0]] + Join(rest, [sep]) by {
          if |rest| > 1 {
            assert ([[s[0]] + rest[0]] + rest[1..])[1..] == rest[1..];
          }
        }
        [[s[0]] + rest[0]] + rest[1..]
  }

  lemma {:induction false} SplitWithoutSeparator(s: string, sep: char)
    requires sep !in s
    ensures Split(s, sep) == [s]
  {
    if s != [] {
      SplitWithoutSeparator(s[1..], sep);
    }
  }

  /** A separator-free part, then the separator: the part comes off whole. */
  lemma {:induction false} SplitPrefix(part: string, rest: string, sep: char)
    requires sep !in part
    ensures Split(part + [sep] + rest, sep) == [part] + Split(rest, sep)
  {
    var s := part + [sep] + rest;
    if part == [] {
      assert s[1..] == rest;
    } else {
      assert s[1..] == part[1..] + [sep] + rest;
      SplitPrefix(part[1..], rest, sep);
      assert [part[0]] + part[1..] == part;
    }
  }

  /** Separator-free parts joined by the separator split back into the same parts. */
  lemma {:induction false} SplitOfJoin(parts: seq<string>, sep: char)
    requires |parts| >= 1
    requires forall i :: 0 <= i < |parts| ==> sep !in parts[i]
    ensures Split(Join(parts, [sep]), sep) == parts
    decreases |parts|
  {
    if |parts| == 1 {
      SplitWithoutSeparator(parts[0], sep);
    } else {
      SplitOfJoin(parts[1..], sep);
      SplitPrefix(parts[0], Join(parts[1..], [sep]), sep);
      assert parts == [parts[0]] + parts[1..];
    }
  }

  /** The words of `s`: PHP `preg_split('/[ ]+/', $s, -1, PREG_SPLIT_NO_EMPTY)`. */
  function Words(s: string): (r: seq<string>)
    ensures forall i :: 0 <= i < |r| ==> r[i] != [] && ' ' !in r[i]
    ensures s != [] && s[0] != ' ' ==> r != [] && r[0][0] == s[0]
    ensures Concat(r) == RemoveSpaces(s)
  {
    if s == [] then []
    else
      var rest := Words(s[1..]);
      if s[0] == ' ' then rest
      else if |s| > 1 && s[1] != ' ' then
        assert Concat([[s[0]] + rest[0]] + rest[1..]) == [s[0]] + Concat(rest) by {
          assert ([[s[0]] + rest[0]] + rest[1..])[1..] == rest[1..];
        }
        [[s[0]] + rest[0]] + rest[1..]
      else
        assert Concat([[s[0]]] + rest) == [s[0]] + Concat(rest) by {
          assert ([[s[0]]] + rest)[1..] == rest;
        }
        [[s[0]]] + rest
  }

  function Concat(parts: seq<string>): string
  {
    if parts == [] then "" else parts[0] + Concat(parts[1..])
  }

  function RemoveSpaces(s: string): string
  {
    if s == [] then "" else (if s[0] == ' ' then "" else [s[0]]) + RemoveSpaces(s[1..])
  }

  /** Words separated by single spaces split back into the same words. */
  lemma {:induction false} WordsOfJoin(ws: seq<string>)
    requires forall i :: 0 <= i < |ws| ==> ws[i] != [] && ' ' !in ws[i]
    ensures Words(Join(ws, " ")) == ws
  {
    if |ws| == 0 {
    } else if |ws| == 1 {
      WordsOfWord(ws[0]);
    } else {
      WordsOfJoin(ws[1..]);
      WordsOfWordThenSpace(ws[0], Join(ws[1..], " "));
      assert ws == [ws[0]] + ws[1..];
    }
  }

  lemma {:induction false} WordsOfWord(w: string)
    requires w != [] && ' ' !in w
    ensures Words(w) == [w]
  {
    if |w| > 1 {
      assert ' ' !in w[1..] by {
        forall i | 0 <= i < |w| - 1 ensures w[1..][i] != ' ' { assert w[1..][i] == w[i + 1]; }
      }
      WordsOfWord(w[1..]);
      assert w[1] != ' ' by { assert w[1] in w; }
      assert [w[0]] + w[1..] == w;
    } else {
      assert [w[0]] == w;
    }
  }

  lemma {:induction false} WordsOfWordThenSpace(w: string, t: string)
    requires w != [] && ' ' !in w
    ensures Words(w + " " + t) == [w] + Words(t)
  {
    var s := w + " " + t;
    if |w| == 1 {
      assert s[1..] == " " + t;
      assert (" " + t)[1..] == t;
      assert s[0] == w[0] && [w[0]] == w;
    } else {
      assert s[1..] == w[1..] + " " + t;
      assert ' ' !in w[1..] by {
        forall i | 0 <= i < |w| - 1 ensures w[1..][i] != ' ' { assert w[1..][i] == w[i + 1]; }
      }
      WordsOfWordThenSpace(w[1..], t);
      assert s[1] == w[1] && s[0] == w[0];
      assert w[1] != ' ' by { assert w[1] in w; }
      assert [w[0]] + w[1..] == w;
    }
  }

  predicate AllSpaces(g: string)
  {
    forall i :: 0 <= i < |g| ==> g[i] == ' '
  }

  /** Runs of spaces around and between `n` words: the outer two may be empty, the inner ones not. */
  predicate IsGaps(n: nat, gaps: seq<string>)
  {
    && |gaps| == n + 1
    && (forall i :: 0 <= i < |gaps| ==> AllSpaces(gaps[i]))
    && (forall i :: 0 < i < n ==> gaps[i] != [])
  }

  /** The words `ws` laid out with the space runs `gaps` before, between and after them. */
  function Spaced(ws: seq<string>, gaps: seq<string>): string
    requires |gaps| == |ws| + 1
  {
    if ws == [] then gaps[0] else gaps[0] + ws[0] + Spaced(ws[1..], gaps[1..])
  }

  /**
   * `Words` is exact: words laid out with any runs of spaces split back into those words, and
   * (`SpacedWords`) every string is such a layout of its own words.
   */
  lemma {:induction false} WordsOfSpaced(ws: seq<string>, gaps: seq<string>)
    requires forall i :: 0 <= i < |ws| ==> ws[i] != [] && ' ' !in ws[i]
    requires IsGaps(|ws|, gaps)
    ensures Words(Spaced(ws, gaps)) == ws
  {
    if ws == [] {
      WordsOfSpaces(gaps[0], "");
      assert gaps[0] + "" == gaps[0];
    } else {
      var tail := Spaced(ws[1..], gaps[1..]);
      assert IsGaps(|ws| - 1, gaps[1..]) by {
        forall i | 0 <= i < |gaps| - 1 ensures AllSpaces(gaps[1..][i]) { assert gaps[1..][i] == gaps[i + 1]; }
      }
      WordsOfSpaced(ws[1..], gaps[1..]);
      WordsOfSpaces(gaps[0], ws[0] + tail);
      assert Spaced(ws, gaps) == gaps[0] + (ws[0] + tail);
      WordThenSpaced(ws[0], ws[1..], gaps[1..]);
      assert ws == [ws[0]] + ws[1..];
    }
  }

  /** A word followed by a layout that starts with spaces (or is only spaces) heads the words. */
  lemma {:induction false} WordThenSpaced(w: string, ws: seq<string>, gaps: seq<string>)
    requires w != [] && ' ' !in w
    requires IsGaps(|ws|, gaps) && (gaps[0] != [] || ws == [])
    ensures Words(w + Spaced(ws, gaps)) == [w] + Words(Spaced(ws, gaps))
  {
    var rest := if ws == [] then "" else ws[0] + Spaced(ws[1..], gaps[1..]);
    assert Spaced(ws, gaps) == gaps[0] + rest;
    assert w + Spaced(ws, gaps) == w + gaps[0] + rest;
    WordsOfWordThenSpaces(w, gaps[0], rest);
    WordsOfSpaces(gaps[0], rest);
  }

  lemma {:induction false} SpacedWords(s: string) returns (gaps: seq<string>)
    ensures IsGaps(|Words(s)|, gaps) && Spaced(Words(s), gaps) == s
  {
    if s == [] {
      gaps := [""];
    } else {
      var inner := SpacedWords(s[1..]);
      var rest := Words(s[1..]);
      assert [s[0]] + s[1..] == s;
      if s[0] == ' ' {
        assert Words(s) == rest;
        gaps := SpacedAfterSpace(s[1..], rest, inner);
      } else if |s| > 1 && s[1] != ' ' {
        WordsInsideWord(s);
        gaps := SpacedInsideWord(s[0], s[1..], rest, inner);
      } else {
        WordsAtWordEnd(s);
        gaps := SpacedAtWordEnd(s[0], s[1..], rest, inner);
      }
    }
  }

  lemma {:induction false} WordsInsideWord(s: string)
    requires |s| > 1 && s[0] != ' ' && s[1] != ' '
    ensures Words(s[1..]) != [] && Words(s) == [[s[0]] + Words(s[1..])[0]] + Words(s[1..])[1..]
  {
  }

  lemma {:induction false} WordsAtWordEnd(s: string)
    requires s != [] && s[0] != ' ' && (|s| == 1 || s[1] == ' ')
    ensures Words(s) == [[s[0]]] + Words(s[1..])
  {
  }

  /** A space in front of a layout joins its first gap. */
  lemma {:induction false} SpacedAfterSpace(t: string, ws: seq<string>, inner: seq<string>)
    returns (gaps: seq<string>)
    requires IsGaps(|ws|, inner) && Spaced(ws, inner) == t
    ensures IsGaps(|ws|, gaps) && Spaced(ws, gaps) == " " + t
  {
    gaps := [" " + inner[0]] + inner[1..];
    SpacedPrefix(ws, inner, " ");
    assert AllSpaces(gaps[0]);
    assert forall i :: 0 < i < |gaps| ==> gaps[i] == inner[i];
  }

  /** A non-space character in front of a layout that starts with a word joins that word. */
  lemma {:induction false} SpacedInsideWord(c: char, t: string, ws: seq<string>, inner: seq<string>)
    returns (gaps: seq<string>)
    requires t != [] && t[0] != ' ' && ws != []
    requires IsGaps(|ws|, inner) && Spaced(ws, inner) == t
    ensures IsGaps(|ws|, gaps) && Spaced([[c] + ws[0]] + ws[1..], gaps) == [c] + t
  {
    assert t == inner[0] + (ws[0] + Spaced(ws[1..], inner[1..]));
    SpacesHead(inner[0], ws[0] + Spaced(ws[1..], inner[1..]));
    SpacedJoin(c, ws, inner);
    gaps := inner;
  }

  /** A non-space character in front of a layout that starts with spaces (or is empty) is a word of its own. */
  lemma {:induction false} SpacedAtWordEnd(c: char, t: string, ws: seq<string>, inner: seq<string>)
    returns (gaps: seq<string>)
    requires t == [] || t[0] == ' '
    requires forall i :: 0 <= i < |ws| ==> ws[i] != [] && ' ' !in ws[i]
    requires IsGaps(|ws|, inner) && Spaced(ws, inner) == t
    ensures IsGaps(|ws| + 1, gaps) && Spaced([[c]] + ws, gaps) == [c] + t
  {
    FirstGap(t, ws, inner);
    gaps := [""] + inner;
    SpacedCons(c, ws, inner);
    GapsCons(|ws|, inner);
  }

  lemma {:induction false} SpacesHead(g: string, t: string)
    requires AllSpaces(g)
    ensures g == [] || (g + t)[0] == ' '
  {
  }

  /** A character put in front of the first word of a layout with an empty first gap. */
  lemma {:induction false} SpacedJoin(c: char, ws: seq<string>, gaps: seq<string>)
    requires ws != [] && |gaps| == |ws| + 1 && gaps[0] == []
    ensures Spaced([[c] + ws[0]] + ws[1..], gaps) == [c] + Spaced(ws, gaps)
  {
    var r := [[c] + ws[0]] + ws[1..];
    var tail := Spaced(ws[1..], gaps[1..]);
    assert r != [] && r[0] == [c] + ws[0] && r[1..] == ws[1..];
    assert Spaced(r, gaps) == gaps[0] + r[0] + Spaced(r[1..], gaps[1..]);
    assert Spaced(ws, gaps) == gaps[0] + ws[0] + tail;
    assert gaps[0] + r[0] + tail == [c] + (gaps[0] + ws[0] + tail);
  }

  /** A layout that is empty or starts with a space has a space run before its first word. */
  lemma {:induction false} FirstGap(t: string, ws: seq<string>, gaps: seq<string>)
    requires |gaps| == |ws| + 1 && Spaced(ws, gaps) == t && (t == [] || t[0] == ' ')
    requires forall i :: 0 <= i < |ws| ==> ws[i] != [] && ' ' !in ws[i]
    ensures ws != [] ==> gaps[0] != []
  {
    if ws != [] {
      var tail := ws[0] + Spaced(ws[1..], gaps[1..]);
      assert t == gaps[0] + tail;
      assert tail[0] == ws[0][0] && ws[0][0] in ws[0];
    }
  }

  /** A one-character word put in front of a layout, with no space before it. */
  lemma {:induction false} SpacedCons(c: char, ws: seq<string>, gaps: seq<string>)
    requires |gaps| == |ws| + 1
    ensures Spaced([[c]] + ws, [""] + gaps) == [c] + Spaced(ws, gaps)
  {
    var r := [[c]] + ws;
    var g := [""] + gaps;
    assert r[0] == [c] && r[1..] == ws && g[0] == "" && g[1..] == gaps;
  }

  lemma {:induction false} GapsCons(n: nat, gaps: seq<string>)
    requires IsGaps(n, gaps) && (n > 0 ==> gaps[0] != [])
    ensures IsGaps(n + 1, [""] + gaps)
  {
    var g := [""] + gaps;
    assert forall i :: 0 < i < |g| ==> g[i] == gaps[i - 1];
  }

  /** Spaces added before a layout join its first gap. */
  lemma {:induction false} SpacedPrefix(ws: seq<string>, gaps: seq<string>, p: string)
    requires |gaps| == |ws| + 1
    ensures Spaced(ws, [p + gaps[0]] + gaps[1..]) == p + Spaced(ws, gaps)
  {
    var g := [p + gaps[0]] + gaps[1..];
    if ws != [] {
      assert g[1..] == gaps[1..];
    }
  }

  /** Leading spaces do not change the words. */
  lemma {:induction false} WordsOfSpaces(g: string, t: string)
    requires AllSpaces(g)
    ensures Words(g + t) == Words(t)
  {
    if g != [] {
      assert (g + t)[0] == ' ' && (g + t)[1..] == g[1..] + t;
      WordsOfSpaces(g[1..], t);
    } else {
      assert g + t == t;
    }
  }

  lemma {:induction false} WordsOfWordThenSpaces(w: string, g: string, t: string)
    requires w != [] && ' ' !in w && AllSpaces(g)
    requires g != [] || t == []
    ensures Words(w + g + t) == [w] + Words(t)
  {
    if g == [] {
      WordsOfWord(w);
      assert w + g + t == w;
    } else {
      assert w + g + t == w + " " + (g[1..] + t);
      WordsOfWordThenSpace(w, g[1..] + t);
      WordsOfSpaces(g[1..], t);
    }
  }

  function Digit(d: nat): char
    requires d < 10
  {
    "0123456789"[d]
  }

  /** The decimal text of a non-negative integer, as PHP's string conversion gives it. */
  function NatToString(n: nat): (r: string)
    ensures r != []
    ensures forall i :: 0 <= i < |r| ==> '0' <= r[i] <= '9'
    ensures n > 0 ==> r[0] != '0'
  {
    if n < 10 then [Digit(n)] else NatToString(n / 10) + [Digit(n % 10)]
  }

  function DigitValue(c: char): nat
    requires '0' <= c <= '9'
  {
    (c as int - '0' as int) as nat
  }

  function ParseNat(s: string): nat
    requires forall i :: 0 <= i < |s| ==> '0' <= s[i] <= '9'
  {
    if s == [] then 0 else 10 * ParseNat(s[..|s| - 1]) + DigitValue(s[|s| - 1])
  }

  /** Reading the decimal text back gives the number: distinct numbers give distinct texts. */
  lemma {:induction false} NatToStringRoundTrip(n: nat)
    ensures ParseNat(NatToString(n)) == n
  {
    var r := NatToString(n);
    if n < 10 {
      assert r[..0] == [];
    } else {
      NatToStringRoundTrip(n / 10);
      assert r[..|r| - 1] == NatToString(n / 10);
    }
  }
}
