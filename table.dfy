/**
 * Table body rows (ParsedownExtra.php:431-499): a row is split on every `|`, each non-empty cell
 * becomes a `td` under its split index, and empty cells widen the `td` before them through a
 * running `colspan`.
 */
module Tables {
  import opened Options
  import opened Strings
  import opened Lines

  /** A `td`: its trimmed text, its `style` attribute and its `colspan` attribute. */
  datatype Cell = Cell(text: string, style: Option<string>, colspan: Option<nat>)

  /**
   * The table block as far as its body rows go: the header's alignment per column (`None` where
   * the header gave none), the `tr` elements, each a sparse map from split index to `td`, and
   * the base engine's blank-line flag.
   */
  datatype Table = Table(alignments: seq<Option<string>>, rows: seq<map<int, Cell>>, interrupted: bool)

  /**
   * `preg_replace('/^ *\| *| *\| *$/', '', $row)`: one leading pipe with the spaces around it,
   * and one trailing pipe with the spaces around it, are removed.
   */
  function StripPipes(text: string): (r: string)
    ensures |r| <= |text|
  {
    var lead := DropSpaces(text);
    var rest := if lead != [] && lead[0] == '|' then DropSpaces(lead[1..]) else text;
    var u := DropTrailingSpaces(rest);
    if u != [] && u[|u| - 1] == '|' then DropTrailingSpaces(u[..|u| - 1]) else rest
  }

  /** The cells of a row line. */
  function Cells(text: string): (cells: seq<string>)
    ensures |cells| >= 1 && forall i :: 0 <= i < |cells| ==> '|' !in cells[i]
  {
    Split(StripPipes(text), '|')
  }

  /** The number of empty cells at the head of `s`. */
  function LeadingEmpties(s: seq<string>): (n: nat)
    ensures n <= |s|
  {
    if s == [] || s[0] != "" then 0 else 1 + LeadingEmpties(s[1..])
  }

  /** The number of empty cells at the end of `s`. */
  function TrailingEmpties(s: seq<string>): (n: nat)
    ensures n <= |s|
  {
    if s == [] || s[|s| - 1] != "" then 0 else 1 + TrailingEmpties(s[..|s| - 1])
  }

  /** What `t` empty cells after a `td` add to its `colspan`: 2, then 3, and so on. */
  function Spread(t: nat): nat
  {
    if t == 0 then 0 else Spread(t - 1) + t + 1
  }

  /**
   * The `colspan` of a `td` that `lead` empty cells precede (since the previous `td`) and `trail`
   * empty cells follow: `lead + 1` taken on creation, then the running count of each empty cell
   * after it.
   */
  function Colspan(lead: nat, trail: nat): Option<nat>
  {
    if lead == 0 && trail == 0 then None
    else Some((if lead > 0 then lead + 1 else 0) + Spread(trail))
  }

  /** `text-align: X;` when the header gave column `i` an alignment. */
  function Style(alignments: seq<Option<string>>, i: int): Option<string>
  {
    if 0 <= i < |alignments| && alignments[i].Some? then Some("text-align: " + alignments[i].value + ";") else None
  }

  /** The number of empty cells right after cell `i`, among the first `n`. */
  function Gap(cells: seq<string>, i: nat, n: nat): nat
    requires i < n <= |cells|
  {
    LeadingEmpties(cells[i + 1..n])
  }

  /** Every cell trimmed. */
  function TrimAll(cells: seq<string>): (texts: seq<string>)
    ensures |texts| == |cells|
  {
    if cells == [] then [] else [Trim(cells[0])] + TrimAll(cells[1..])
  }

  /**
   * The `td` of non-empty cell `i` once the first `n` cells are read; `texts` holds the cells'
   * trimmed texts.
   */
  function CellAt(cells: seq<string>, texts: seq<string>, alignments: seq<Option<string>>, i: nat, n: nat): Cell
    requires i < n <= |cells| == |texts|
  {
    Cell(texts[i], Style(alignments, i), Colspan(TrailingEmpties(cells[..i]), Gap(cells, i, n)))
  }

  /** The `td` elements of the first `n` cells. */
  function Row(cells: seq<string>, texts: seq<string>, alignments: seq<Option<string>>, n: nat): map<int, Cell>
    requires n <= |cells| == |texts|
  {
    map i | 0 <= i < n && cells[i] != "" :: CellAt(cells, texts, alignments, i, n)
  }

  /**
   * The `tr` a row of cells yields, in closed form: a `td` for each non-empty cell, under its
   * index, holding the trimmed cell and the column's style.
   */
  function RowSpec(cells: seq<string>, alignments: seq<Option<string>>): map<int, Cell>
  {
    Row(cells, TrimAll(cells), alignments, |cells|)
  }

  /**
   * `blockTableContinue` (ParsedownExtra.php:431-499). An interrupted table, or a line without a
   * `|`, is not continued; otherwise exactly one row is appended.
   */
  method BlockTableContinue(line: Line, table: Table) returns (r: Option<Table>)
    ensures table.interrupted || '|' !in line.text ==> r.None?
    ensures !table.interrupted && '|' in line.text ==>
      r == Some(table.(rows := table.rows + [RowSpec(Cells(line.text), table.alignments)]))
  {
    if table.interrupted || '|' !in line.text {
      return None;
    }
    var elements := ScanRow(Cells(line.text), table.alignments);
    r := Some(table.(rows := table.rows + [elements]));
  }

  /**
   * The loop over a row's cells (ParsedownExtra.php:446-483): a `td` for each non-empty cell,
   * and each empty cell adds the running count to the `colspan` of the nearest `td` before it.
   */
  method ScanRow(cells: seq<string>, alignments: seq<Option<string>>) returns (elements: map<int, Cell>)
    ensures elements == RowSpec(cells, alignments)
  {
    elements := map[];
    var colspan: nat := 1;
    var k := 0;
    while k < |cells|
      invariant 0 <= k <= |cells|
      invariant elements == Scan(cells, alignments, k).0
      invariant colspan == Scan(cells, alignments, k).1
    {
      ghost var step := ScanStep(cells, alignments, k, elements, colspan);
      assert Scan(cells, alignments, k + 1).0 == step.0 && Scan(cells, alignments, k + 1).1 == step.1;
      if cells[k] == "" {
        colspan := colspan + 1;
        var prev := LastCellBefore(elements, k);
        if prev > -1 {
          var e := elements[prev];
          var span := if e.colspan.None? then colspan else e.colspan.value + colspan;
          assert e.(colspan := Some(span)) == Widen(e, colspan);
          elements := elements[prev := e.(colspan := Some(span))];
          assert elements == step.0;
        } else {
          assert elements == step.0;
        }
      } else {
        var span := if colspan > 1 then Some(colspan) else None;
        elements := elements[k := Cell(Trim(cells[k]), Style(alignments, k), span)];
        colspan := 1;
        assert elements == step.0;
      }
      k := k + 1;
    }
    ScanIsRow(cells, alignments, |cells|);
    assert cells[..|cells|] == cells;
  }

  /**
   * One pass of the loop of `blockTableContinue` over cell `k`, from the `td` elements so far and
   * the running `colspan`.
   */
  function ScanStep(cells: seq<string>, alignments: seq<Option<string>>, k: nat, elements: map<int, Cell>, colspan: nat): (map<int, Cell>, nat)
    requires k < |cells|
  {
    if cells[k] == "" then
      var prev := LastKeyBefore(elements, k);
      (if prev > -1 then elements[prev := Widen(elements[prev], colspan + 1)] else elements, colspan + 1)
    else
      (elements[k := Cell(Trim(cells[k]), Style(alignments, k), if colspan > 1 then Some(colspan) else None)], 1)
  }

  /** The loop over the first `n` cells. */
  function Scan(cells: seq<string>, alignments: seq<Option<string>>, n: nat): (map<int, Cell>, nat)
    requires n <= |cells|
  {
    if n == 0 then (map[], 1)
    else
      var last := Scan(cells, alignments, n - 1);
      ScanStep(cells, alignments, n - 1, last.0, last.1)
  }

  /**
   * The loop builds the closed-form row: after `n` cells it holds a `td` for each non-empty cell
   * among them, and the running count is one more than the empty cells at their end.
   */
  lemma {:induction false} ScanIsRow(cells: seq<string>, alignments: seq<Option<string>>, n: nat)
    requires n <= |cells|
    ensures Scan(cells, alignments, n).0 == Row(cells, TrimAll(cells), alignments, n)
    ensures Scan(cells, alignments, n).1 == 1 + TrailingEmpties(cells[..n])
    decreases n
  {
    if n == 0 {
      assert Row(cells, TrimAll(cells), alignments, 0) == map[];
    } else {
      // Each unfolding of the loop is stated before the induction hypothesis enters the context.
      var k := n - 1;
      var last := Scan(cells, alignments, k);
      var elements, colspan := last.0, last.1;
      var next := Scan(cells, alignments, n);
      if cells[k] == "" {
        var prev := LastKeyBefore(elements, k);
        assert next.1 == colspan + 1;
        if prev > -1 {
          assert next.0 == elements[prev := Widen(elements[prev], colspan + 1)];
          ScanIsRow(cells, alignments, k);
          StepEmptyAfter(cells, alignments, k, prev);
        } else {
          assert next.0 == elements;
          ScanIsRow(cells, alignments, k);
          StepEmptyFirst(cells, alignments, k);
        }
      } else {
        assert next.1 == 1;
        assert next.0 == elements[k := Cell(Trim(cells[k]), Style(alignments, k), if colspan > 1 then Some(colspan) else None)];
        ScanIsRow(cells, alignments, k);
        StepFilled(cells, alignments, k);
      }
    }
  }

  /** Every cell strictly between `lo` and `hi` is empty. */
  predicate EmptyBetween(cells: seq<string>, lo: int, hi: int)
    requires -1 <= lo && hi <= |cells|
  {
    forall q :: lo < q < hi ==> cells[q] == ""
  }

  /** The nearest index below `k` that holds a `td`, or -1 when there is none. */
  function LastKeyBefore(elements: map<int, Cell>, k: int): (p: int)
    ensures k >= 0 ==> -1 <= p < k
    ensures p > -1 ==> p in elements
    decreases k
  {
    if k <= 0 then -1 else if k - 1 in elements then k - 1 else LastKeyBefore(elements, k - 1)
  }

  /**
   * The backward scan from an empty cell at index `k` (ParsedownExtra.php:455-464): the nearest
   * earlier index holding a `td`, or -1 when there is none.
   */
  method LastCellBefore(elements: map<int, Cell>, k: nat) returns (prev: int)
    ensures prev == LastKeyBefore(elements, k)
  {
    prev := k - 1;
    while prev > -1 && prev !in elements
      invariant -1 <= prev < k
      invariant LastKeyBefore(elements, prev + 1) == LastKeyBefore(elements, k)
    {
      prev := prev - 1;
    }
  }

  /** What the scan finds: a `td` where it stops and none between there and `k`. */
  lemma {:induction false} LastKeyBeforeFacts(elements: map<int, Cell>, k: int)
    ensures var p := LastKeyBefore(elements, k);
      && (k >= 0 ==> -1 <= p < k)
      && (p > -1 ==> p in elements)
      && forall q :: p < q < k ==> q !in elements
    decreases k
  {
    if k > 0 && k - 1 !in elements {
      LastKeyBeforeFacts(elements, k - 1);
    }
  }

  // The loop's step, in closed form.

  lemma {:induction false} TrimAllAt(cells: seq<string>, k: nat)
    requires k < |cells|
    ensures TrimAll(cells)[k] == Trim(cells[k])
  {
    if k > 0 {
      TrimAllAt(cells[1..], k - 1);
      assert cells[1..][k - 1] == cells[k];
      assert TrimAll(cells)[k] == TrimAll(cells[1..])[k - 1];
    }
  }

  /** `LeadingEmpties` counts the empty cells before the first non-empty one. */
  lemma {:induction false} LeadingEmptiesFacts(s: seq<string>)
    ensures var n := LeadingEmpties(s); (forall i :: 0 <= i < n ==> s[i] == "") && (n < |s| ==> s[n] != "")
  {
    if s != [] && s[0] == "" {
      LeadingEmptiesFacts(s[1..]);
    }
  }

  /** `TrailingEmpties` counts the empty cells after the last non-empty one. */
  lemma {:induction false} TrailingEmptiesFacts(s: seq<string>)
    ensures var n := TrailingEmpties(s); (forall i :: |s| - n <= i < |s| ==> s[i] == "") && (n < |s| ==> s[|s| - 1 - n] != "")
  {
    if s != [] && s[|s| - 1] == "" {
      TrailingEmptiesFacts(s[..|s| - 1]);
    }
  }

  lemma LeadingEmptiesIs(s: seq<string>, n: nat)
    requires n <= |s| && (forall i :: 0 <= i < n ==> s[i] == "") && (n < |s| ==> s[n] != "")
    ensures LeadingEmpties(s) == n
  {
    LeadingEmptiesFacts(s);
  }

  /** The scan back from an empty cell stops at the last `td`: `p` is where it stops. */
  lemma TrailingEmptiesAt(s: seq<string>, p: int)
    requires -1 <= p < |s| && (p >= 0 ==> s[p] != "")
    requires forall q :: p < q < |s| ==> s[q] == ""
    ensures TrailingEmpties(s) == |s| - 1 - p
  {
    TrailingEmptiesFacts(s);
  }

  lemma TrailingEmptiesSnoc(cells: seq<string>, k: nat)
    requires k < |cells|
    ensures TrailingEmpties(cells[..k + 1]) == if cells[k] == "" then TrailingEmpties(cells[..k]) + 1 else 0
  {
    assert cells[..k + 1][..k] == cells[..k];
  }

  /** Where the backward scan from cell `k` stops, every cell after it is empty. */
  lemma ScanStopsAtLastCell(cells: seq<string>, k: nat, prev: int)
    requires k < |cells| && -1 <= prev < k
    requires prev > -1 ==> cells[prev] != ""
    requires EmptyBetween(cells, prev, k)
    ensures TrailingEmpties(cells[..k]) == k - 1 - prev
  {
    TrailingEmptiesAt(cells[..k], prev);
  }

  /** One more cell extends the gap after `i` only when every cell since `i` is empty. */
  lemma GapSnoc(cells: seq<string>, i: nat, n: nat)
    requires i < n < |cells|
    ensures Gap(cells, i, n + 1) == if Gap(cells, i, n) == n - i - 1 && cells[n] == "" then n - i else Gap(cells, i, n)
  {
    var s := cells[i + 1..n];
    var t := cells[i + 1..n + 1];
    assert t == s + [cells[n]];
    var g := LeadingEmpties(s);
    LeadingEmptiesFacts(s);
    if g == |s| && cells[n] == "" {
      LeadingEmptiesIs(t, |s| + 1);
    } else {
      assert g < |t| ==> t[g] != "";
      LeadingEmptiesIs(t, g);
    }
  }

  /** The loop body for a non-empty cell keeps its invariant. */
  lemma StepFilled(cells: seq<string>, alignments: seq<Option<string>>, k: nat)
    requires k < |cells| && cells[k] != ""
    ensures var colspan := 1 + TrailingEmpties(cells[..k]);
      Row(cells, TrimAll(cells), alignments, k)[k := Cell(Trim(cells[k]), Style(alignments, k), if colspan > 1 then Some(colspan) else None)]
      == Row(cells, TrimAll(cells), alignments, k + 1)
    ensures TrailingEmpties(cells[..k + 1]) == 0
  {
    var texts := TrimAll(cells);
    RowSnocFilled(cells, texts, alignments, k);
    TrimAllAt(cells, k);
    TrailingEmptiesSnoc(cells, k);
    assert cells[k + 1..k + 1] == [];
  }

  /** What the backward scan finds out about the cells it passes and the one it stops at. */
  lemma ScanFacts(cells: seq<string>, texts: seq<string>, alignments: seq<Option<string>>, k: nat, elements: map<int, Cell>, prev: int)
    requires |texts| == |cells| && k < |cells|
    requires elements == Row(cells, texts, alignments, k)
    requires prev == LastKeyBefore(elements, k)
    ensures -1 <= prev < k
    ensures prev > -1 ==> cells[prev] != ""
    ensures EmptyBetween(cells, prev, k)
  {
    LastKeyBeforeFacts(elements, k);
    forall q | prev < q < k
      ensures cells[q] == ""
    {
      assert q !in elements;
    }
  }

  /** An empty cell after a `td`: the running count reaches it and widens that `td`. */
  lemma StepEmptyAfter(cells: seq<string>, alignments: seq<Option<string>>, k: nat, p: nat)
    requires k < |cells| && cells[k] == ""
    requires p == LastKeyBefore(Row(cells, TrimAll(cells), alignments, k), k)
    ensures p < k && p in Row(cells, TrimAll(cells), alignments, k)
    ensures TrailingEmpties(cells[..k + 1]) == TrailingEmpties(cells[..k]) + 1
    ensures 2 + TrailingEmpties(cells[..k]) == k - p + 1
    ensures Row(cells, TrimAll(cells), alignments, k)[p := Widen(Row(cells, TrimAll(cells), alignments, k)[p], k - p + 1)]
      == Row(cells, TrimAll(cells), alignments, k + 1)
  {
    var texts := TrimAll(cells);
    ScanFacts(cells, texts, alignments, k, Row(cells, texts, alignments, k), p);
    SpanAfter(cells, k, p);
    RowSnocEmpty(cells, texts, alignments, k, p);
  }

  /** An empty cell with no `td` before it only advances the running count. */
  lemma StepEmptyFirst(cells: seq<string>, alignments: seq<Option<string>>, k: nat)
    requires k < |cells| && cells[k] == ""
    requires LastKeyBefore(Row(cells, TrimAll(cells), alignments, k), k) == -1
    ensures TrailingEmpties(cells[..k + 1]) == TrailingEmpties(cells[..k]) + 1
    ensures Row(cells, TrimAll(cells), alignments, k + 1) == Row(cells, TrimAll(cells), alignments, k)
  {
    var texts := TrimAll(cells);
    ScanFacts(cells, texts, alignments, k, Row(cells, texts, alignments, k), -1);
    TrailingEmptiesSnoc(cells, k);
    RowSnocEmptyFirst(cells, texts, alignments, k);
  }

  /** The running count after an empty cell that follows a `td`. */
  lemma SpanAfter(cells: seq<string>, k: nat, prev: nat)
    requires k < |cells| && cells[k] == ""
    requires prev < k && cells[prev] != "" && EmptyBetween(cells, prev, k)
    ensures TrailingEmpties(cells[..k + 1]) == TrailingEmpties(cells[..k]) + 1
    ensures 2 + TrailingEmpties(cells[..k]) == k - prev + 1
  {
    ScanStopsAtLastCell(cells, k, prev);
    TrailingEmptiesSnoc(cells, k);
  }

  /** A cell's `td` changes with a new cell only if the gap after it does. */
  lemma CellAtSnoc(cells: seq<string>, texts: seq<string>, alignments: seq<Option<string>>, i: nat, n: nat)
    requires |texts| == |cells| && i < n < |cells| && Gap(cells, i, n + 1) == Gap(cells, i, n)
    ensures CellAt(cells, texts, alignments, i, n + 1) == CellAt(cells, texts, alignments, i, n)
  {
  }

  lemma RowSnocFilledAt(cells: seq<string>, texts: seq<string>, alignments: seq<Option<string>>, k: nat, i: int)
    requires |texts| == |cells| && k < |cells| && cells[k] != "" && 0 <= i < k && cells[i] != ""
    ensures Row(cells, texts, alignments, k + 1)[i] == Row(cells, texts, alignments, k)[i]
  {
    GapSnoc(cells, i, k);
    CellAtSnoc(cells, texts, alignments, i, k);
  }

  /** A non-empty cell adds its own `td`, widened by the empty cells just before it. */
  lemma RowSnocFilled(cells: seq<string>, texts: seq<string>, alignments: seq<Option<string>>, k: nat)
    requires |texts| == |cells| && k < |cells| && cells[k] != ""
    ensures Row(cells, texts, alignments, k + 1) == Row(cells, texts, alignments, k)[k := CellAt(cells, texts, alignments, k, k + 1)]
  {
    var left := Row(cells, texts, alignments, k + 1);
    var right := Row(cells, texts, alignments, k)[k := CellAt(cells, texts, alignments, k, k + 1)];
    forall i | i in left
      ensures i in right
    {
    }
    assert forall i :: i in right ==> i in left;
    forall i | i in left
      ensures left[i] == right[i]
    {
      if i < k {
        RowSnocFilledAt(cells, texts, alignments, k, i);
      }
    }
    assert left == right;
  }

  /** The `colspan` after one more empty cell, `span` being the running count. */
  function Widen(c: Cell, span: nat): Cell
  {
    c.(colspan := Some(if c.colspan.None? then span else c.colspan.value + span))
  }

  /** One more empty cell after a `td` adds the running count to its `colspan`. */
  lemma ColspanSnoc(lead: nat, t: nat)
    ensures Colspan(lead, t + 1) == Some(if Colspan(lead, t).None? then t + 2 else Colspan(lead, t).value + t + 2)
  {
  }

  lemma CellAtWiden(cells: seq<string>, texts: seq<string>, alignments: seq<Option<string>>, i: nat, n: nat)
    requires |texts| == |cells| && i < n < |cells| && Gap(cells, i, n + 1) == Gap(cells, i, n) + 1
    ensures CellAt(cells, texts, alignments, i, n + 1) == Widen(CellAt(cells, texts, alignments, i, n), Gap(cells, i, n) + 2)
  {
    ColspanSnoc(TrailingEmpties(cells[..i]), Gap(cells, i, n));
  }

  lemma RowSnocEmptyAt(cells: seq<string>, texts: seq<string>, alignments: seq<Option<string>>, k: nat, p: int, i: int)
    requires |texts| == |cells| && k < |cells| && cells[k] == ""
    requires -1 <= p < k && (p >= 0 ==> cells[p] != "") && EmptyBetween(cells, p, k)
    requires 0 <= i < k && cells[i] != ""
    ensures i != p ==> Row(cells, texts, alignments, k + 1)[i] == Row(cells, texts, alignments, k)[i]
    ensures i == p ==> Row(cells, texts, alignments, k + 1)[i] == Widen(Row(cells, texts, alignments, k)[i], k - p + 1)
  {
    GapSnoc(cells, i, k);
    if i == p {
      LeadingEmptiesIs(cells[i + 1..k], k - p - 1);
      CellAtWiden(cells, texts, alignments, i, k);
    } else {
      assert i < p;
      LeadingEmptiesFacts(cells[i + 1..k]);
      assert cells[i + 1..k][p - i - 1] == cells[p];
      CellAtSnoc(cells, texts, alignments, i, k);
    }
  }

  /** An empty cell with no `td` before it changes nothing. */
  lemma RowSnocEmptyFirst(cells: seq<string>, texts: seq<string>, alignments: seq<Option<string>>, k: nat)
    requires |texts| == |cells| && k < |cells| && cells[k] == "" && EmptyBetween(cells, -1, k)
    ensures Row(cells, texts, alignments, k + 1) == Row(cells, texts, alignments, k)
  {
    var spec := Row(cells, texts, alignments, k);
    var left := Row(cells, texts, alignments, k + 1);
    forall i | i in left
      ensures false
    {
    }
    assert forall i :: i !in spec;
    assert left == spec;
  }

  /**
   * An empty cell adds no `td`; it widens the last `td` by the running count, which is one more
   * than the empty cells since that `td`.
   */
  lemma RowSnocEmpty(cells: seq<string>, texts: seq<string>, alignments: seq<Option<string>>, k: nat, p: nat)
    requires |texts| == |cells| && k < |cells| && cells[k] == ""
    requires p < k && cells[p] != "" && EmptyBetween(cells, p, k)
    ensures p in Row(cells, texts, alignments, k)
    ensures Row(cells, texts, alignments, k + 1) == Row(cells, texts, alignments, k)[p := Widen(Row(cells, texts, alignments, k)[p], k - p + 1)]
  {
    var spec := Row(cells, texts, alignments, k);
    var left := Row(cells, texts, alignments, k + 1);
    RowAt(cells, texts, alignments, k, p);
    var right := spec[p := Widen(spec[p], k - p + 1)];
    RowSnocEmptyKeys(cells, texts, alignments, k);
    forall i | i in left
      ensures left[i] == right[i]
    {
      RowAt(cells, texts, alignments, k + 1, i);
      assert i != k;
      RowSnocEmptyAt(cells, texts, alignments, k, p, i);
    }
    SameRow(left, right);
  }

  /** An empty cell adds no index. */
  lemma RowSnocEmptyKeys(cells: seq<string>, texts: seq<string>, alignments: seq<Option<string>>, k: nat)
    requires |texts| == |cells| && k < |cells| && cells[k] == ""
    ensures forall i :: i in Row(cells, texts, alignments, k + 1) <==> i in Row(cells, texts, alignments, k)
  {
    forall i
      ensures i in Row(cells, texts, alignments, k + 1) <==> i in Row(cells, texts, alignments, k)
    {
      RowAt(cells, texts, alignments, k, i);
      RowAt(cells, texts, alignments, k + 1, i);
    }
  }

  /** Two rows with the same `td` under the same indices are the same row. */
  lemma SameRow(left: map<int, Cell>, right: map<int, Cell>)
    requires forall i :: i in left <==> i in right
    requires forall i :: i in left ==> left[i] == right[i]
    ensures left == right
  {
    assert forall i :: i in left.Keys <==> i in right.Keys;
    assert left.Keys == right.Keys;
    assert forall i :: i in left.Keys ==> left[i] == right[i];
  }

  // What a row yields.

  /**
   * The closed form cell by cell: a `td` exists exactly under the index of each non-empty cell;
   * it holds the trimmed cell and the column's style, and its `colspan` counts the empty cells
   * just before it and just after it.
   */
  lemma RowSpecAt(cells: seq<string>, alignments: seq<Option<string>>, i: int)
    ensures i in RowSpec(cells, alignments) <==> 0 <= i < |cells| && cells[i] != ""
    ensures i in RowSpec(cells, alignments) ==>
      RowSpec(cells, alignments)[i]
      == Cell(Trim(cells[i]), Style(alignments, i), Colspan(TrailingEmpties(cells[..i]), LeadingEmpties(cells[i + 1..])))
  {
    RowAt(cells, TrimAll(cells), alignments, |cells|, i);
    if 0 <= i < |cells| && cells[i] != "" {
      TrimAllAt(cells, i);
      assert cells[i + 1..|cells|] == cells[i + 1..];
    }
  }

  /** The `td` elements of the first `n` cells, one index at a time. */
  lemma RowAt(cells: seq<string>, texts: seq<string>, alignments: seq<Option<string>>, n: nat, i: int)
    requires n <= |cells| == |texts|
    ensures i in Row(cells, texts, alignments, n) <==> 0 <= i < n && cells[i] != ""
    ensures i in Row(cells, texts, alignments, n) ==>
      Row(cells, texts, alignments, n)[i] == CellAt(cells, texts, alignments, i, n)
  {
  }

  /** A row without empty cells has no `colspan` anywhere. */
  lemma NoEmptyCellNoColspan(cells: seq<string>, alignments: seq<Option<string>>, i: int)
    requires forall j :: 0 <= j < |cells| ==> cells[j] != ""
    requires i in RowSpec(cells, alignments)
    ensures RowSpec(cells, alignments)[i].colspan.None?
  {
    RowSpecAt(cells, alignments, i);
    assert i < |cells|;
    TrailingEmptiesFacts(cells[..i]);
    LeadingEmptiesFacts(cells[i + 1..]);
    if i > 0 {
      assert cells[..i][i - 1] == cells[i - 1];
    }
    if i + 1 < |cells| {
      assert cells[i + 1..][0] == cells[i + 1];
    }
  }

  /**
   * `t` empty cells between two non-empty ones: the first `td` is widened by 2, 3, ... up to
   * `t + 1` in turn, and the running count is not reset, so the second `td` starts at `t + 1`.
   */
  lemma GapBetweenCells(a: string, b: string, t: nat, alignments: seq<Option<string>>)
    requires a != "" && b != "" && t >= 1
    ensures var row := RowSpec([a] + seq(t, _ => "") + [b], alignments);
      && row.Keys == {0, t + 1}
      && row[0].colspan == Some(Spread(t))
      && row[t + 1].colspan == Some(t + 1)
  {
    GapShape(a, b, t);
    GapRow([a] + seq(t, _ => "") + [b], t, alignments);
  }

  lemma GapShape(a: string, b: string, t: nat)
    ensures var cells := [a] + seq(t, _ => "") + [b];
      && |cells| == t + 2 && cells[0] == a && cells[t + 1] == b
      && forall i :: 0 < i < t + 1 ==> cells[i] == ""
  {
    var gap: seq<string> := seq(t, _ => "");
    var cells := [a] + gap + [b];
    forall i | 0 < i < t + 1
      ensures cells[i] == ""
    {
      assert cells[i] == gap[i - 1];
    }
  }

  /** Two non-empty cells with `t` empty cells between them. */
  lemma GapRow(cells: seq<string>, t: nat, alignments: seq<Option<string>>)
    requires |cells| == t + 2 && cells[0] != "" && cells[t + 1] != ""
    requires forall i :: 0 < i < t + 1 ==> cells[i] == ""
    ensures var row := RowSpec(cells, alignments);
      && row.Keys == {0, t + 1}
      && row[0].colspan == Colspan(0, t)
      && row[t + 1].colspan == Colspan(t, 0)
  {
    GapKeys(cells, t, alignments);
    GapCounts(cells, t);
    ColspanAt(cells, alignments, 0, 0, t);
    ColspanAt(cells, alignments, t + 1, t, 0);
  }

  /** The `colspan` of the `td` under `i`, from the empty cells just before and just after it. */
  lemma ColspanAt(cells: seq<string>, alignments: seq<Option<string>>, i: nat, lead: nat, trail: nat)
    requires i < |cells| && cells[i] != ""
    requires TrailingEmpties(cells[..i]) == lead && LeadingEmpties(cells[i + 1..]) == trail
    ensures i in RowSpec(cells, alignments) && RowSpec(cells, alignments)[i].colspan == Colspan(lead, trail)
  {
    RowSpecAt(cells, alignments, i);
  }

  lemma GapKeys(cells: seq<string>, t: nat, alignments: seq<Option<string>>)
    requires |cells| == t + 2 && cells[0] != "" && cells[t + 1] != ""
    requires forall i :: 0 < i < t + 1 ==> cells[i] == ""
    ensures RowSpec(cells, alignments).Keys == {0, t + 1}
  {
    forall i
      ensures i in RowSpec(cells, alignments) <==> i == 0 || i == t + 1
    {
      RowSpecAt(cells, alignments, i);
    }
  }

  /** The empty cells around each of the two non-empty ones. */
  lemma GapCounts(cells: seq<string>, t: nat)
    requires |cells| == t + 2 && cells[0] != "" && cells[t + 1] != ""
    requires forall i :: 0 < i < t + 1 ==> cells[i] == ""
    ensures TrailingEmpties(cells[..0]) == 0 && LeadingEmpties(cells[1..]) == t
    ensures TrailingEmpties(cells[..t + 1]) == t && LeadingEmpties(cells[t + 2..]) == 0
  {
    assert cells[..0] == [];
    LeadingEmptiesIs(cells[1..], t);
    TrailingEmptiesAt(cells[..t + 1], 0);
    assert cells[t + 2..] == [];
  }

  /**
   * The row `a||b` (two cells with one empty cell between them): both `td` elements get
   * `colspan` 2.
   */
  lemma DoublePipeSpansBoth(a: string, b: string, alignments: seq<Option<string>>)
    requires a != "" && b != "" && '|' !in a && '|' !in b
    requires a[0] != ' ' && b[|b| - 1] != ' '
    ensures var row := RowSpec(Cells(a + "||" + b), alignments);
      && row.Keys == {0, 2}
      && row[0].colspan == Some(2)
      && row[2].colspan == Some(2)
  {
    var cells := [a, "", b];
    DoublePipeJoin(a, b);
    assert a[0] in a && b[|b| - 1] in b;
    CellsOfPlainRow(cells);
    GapRow(cells, 1, alignments);
  }

  /** `a||b` is the three cells `a`, the empty cell and `b` joined by `|`. */
  lemma DoublePipeJoin(a: string, b: string)
    requires a != "" && b != ""
    ensures var m := Join([a, "", b], "|");
      && m == a + "||" + b && m[0] == a[0] && m[|m| - 1] == b[|b| - 1]
  {
    var cells := [a, "", b];
    assert cells[1..] == ["", b] && cells[1..][1..] == [b];
    assert Join(["", b], "|") == "|" + b;
    assert Join(cells, "|") == a + "||" + b;
  }

  // Reading back a written row.

  /**
   * Pipe-free cells joined by `|`, without a pipe or a space at either end, are read back as the
   * same cells.
   */
  lemma CellsOfPlainRow(cells: seq<string>)
    requires |cells| >= 1 && forall i :: 0 <= i < |cells| ==> '|' !in cells[i]
    requires var m := Join(cells, "|"); m != [] && m[0] != ' ' && m[0] != '|' && m[|m| - 1] != ' ' && m[|m| - 1] != '|'
    ensures Cells(Join(cells, "|")) == cells
  {
    var m := Join(cells, "|");
    DropSpacesUnchanged(m);
    DropTrailingSpacesUnchanged(m);
    SplitOfJoin(cells, '|');
  }

  /**
   * The same cells written between an outer pair of pipes are read back unchanged: the pipes are
   * stripped before the split.
   */
  lemma CellsOfPipedRow(cells: seq<string>)
    requires |cells| >= 1 && forall i :: 0 <= i < |cells| ==> '|' !in cells[i]
    requires var m := Join(cells, "|"); m == [] || (m[0] != ' ' && m[|m| - 1] != ' ')
    ensures Cells("|" + Join(cells, "|") + "|") == cells
  {
    StripPipesOfPiped(Join(cells, "|"));
    SplitOfJoin(cells, '|');
  }

  /** An outer pair of pipes is stripped whole. */
  lemma StripPipesOfPiped(m: string)
    requires m == [] || (m[0] != ' ' && m[|m| - 1] != ' ')
    ensures StripPipes("|" + m + "|") == m
  {
    var text := "|" + m + "|";
    var inner := m + "|";
    PipedParts(m);
    DropSpacesUnchanged(text);
    DropSpacesUnchanged(inner);
    DropTrailingSpacesUnchanged(inner);
    DropTrailingSpacesUnchanged(m);
  }

  /**
   * The usual row form: outer pipes with any spaces on either side of each are stripped with
   * those spaces, leaving the inner text whole.
   */
  lemma {:induction false} StripPipesOfPadded(s1: string, s2: string, m: string, s3: string, s4: string)
    requires AllSpaces(s1) && AllSpaces(s2) && AllSpaces(s3) && AllSpaces(s4)
    requires m == [] || (m[0] != ' ' && m[|m| - 1] != ' ')
    ensures StripPipes(s1 + "|" + s2 + m + s3 + "|" + s4) == m
  {
    var right := s3 + ("|" + s4);
    var lead := "|" + (s2 + (m + right));
    RowText(s1, s2, m, s3, s4);
    DropSpacesOfPadding(s1, lead);
    if m == [] {
      EmptyBetweenPipes(s1 + lead, lead, s2, s3, s4);
    } else {
      TextBetweenPipes(s1 + lead, lead, s2, m, s3, s4);
    }
  }

  lemma {:induction false} EmptyBetweenPipes(text: string, lead: string, s2: string, s3: string, s4: string)
    requires AllSpaces(s2) && AllSpaces(s3) && AllSpaces(s4)
    requires lead == "|" + (s2 + ([] + (s3 + ("|" + s4)))) && DropSpaces(text) == lead
    ensures StripPipes(text) == []
  {
    var t := (s2 + s3) + ("|" + s4);
    assert [] + (s3 + ("|" + s4)) == s3 + ("|" + s4);
    Regroup(s2, s3, "|", s4);
    assert lead == "|" + t;
    assert lead[1..] == t;
    PaddedTail(s2, s3, s4);
    StripPipesSteps(text, lead, "|" + s4, "|", []);
  }

  lemma {:induction false} TextBetweenPipes(text: string, lead: string, s2: string, m: string, s3: string, s4: string)
    requires AllSpaces(s2) && AllSpaces(s3) && AllSpaces(s4)
    requires m != [] && m[0] != ' ' && m[|m| - 1] != ' '
    requires lead == "|" + (s2 + (m + (s3 + ("|" + s4)))) && DropSpaces(text) == lead
    ensures StripPipes(text) == m
  {
    var rest := m + (s3 + ("|" + s4));
    assert lead[1..] == s2 + rest;
    DropSpacesOfPadding(s2, rest);
    var u := (m + s3) + "|";
    Regroup(m, s3, "|", s4);
    DropTrailingSpacesOfPadding(u, s4);
    assert u[..|u| - 1] == m + s3;
    DropTrailingSpacesOfPadding(m, s3);
    StripPipesSteps(text, lead, rest, u, m);
  }

  lemma RowText(s1: string, s2: string, m: string, s3: string, s4: string)
    ensures s1 + "|" + s2 + m + s3 + "|" + s4 == s1 + ("|" + (s2 + (m + (s3 + ("|" + s4)))))
  {
  }

  lemma Regroup(a: string, b: string, c: string, d: string)
    ensures a + (b + (c + d)) == ((a + b) + c) + d == (a + b) + (c + d)
  {
  }

  /** StripPipes when both outer pipes are present. */
  lemma {:induction false} StripPipesSteps(text: string, lead: string, rest: string, u: string, r: string)
    requires DropSpaces(text) == lead && lead != [] && lead[0] == '|' && DropSpaces(lead[1..]) == rest
    requires DropTrailingSpaces(rest) == u && u != [] && u[|u| - 1] == '|'
    requires DropTrailingSpaces(u[..|u| - 1]) == r
    ensures StripPipes(text) == r
  {
  }

  /** `|` between runs of spaces, with nothing else, is stripped to nothing. */
  lemma {:induction false} PaddedTail(s2: string, s3: string, s4: string)
    requires AllSpaces(s2) && AllSpaces(s3) && AllSpaces(s4)
    ensures DropSpaces((s2 + s3) + ("|" + s4)) == "|" + s4
    ensures DropTrailingSpaces("|" + s4) == "|"
    ensures ("|" + s4)[..0] == []
  {
    assert AllSpaces(s2 + s3) by {
      forall i | 0 <= i < |s2 + s3| ensures (s2 + s3)[i] == ' ' {
        if i < |s2| { assert (s2 + s3)[i] == s2[i]; } else { assert (s2 + s3)[i] == s3[i - |s2|]; }
      }
    }
    DropSpacesOfPadding(s2 + s3, "|" + s4);
    DropTrailingSpacesOfPadding("|", s4);
  }

  /**
   * Cells written between outer pipes, with any spaces around each outer pipe, read back as the
   * same cells; `| a | b |` gives the cells `a ` and ` b`.
   */
  lemma {:induction false} CellsOfPaddedRow(s1: string, s2: string, cells: seq<string>, s3: string, s4: string)
    requires AllSpaces(s1) && AllSpaces(s2) && AllSpaces(s3) && AllSpaces(s4)
    requires |cells| >= 1 && forall i :: 0 <= i < |cells| ==> '|' !in cells[i]
    requires var m := Join(cells, "|"); m == [] || (m[0] != ' ' && m[|m| - 1] != ' ')
    ensures Cells(s1 + "|" + s2 + Join(cells, "|") + s3 + "|" + s4) == cells
  {
    StripPipesOfPadded(s1, s2, Join(cells, "|"), s3, s4);
    SplitOfJoin(cells, '|');
  }

  lemma UsualRow()
    ensures Cells("| a | b |") == ["a ", " b"]
  {
    var cells := ["a ", " b"];
    assert Join(cells, "|") == "a | b" by {
      assert cells[1..] == [" b"];
    }
    assert "" + "|" + " " + "a | b" + " " + "|" + "" == "| a | b |";
    assert AllSpaces(" ") && AllSpaces("");
    CellsOfPaddedRow("", " ", cells, " ", "");
  }

  /** Where the pipes and the cells of `|m|` lie. */
  lemma PipedParts(m: string)
    requires m == [] || m[0] != ' '
    ensures var text := "|" + m + "|"; var inner := m + "|";
      && text[0] == '|' && text[1..] == inner
      && inner[0] != ' ' && inner[|inner| - 1] == '|' && inner[..|inner| - 1] == m
  {
  }
}
