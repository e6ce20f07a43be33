/**
 * The flow-wrap layout engine of the chips field: chips are packed greedily,
 * left to right and in collection order, into horizontal rows; the result is
 * the index of the row the text cursor starts on and the left margin its
 * first line needs. A chip wraps only when its measured width would overflow
 * the row, so a row can be wider than the container: by the right margins of
 * its chips, or by a single chip wider than the container.
 *
 * The chip views themselves are abstracted to what the engine reads from
 * them: the measured width and the right margin of each.
 */
module VerticalLayout {
  import opened Optional

  /** What the engine reads from one measured chip view. */
  datatype Metrics = Metrics(measuredWidth: nat, rightMargin: nat)

  /** The engine's answer: the row the text starts on and its leading margin. */
  datatype TextLineParams = TextLineParams(row: nat, lineMargin: nat)

  /** "Not ready" while the container has no width yet, otherwise the rows built and the answer. */
  datatype LayoutResult = NotReady | Ready(rows: seq<seq<Metrics>>, params: TextLineParams)

  /** The state of the packing loop: the rows so far, the index of the current (last) row and its running sum. */
  datatype Packing = Packing(rows: seq<seq<Metrics>>, row: nat, widthSum: nat)

  /** Horizontal space a row takes: every chip counts with its measured width and its right margin. */
  function RowSum(row: seq<Metrics>): nat
  {
    if row == [] then 0 else RowSum(row[..|row| - 1]) + row[|row| - 1].measuredWidth + row[|row| - 1].rightMargin
  }

  /** All rows joined back into one sequence. */
  function Concat<T>(rows: seq<seq<T>>): seq<T>
  {
    if rows == [] then [] else Concat(rows[..|rows| - 1]) + rows[|rows| - 1]
  }

  /** True when the remaining width is less than 15% of the width (integer form of `width - sum < width * 0.15`). */
  predicate TooLittleLeft(width: nat, widthSum: int)
  {
    20 * (width - widthSum) < 3 * width
  }

  /**
   * One turn of the packing loop: the chip opens a new row when the running sum
   * plus its measured width (its right margin is not counted here) exceeds the
   * width, and is then appended to the current row, whose sum grows by its
   * measured width and its right margin.
   */
  function Place(width: nat, p: Packing, m: Metrics): (q: Packing)
    requires |p.rows| == p.row + 1
    ensures |q.rows| == q.row + 1
  {
    if p.widthSum + m.measuredWidth > width then
      Packing(p.rows + [[m]], p.row + 1, m.measuredWidth + m.rightMargin)
    else
      Packing(p.rows[..p.row] + [p.rows[p.row] + [m]], p.row, p.widthSum + m.measuredWidth + m.rightMargin)
  }

  /** The packing loop run over all chips: row 0 exists from the start; the row index is that of the last row. */
  function Pack(width: nat, chips: seq<Metrics>): (p: Packing)
    ensures |p.rows| == p.row + 1
  {
    if chips == [] then Packing([[]], 0, 0)
    else Place(width, Pack(width, chips[..|chips| - 1]), chips[|chips| - 1])
  }

  /**
   * The whole engine: nothing when the width is 0; otherwise the packing,
   * followed by one more empty row, and a margin of 0, when less than 15% of
   * the width is left on the last row.
   */
  function Layout(width: nat, chips: seq<Metrics>): LayoutResult
  {
    if width == 0 then NotReady
    else
      var p := Pack(width, chips);
      if TooLittleLeft(width, p.widthSum) then
        Ready(p.rows + [[]], TextLineParams(p.row + 1, 0))
      else
        Ready(p.rows, TextLineParams(p.row, p.widthSum))
  }

  /**
   * The engine answers exactly when the width is known; its rows hold the
   * chips in order, the text goes on the last row, after the chips there,
   * and at least 15% of the width is left for it. The rows are the packing's
   * exactly when the chips leave at least 15% of the width; otherwise one
   * more row is reserved.
   */
  lemma LayoutShape(width: nat, chips: seq<Metrics>)
    ensures Layout(width, chips).NotReady? <==> width == 0
    ensures var r := Layout(width, chips);
      r.Ready? ==>
        && Concat(r.rows) == chips
        && |r.rows| == r.params.row + 1 && r.params.row <= |chips| + 1
        && r.params.lineMargin == RowSum(r.rows[r.params.row])
        && !TooLittleLeft(width, r.params.lineMargin)
        && (r.rows == Pack(width, chips).rows <==> !TooLittleLeft(width, Pack(width, chips).widthSum))
  {
    if width > 0 {
      var p := Pack(width, chips);
      PackConcat(width, chips);
      PackRowBound(width, chips);
      PackWidthSum(width, chips);
      if TooLittleLeft(width, p.widthSum) {
        ConcatAppend(p.rows, []);
      }
    }
  }

  lemma {:induction false} ConcatAppend<T>(rows: seq<seq<T>>, row: seq<T>)
    ensures Concat(rows + [row]) == Concat(rows) + row
  {
    assert (rows + [row])[..|rows|] == rows;
  }

  lemma {:induction false} RowSumAppend(row: seq<Metrics>, m: Metrics)
    ensures RowSum(row + [m]) == RowSum(row) + m.measuredWidth + m.rightMargin
  {
    assert (row + [m])[..|row|] == row;
  }

  /** Packing keeps the chips in order: the rows joined give back the input sequence. */
  lemma {:induction false} PackConcat(width: nat, chips: seq<Metrics>)
    ensures Concat(Pack(width, chips).rows) == chips
  {
    if chips != [] {
      var init, m := chips[..|chips| - 1], chips[|chips| - 1];
      PackConcat(width, init);
      var p := Pack(width, init);
      assert chips == init + [m];
      var last := p.rows[p.row];
      assert p.rows == p.rows[..p.row] + [last];
      if p.widthSum + m.measuredWidth > width {
        ConcatAppend(p.rows, [m]);
      } else {
        ConcatAppend(p.rows[..p.row], last);
        ConcatAppend(p.rows[..p.row], last + [m]);
      }
    }
  }

  /** The running sum is the space the last row takes (measured widths and right margins). */
  lemma {:induction false} PackWidthSum(width: nat, chips: seq<Metrics>)
    ensures var p := Pack(width, chips); p.widthSum == RowSum(p.rows[p.row])
  {
    if chips != [] {
      var init, m := chips[..|chips| - 1], chips[|chips| - 1];
      PackWidthSum(width, init);
      var p := Pack(width, init);
      if p.widthSum + m.measuredWidth > width {
        assert RowSum([m]) == RowSum([]) + m.measuredWidth + m.rightMargin;
      } else {
        RowSumAppend(p.rows[p.row], m);
      }
    }
  }

  /** A row is opened only by a chip, so there are never more wraps than chips. */
  lemma {:induction false} PackRowBound(width: nat, chips: seq<Metrics>)
    ensures Pack(width, chips).row <= |chips|
  {
    if chips != [] {
      PackRowBound(width, chips[..|chips| - 1]);
    }
  }

  /*
   * An independent description of greedy packing, row by row: every chip of
   * row 0, and every chip but the first of a later row, passed the wrap test
   * against what precedes it on its row; every later row is opened by a chip
   * that failed the wrap test against the whole previous row.
   */

  /** Chip j of the row passed the wrap test against the chips before it on the row. */
  predicate StaysOnRow(width: nat, row: seq<Metrics>, j: nat)
    requires j < |row|
  {
    RowSum(row[..j]) + row[j].measuredWidth <= width
  }

  /** Every chip of the row from index start on passed the wrap test. */
  predicate FillsFrom(width: nat, row: seq<Metrics>, start: nat)
  {
    forall j :: start <= j < |row| ==> StaysOnRow(width, row, j)
  }

  /** The row is opened by a chip that did not fit after the previous row. */
  predicate Opens(width: nat, previous: seq<Metrics>, row: seq<Metrics>)
  {
    row != [] && RowSum(previous) + row[0].measuredWidth > width
  }

  predicate GreedyRows(width: nat, rows: seq<seq<Metrics>>)
  {
    && |rows| >= 1
    && FillsFrom(width, rows[0], 0)
    && forall k :: 1 <= k < |rows| ==> Opens(width, rows[k - 1], rows[k]) && FillsFrom(width, rows[k], 1)
  }

  lemma FillsFromAppend(width: nat, row: seq<Metrics>, m: Metrics, start: nat)
    requires FillsFrom(width, row, start) && start <= |row|
    requires RowSum(row) + m.measuredWidth <= width
    ensures FillsFrom(width, row + [m], start)
  {
    forall j | start <= j < |row| + 1
      ensures StaysOnRow(width, row + [m], j)
    {
      if j < |row| {
        assert (row + [m])[..j] == row[..j];
        assert StaysOnRow(width, row, j);
      } else {
        assert (row + [m])[..j] == row;
      }
    }
  }

  lemma FillsFromPrefix(width: nat, row: seq<Metrics>, start: nat)
    requires FillsFrom(width, row, start) && row != []
    ensures FillsFrom(width, row[..|row| - 1], start)
  {
    var init := row[..|row| - 1];
    forall j | start <= j < |init|
      ensures StaysOnRow(width, init, j)
    {
      assert init[..j] == row[..j];
      assert StaysOnRow(width, row, j);
    }
  }

  /** The packing loop builds greedy rows. */
  lemma {:induction false} PackIsGreedy(width: nat, chips: seq<Metrics>)
    ensures GreedyRows(width, Pack(width, chips).rows)
  {
    if chips != [] {
      var init, m := chips[..|chips| - 1], chips[|chips| - 1];
      PackIsGreedy(width, init);
      PackWidthSum(width, init);
      var p := Pack(width, init);
      var rows := Pack(width, chips).rows;
      var last := p.rows[p.row];
      if p.widthSum + m.measuredWidth > width {
        assert rows == p.rows + [[m]];
        assert Opens(width, rows[p.row], rows[p.row + 1]);
        forall k | 1 <= k < |rows|
          ensures Opens(width, rows[k - 1], rows[k]) && FillsFrom(width, rows[k], 1)
        {
          if k < |p.rows| {
            assert rows[k - 1] == p.rows[k - 1] && rows[k] == p.rows[k];
          }
        }
      } else {
        assert rows == p.rows[..p.row] + [last + [m]];
        if p.row == 0 {
          FillsFromAppend(width, last, m, 0);
        } else {
          assert Opens(width, p.rows[p.row - 1], last) && FillsFrom(width, last, 1);
          FillsFromAppend(width, last, m, 1);
          assert (last + [m])[0] == last[0];
        }
        forall k | 1 <= k < |rows|
          ensures Opens(width, rows[k - 1], rows[k]) && FillsFrom(width, rows[k], 1)
        {
          assert rows[k - 1] == p.rows[k - 1];
          if k < p.row {
            assert rows[k] == p.rows[k];
          }
        }
      }
    }
  }

  /** Dropping the last chip of greedy rows, when its row keeps a chip or is row 0, leaves greedy rows. */
  lemma GreedyDropLastChip(width: nat, rows: seq<seq<Metrics>>)
    requires GreedyRows(width, rows)
    requires var R := rows[|rows| - 1]; |R| >= 2 || (|rows| == 1 && R != [])
    ensures var R := rows[|rows| - 1]; GreedyRows(width, rows[..|rows| - 1] + [R[..|R| - 1]])
  {
    var n := |rows|;
    var R := rows[n - 1];
    var R' := R[..|R| - 1];
    var rows' := rows[..n - 1] + [R'];
    if n == 1 {
      FillsFromPrefix(width, R, 0);
    } else {
      FillsFromPrefix(width, R, 1);
      assert Opens(width, rows[n - 2], R);
      forall k | 1 <= k < n
        ensures Opens(width, rows'[k - 1], rows'[k]) && FillsFrom(width, rows'[k], 1)
      {
        if k < n - 1 {
          assert rows'[k - 1] == rows[k - 1] && rows'[k] == rows[k];
        } else {
          assert rows'[k - 1] == rows[k - 1] && R'[0] == R[0];
        }
      }
    }
  }

  /** Dropping the last of two or more greedy rows leaves greedy rows. */
  lemma GreedyDropLastRow(width: nat, rows: seq<seq<Metrics>>)
    requires GreedyRows(width, rows) && |rows| >= 2
    ensures GreedyRows(width, rows[..|rows| - 1])
  {
    var rows' := rows[..|rows| - 1];
    forall k | 1 <= k < |rows'|
      ensures Opens(width, rows'[k - 1], rows'[k]) && FillsFrom(width, rows'[k], 1)
    {
      assert rows'[k - 1] == rows[k - 1] && rows'[k] == rows[k];
    }
  }

  /** A chip that fits after the last row of a packing is appended to that row. */
  lemma PlaceOnLastRow(width: nat, init: seq<Metrics>, m: Metrics, before: seq<seq<Metrics>>, last: seq<Metrics>)
    requires Pack(width, init).rows == before + [last]
    requires RowSum(last) + m.measuredWidth <= width
    ensures Pack(width, init + [m]).rows == before + [last + [m]]
  {
    var p := Pack(width, init);
    PackWidthSum(width, init);
    assert (init + [m])[..|init|] == init;
    assert p.row == |before| && p.rows[..p.row] == before && p.rows[p.row] == last;
  }

  /** A chip that does not fit after the last row of a packing opens a row of its own. */
  lemma PlaceOnNewRow(width: nat, init: seq<Metrics>, m: Metrics, before: seq<seq<Metrics>>)
    requires Pack(width, init).rows == before
    requires RowSum(before[|before| - 1]) + m.measuredWidth > width
    ensures Pack(width, init + [m]).rows == before + [[m]]
  {
    PackWidthSum(width, init);
    assert (init + [m])[..|init|] == init;
  }

  /** Every greedy row after row 0 holds a chip, the last one included. */
  lemma GreedyLastRowNonEmpty(width: nat, rows: seq<seq<Metrics>>)
    requires GreedyRows(width, rows)
    ensures |rows| > 1 ==> rows[|rows| - 1] != []
  {
    if |rows| > 1 {
      assert Opens(width, rows[|rows| - 2], rows[|rows| - 1]);
    }
  }

  /** Greedy rows holding no chip are the single empty row. */
  lemma GreedyEmpty(width: nat, rows: seq<seq<Metrics>>)
    requires GreedyRows(width, rows) && Concat(rows) == []
    ensures rows == [[]]
  {
    GreedyLastRowNonEmpty(width, rows);
  }

  /**
   * The last chip of nonempty greedy rows ends the last row, and the chips
   * before it are the earlier rows followed by the rest of the last row.
   */
  lemma GreedyLastChip(width: nat, chips: seq<Metrics>, rows: seq<seq<Metrics>>)
    requires GreedyRows(width, rows) && Concat(rows) == chips && chips != []
    ensures var n, R := |rows|, rows[|rows| - 1];
      && R != [] && R[|R| - 1] == chips[|chips| - 1]
      && chips[..|chips| - 1] == Concat(rows[..n - 1]) + R[..|R| - 1]
  {
    var n, R := |rows|, rows[|rows| - 1];
    GreedyLastRowNonEmpty(width, rows);
    assert R != [];
    assert R == R[..|R| - 1] + [R[|R| - 1]];
    assert chips == (Concat(rows[..n - 1]) + R[..|R| - 1]) + [R[|R| - 1]];
  }

  /** Greedy rows holding the chips in order are exactly the rows the packing loop builds. */
  lemma {:induction false} GreedyIsPack(width: nat, chips: seq<Metrics>, rows: seq<seq<Metrics>>)
    requires GreedyRows(width, rows) && Concat(rows) == chips
    ensures rows == Pack(width, chips).rows
    decreases |chips|, 1
  {
    var R := rows[|rows| - 1];
    if chips == [] {
      GreedyEmpty(width, rows);
    } else if |R| >= 2 || |rows| == 1 {
      GreedyIsPackSameRow(width, chips, rows);
    } else {
      GreedyIsPackNewRow(width, chips, rows);
    }
  }

  /** GreedyIsPack when the last chip shares the last row or that row is row 0. */
  lemma {:induction false} GreedyIsPackSameRow(width: nat, chips: seq<Metrics>, rows: seq<seq<Metrics>>)
    requires GreedyRows(width, rows) && Concat(rows) == chips && chips != []
    requires var R := rows[|rows| - 1]; |R| >= 2 || |rows| == 1
    ensures rows == Pack(width, chips).rows
    decreases |chips|, 0
  {
    var n, R := |rows|, rows[|rows| - 1];
    GreedyLastChip(width, chips, rows);
    var init, m, R' := chips[..|chips| - 1], chips[|chips| - 1], R[..|R| - 1];
    assert R == R' + [m];
    assert chips == init + [m] && rows[..n - 1] + [R' + [m]] == rows;
    var rows' := rows[..n - 1] + [R'];
    assert Pack(width, init).rows == rows' by {
      ConcatAppend(rows[..n - 1], R');
      GreedyDropLastChip(width, rows);
      GreedyIsPack(width, init, rows');
    }
    assert StaysOnRow(width, R, |R| - 1) by {
      if n == 1 {
        assert FillsFrom(width, rows[0], 0);
      } else {
        assert FillsFrom(width, rows[n - 1], 1);
      }
    }
    PlaceOnLastRow(width, init, m, rows[..n - 1], R');
  }

  /** GreedyIsPack when the last chip alone opens the last of two or more rows. */
  lemma {:induction false} GreedyIsPackNewRow(width: nat, chips: seq<Metrics>, rows: seq<seq<Metrics>>)
    requires GreedyRows(width, rows) && Concat(rows) == chips && chips != []
    requires |rows[|rows| - 1]| < 2 && |rows| > 1
    ensures rows == Pack(width, chips).rows
    decreases |chips|, 0
  {
    var n := |rows|;
    GreedyLastChip(width, chips, rows);
    var init, m := chips[..|chips| - 1], chips[|chips| - 1];
    assert rows[n - 1] == [m] && init == Concat(rows[..n - 1]) by {
      assert rows[n - 1][..0] == [];
    }
    assert chips == init + [m] && rows[..n - 1] + [[m]] == rows;
    assert Pack(width, init).rows == rows[..n - 1] by {
      GreedyDropLastRow(width, rows);
      GreedyIsPack(width, init, rows[..n - 1]);
    }
    assert Opens(width, rows[n - 2], rows[n - 1]);
    PlaceOnNewRow(width, init, m, rows[..n - 1]);
  }

  /** The packing is characterised by the greedy rule: its rows are the one greedy split of the chips. */
  lemma PackIffGreedy(width: nat, chips: seq<Metrics>, rows: seq<seq<Metrics>>)
    ensures rows == Pack(width, chips).rows <==> GreedyRows(width, rows) && Concat(rows) == chips
  {
    PackIsGreedy(width, chips);
    PackConcat(width, chips);
    if GreedyRows(width, rows) && Concat(rows) == chips {
      GreedyIsPack(width, chips, rows);
    }
  }

  /*
   * Worked examples of the rules above.
   */

  /** No chips on a measured container: row 0, no margin. */
  lemma EmptyLayout(width: nat)
    requires width > 0
    ensures Layout(width, []) == Ready([[]], TextLineParams(0, 0))
  {
  }

  /** Width 100 and three chips 40 wide: two rows, and the text continues 40 into row 1. */
  lemma ThreeFortiesLayout()
    ensures var c := Metrics(40, 0); Layout(100, [c, c, c]) == Ready([[c, c], [c]], TextLineParams(1, 40))
  {
    var c := Metrics(40, 0);
    assert [c][..0] == [] && [] + [c] == [c] && [c] + [c] == [c, c];
    assert [c, c][..1] == [c] && [c, c, c][..2] == [c, c];
    assert Pack(100, [c]) == Packing([[c]], 0, 40);
    assert Pack(100, [c, c]) == Packing([[c, c]], 0, 80);
    assert Pack(100, [c, c, c]) == Packing([[c, c], [c]], 1, 40);
  }

  /** A chip that exactly fills the row stays on it; nothing is left, so the text gets a row of its own. */
  lemma ExactFitLayout()
    ensures var c := Metrics(50, 0); Layout(100, [c, c]) == Ready([[c, c], []], TextLineParams(1, 0))
  {
    var c := Metrics(50, 0);
    assert [c][..0] == [] && [] + [c] == [c] && [c] + [c] == [c, c];
    assert [c, c][..1] == [c];
    assert Pack(100, [c]) == Packing([[c]], 0, 50);
    assert Pack(100, [c, c]) == Packing([[c, c]], 0, 100);
    assert TooLittleLeft(100, 100) && [[c, c]] + [[]] == [[c, c], []];
  }

  /** A first chip wider than the container opens row 1 and leaves row 0 empty. */
  lemma OversizedFirstChipLayout()
    ensures var c := Metrics(150, 0);
      && Pack(100, [c]) == Packing([[], [c]], 1, 150)
      && Layout(100, [c]) == Ready([[], [c], []], TextLineParams(2, 0))
  {
  }

  /** 90 of 100 used leaves less than 15%: one more row is reserved for the text. */
  lemma ReservedRowLayout()
    ensures var c := Metrics(90, 0); Layout(100, [c]) == Ready([[c], []], TextLineParams(1, 0))
  {
    var c := Metrics(90, 0);
    assert [c][..0] == [] && [] + [c] == [c];
    assert Pack(100, [c]) == Packing([[c]], 0, 90);
  }

  /**
   * The wrap test ignores the right margin of the incoming chip, so a row can
   * take more than the width: 55 + 45 passes the test, and the row then uses 110.
   */
  lemma RightMarginOverflowLayout()
    ensures var c := Metrics(45, 10);
      && Pack(100, [c, c]) == Packing([[c, c]], 0, 110)
      && Layout(100, [c, c]) == Ready([[c, c], []], TextLineParams(1, 0))
  {
    var c := Metrics(45, 10);
    assert [c][..0] == [] && [] + [c] == [c] && [c] + [c] == [c, c];
    assert [c, c][..1] == [c];
    assert Pack(100, [c]) == Packing([[c]], 0, 55);
  }

  /**
   * The vertical linear layout that holds one horizontal line layout per row.
   * Its width is assigned by the platform's layout pass (0 until then).
   */
  class ChipsVerticalLinearLayout {
    var width: nat
    var lineLayouts: seq<seq<Metrics>>

    constructor ()
      ensures width == 0 && lineLayouts == []
    {
      width := 0;
      lineLayouts := [];
    }

    /** The platform's layout pass sizes the view. */
    method SetWidth(w: nat)
      modifies this
      ensures width == w && lineLayouts == old(lineLayouts)
    {
      width := w;
    }

    /**
     * Clears the rows, then, once the view has a width, packs the chips into
     * new rows and answers where the text line goes; None when not yet measured.
     */
    method OnChipsChanged(chips: seq<Metrics>) returns (params: Option<TextLineParams>)
      modifies this
      ensures width == old(width)
      ensures params.None? <==> width == 0
      ensures params.None? ==> lineLayouts == []
      ensures params.Some? ==> Layout(width, chips) == Ready(lineLayouts, params.value)
    {
      lineLayouts := [];
      if width == 0 {
        return None;
      }
      var widthSum: nat := 0;
      var rowCounter: nat := 0;
      lineLayouts := lineLayouts + [[]];
      var i := 0;
      while i < |chips|
        invariant 0 <= i <= |chips|
        invariant width == old(width) > 0
        invariant Pack(width, chips[..i]) == Packing(lineLayouts, rowCounter, widthSum)
      {
        var chip := chips[i];
        assert chips[..i + 1][..i] == chips[..i];
        ghost var before := lineLayouts;
        if widthSum + chip.measuredWidth > width {
          rowCounter := rowCounter + 1;
          widthSum := 0;
          lineLayouts := lineLayouts + [[]];
        }
        widthSum := widthSum + chip.measuredWidth + chip.rightMargin;
        lineLayouts := lineLayouts[..rowCounter] + [lineLayouts[rowCounter] + [chip]];
        assert lineLayouts == Place(width, Pack(width, chips[..i]), chip).rows by {
          if rowCounter == |before| {
            assert (before + [[]])[..rowCounter] == before;
            assert [] + [chip] == [chip];
          }
        }
        i := i + 1;
      }
      assert chips[..i] == chips;
      if TooLittleLeft(width, widthSum) {
        widthSum := 0;
        rowCounter := rowCounter + 1;
        lineLayouts := lineLayouts + [[]];
      }
      return Some(TextLineParams(rowCounter, widthSum));
    }
  }
}
