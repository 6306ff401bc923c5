/**
  The section scanner: the per-row callback of `readFile`, without the stream.
  Rows arrive one at a time; the scanner keeps only those strictly between the
  first row holding the start marker and the first later row holding the stop
  marker.
 */
module Scanner {
  import opened Strings

  /** Some cell value of the row contains `flag` as a substring. */
  predicate RowHasFlag(row: Row, flag: string) {
    exists k | 0 <= k < |row| :: Contains(row[k], flag)
  }

  /** The three states that the two booleans `startReading` and `stopReading` encode. */
  datatype Phase = Before | Inside | After

  function PhaseOf(startReading: bool, stopReading: bool): Phase {
    if stopReading then After else if startReading then Inside else Before
  }

  /** State machine reference: one row at a time, what is emitted from phase `p` on. */
  function Run(p: Phase, rows: seq<Row>, startFlag: string, stopFlag: string): seq<Row>
    decreases |rows|
  {
    if rows == [] then []
    else
      match p
      case Before =>
        Run(if RowHasFlag(rows[0], startFlag) then Inside else Before, rows[1..], startFlag, stopFlag)
      case Inside =>
        if RowHasFlag(rows[0], stopFlag) then Run(After, rows[1..], startFlag, stopFlag)
        else [rows[0]] + Run(Inside, rows[1..], startFlag, stopFlag)
      case After =>
        Run(After, rows[1..], startFlag, stopFlag)
  }

  /** Index of the first row holding `flag`, or `|rows|` when there is none. */
  function FirstWith(rows: seq<Row>, flag: string): (k: nat)
    ensures k <= |rows|
    ensures k < |rows| ==> RowHasFlag(rows[k], flag)
    ensures forall j :: 0 <= j < k ==> !RowHasFlag(rows[j], flag)
    decreases |rows|
  {
    if rows == [] then 0
    else if RowHasFlag(rows[0], flag) then 0
    else 1 + FirstWith(rows[1..], flag)
  }

  /** Declarative reference: the slice after the first start row, up to the first later stop row. */
  function Section(rows: seq<Row>, startFlag: string, stopFlag: string): seq<Row> {
    var s := FirstWith(rows, startFlag);
    if s == |rows| then []
    else
      var rest := rows[s + 1..];
      rest[..FirstWith(rest, stopFlag)]
  }

  /**
    The callback of `readFile`, run over every row in arrival order. `dataRows`
    is what the Promise resolves with.
   */
  method Scan(rows: seq<Row>, startFlag: string, stopFlag: string) returns (dataRows: seq<Row>)
    ensures dataRows == Section(rows, startFlag, stopFlag)
  {
    dataRows := [];
    var startReading := false;
    var stopReading := false;
    var i := 0;
    while i < |rows|
      invariant 0 <= i <= |rows|
      invariant !startReading ==> !stopReading
      invariant Run(Before, rows, startFlag, stopFlag)
        == dataRows + Run(PhaseOf(startReading, stopReading), rows[i..], startFlag, stopFlag)
    {
      var row := rows[i];
      assert rows[i..][1..] == rows[i + 1..];
      i := i + 1;
      if stopReading {
        continue;
      }
      if !startReading {
        if RowHasFlag(row, startFlag) {
          startReading := true;
        }
        continue;
      }
      if RowHasFlag(row, stopFlag) {
        stopReading := true;
        continue;
      }
      dataRows := dataRows + [row];
    }
    RunIsSection(rows, startFlag, stopFlag);
  }

  lemma {:induction false} RunAfter(rows: seq<Row>, startFlag: string, stopFlag: string)
    ensures Run(After, rows, startFlag, stopFlag) == []
    decreases |rows|
  {
    if rows != [] {
      RunAfter(rows[1..], startFlag, stopFlag);
    }
  }

  /** Once inside, everything up to (not including) the first stop row is emitted unchanged. */
  lemma {:induction false} RunInside(rows: seq<Row>, startFlag: string, stopFlag: string)
    ensures Run(Inside, rows, startFlag, stopFlag) == rows[..FirstWith(rows, stopFlag)]
    decreases |rows|
  {
    if rows != [] {
      if RowHasFlag(rows[0], stopFlag) {
        RunAfter(rows[1..], startFlag, stopFlag);
      } else {
        RunInside(rows[1..], startFlag, stopFlag);
        assert rows[..FirstWith(rows, stopFlag)] == [rows[0]] + rows[1..][..FirstWith(rows[1..], stopFlag)];
      }
    }
  }

  /** The state machine started in `Before` computes exactly the declarative section. */
  lemma {:induction false} RunIsSection(rows: seq<Row>, startFlag: string, stopFlag: string)
    ensures Run(Before, rows, startFlag, stopFlag) == Section(rows, startFlag, stopFlag)
    decreases |rows|
  {
    if rows != [] {
      if RowHasFlag(rows[0], startFlag) {
        RunInside(rows[1..], startFlag, stopFlag);
      } else {
        RunIsSection(rows[1..], startFlag, stopFlag);
        var s := FirstWith(rows[1..], startFlag);
        if s < |rows[1..]| {
          assert rows[1..][s + 1..] == rows[s + 2..];
        }
      }
    }
  }

  /** With no start row, nothing is emitted. */
  lemma SectionWithoutStart(rows: seq<Row>, startFlag: string, stopFlag: string)
    requires forall k :: 0 <= k < |rows| ==> !RowHasFlag(rows[k], startFlag)
    ensures Section(rows, startFlag, stopFlag) == []
  {
  }

  /**
    With `s` the first start row and `e` the first stop row after it (or the end
    of input), the output is exactly the rows strictly between them, unchanged.
   */
  lemma SectionBetweenMarkers(rows: seq<Row>, startFlag: string, stopFlag: string, s: nat, e: nat)
    requires s < e <= |rows|
    requires RowHasFlag(rows[s], startFlag)
    requires forall k :: 0 <= k < s ==> !RowHasFlag(rows[k], startFlag)
    requires e < |rows| ==> RowHasFlag(rows[e], stopFlag)
    requires forall k :: s < k < e ==> !RowHasFlag(rows[k], stopFlag)
    ensures Section(rows, startFlag, stopFlag) == rows[s + 1..e]
  {
    assert FirstWith(rows, startFlag) == s;
  }

  /** `out` is the rows strictly after a start row `s`, up to (not including) row `e`. */
  predicate StartSlice(rows: seq<Row>, startFlag: string, s: int, e: int, out: seq<Row>) {
    0 <= s < e <= |rows| && RowHasFlag(rows[s], startFlag) && out == rows[s + 1..e]
  }

  /** No emitted row holds the stop marker, and the output is a contiguous run of input rows after a start row. */
  lemma SectionShape(rows: seq<Row>, startFlag: string, stopFlag: string)
    ensures forall r :: r in Section(rows, startFlag, stopFlag) ==> !RowHasFlag(r, stopFlag)
    ensures Section(rows, startFlag, stopFlag) != [] ==>
      exists s, e :: StartSlice(rows, startFlag, s, e, Section(rows, startFlag, stopFlag))
  {
    var s := FirstWith(rows, startFlag);
    if s < |rows| {
      var rest := rows[s + 1..];
      var f := FirstWith(rest, stopFlag);
      assert StartSlice(rows, startFlag, s, s + 1 + f, Section(rows, startFlag, stopFlag));
    }
  }
}
