/**
  The record builder, `processRows`: skips blank rows, takes the first
  remaining row as the header, maps every later row to a participant, and
  gives up on the whole batch (the source returns `undefined`) at the first
  row whose name or duration is empty.
 */
module Records {
  import opened Wrappers
  import opened Strings

  /** Header of the column holding a participant's full name. */
  const NameField: string := "Imię i nazwisko"
  /** Header of the column holding the participation time. */
  const DurationField: string := "Czas udziału w spotkaniu"

  /** One participant, as pushed onto `participants`. */
  datatype Participant = Participant(firstName: string, lastName: string, duration: string)

  /** A blank row: every cell value is falsy, that is, the empty string. */
  predicate IsBlank(row: Row) {
    forall k | 0 <= k < |row| :: row[k] == ""
  }

  /** The cell value at column `index`; a missing cell reads as the empty string. */
  function Cell(row: Row, index: nat): string {
    if index < |row| then row[index] else ""
  }

  /** Column `i` is the last column of the header carrying its name. */
  predicate LastOccurrence(headers: Row, i: int)
    requires 0 <= i < |headers|
  {
    forall j :: i < j < |headers| ==> headers[j] != headers[i]
  }

  /**
    The object `rowData` after `headers.forEach`: column by column, the cell
    under each header name is stored under that name.
   */
  function RowData(headers: Row, row: Row): map<string, string>
    decreases |headers|
  {
    if headers == [] then map[]
    else
      var n := |headers| - 1;
      RowData(headers[..n], row)[headers[n] := Cell(row, n)]
  }

  /** One key per header name. */
  lemma {:induction false} RowDataKeys(headers: Row, row: Row)
    ensures forall h :: h in RowData(headers, row) <==> h in headers
    decreases |headers|
  {
    if headers != [] {
      var n := |headers| - 1;
      var prefix := headers[..n];
      RowDataKeys(prefix, row);
      assert headers == prefix + [headers[n]];
    }
  }

  /**
    The value under a name is the cell of its last column, since a later
    assignment to the same key overwrites an earlier one; cells beyond the
    header's length are never read.
   */
  lemma {:induction false} RowDataValues(headers: Row, row: Row)
    ensures forall i :: 0 <= i < |headers| && LastOccurrence(headers, i) ==>
      headers[i] in RowData(headers, row) && RowData(headers, row)[headers[i]] == Cell(row, i)
    decreases |headers|
  {
    if headers != [] {
      var n := |headers| - 1;
      var prefix := headers[..n];
      RowDataValues(prefix, row);
      var m := RowData(headers, row);
      assert m == RowData(prefix, row)[headers[n] := Cell(row, n)];
      forall i | 0 <= i < |headers| && LastOccurrence(headers, i)
        ensures headers[i] in m && m[headers[i]] == Cell(row, i)
      {
        if i < n {
          assert headers[i] != headers[n];
          assert LastOccurrence(prefix, i) && prefix[i] == headers[i];
        }
      }
    }
  }

  /** `rowData[key]`, where a key that is absent reads as `undefined`, which is falsy like `''`. */
  function Field(rowData: map<string, string>, key: string): string {
    if key in rowData then rowData[key] else ""
  }

  /**
    The full name split on single spaces, destructured into its first two
    pieces, with the two repairs that follow: without a non-empty second piece the first piece becomes the
    surname and the given name is empty. Pieces after the second are dropped.
   */
  function SplitName(fullName: string): (name: (string, string))
    ensures ' ' !in name.0 && ' ' !in name.1
  {
    var pieces := Split(fullName, ' ');
    if |pieces| >= 2 && pieces[1] != "" then (pieces[0], pieces[1]) else ("", pieces[0])
  }

  /**
    What one data row becomes: `None`, the source's early `return`, exactly when
    the name or the duration field is empty; otherwise a participant whose name
    parts are the split name field, hence space-free, and whose duration is
    that non-empty field.
   */
  function ToParticipant(headers: Row, row: Row): (r: Option<Participant>)
    ensures r.None? <==> Field(RowData(headers, row), NameField) == "" || Field(RowData(headers, row), DurationField) == ""
    ensures r.Some? ==> r.value.duration == Field(RowData(headers, row), DurationField) != ""
    ensures r.Some? ==> (r.value.firstName, r.value.lastName) == SplitName(Field(RowData(headers, row), NameField))
    ensures r.Some? ==> ' ' !in r.value.firstName && ' ' !in r.value.lastName
  {
    var rowData := RowData(headers, row);
    var fullName := Field(rowData, NameField);
    var duration := Field(rowData, DurationField);
    if fullName == "" || duration == "" then None
    else
      var name := SplitName(fullName);
      Some(Participant(name.0, name.1, duration))
  }

  /** The non-blank rows, in input order. */
  function NonBlank(rows: seq<Row>): (kept: seq<Row>)
    ensures |kept| <= |rows|
    ensures forall k :: 0 <= k < |kept| ==> !IsBlank(kept[k])
    decreases |rows|
  {
    if rows == [] then []
    else
      var n := |rows| - 1;
      assert rows == rows[..n] + [rows[n]];
      NonBlank(rows[..n]) + if IsBlank(rows[n]) then [] else [rows[n]]
  }

  /** The participants of the data rows under `headers`, in order, or `None` as soon as one row fails. */
  function DataParticipants(headers: Row, data: seq<Row>): Option<seq<Participant>>
    decreases |data|
  {
    if data == [] then Some([])
    else
      var n := |data| - 1;
      match DataParticipants(headers, data[..n])
      case None => None
      case Some(earlier) =>
        match ToParticipant(headers, data[n])
        case None => None
        case Some(p) => Some(earlier + [p])
  }

  /**
    The data rows give `None` exactly when some row yields no participant;
    otherwise one participant per row, in order.
   */
  lemma {:induction false} DataParticipantsSpec(headers: Row, data: seq<Row>)
    ensures DataParticipants(headers, data).Some? <==> forall k :: 0 <= k < |data| ==> ToParticipant(headers, data[k]).Some?
    ensures DataParticipants(headers, data).Some? ==> |DataParticipants(headers, data).value| == |data|
    ensures DataParticipants(headers, data).Some? ==>
      forall k :: 0 <= k < |data| ==> ToParticipant(headers, data[k]) == Some(DataParticipants(headers, data).value[k])
    decreases |data|
  {
    if data != [] {
      var n := |data| - 1;
      DataParticipantsSpec(headers, data[..n]);
      assert forall k :: 0 <= k < n ==> data[..n][k] == data[k];
    }
  }

  /** Declarative reference for `processRows`: header = first non-blank row, data = the non-blank rows after it. */
  function Build(rows: seq<Row>): Option<seq<Participant>> {
    var kept := NonBlank(rows);
    if kept == [] then Some([]) else DataParticipants(kept[0], kept[1..])
  }

  /** The inner `headers.forEach` loop that fills `rowData`. */
  method MapRow(headers: Row, row: Row) returns (rowData: map<string, string>)
    ensures rowData == RowData(headers, row)
  {
    rowData := map[];
    var index := 0;
    while index < |headers|
      invariant 0 <= index <= |headers|
      invariant rowData == RowData(headers[..index], row)
    {
      assert headers[..index + 1][..index] == headers[..index];
      rowData := rowData[headers[index] := Cell(row, index)];
      index := index + 1;
    }
    assert headers[..index] == headers;
  }

  /** `processRows`: the loop with its `headersSet`/`headers` state and its early `return`. */
  method ProcessRows(dataRows: seq<Row>) returns (result: Option<seq<Participant>>)
    ensures result == Build(dataRows)
  {
    var participants: seq<Participant> := [];
    var headersSet := false;
    var headers: Row := [];
    var i := 0;
    ghost var kept: seq<Row> := [];
    while i < |dataRows|
      invariant 0 <= i <= |dataRows|
      invariant kept == NonBlank(dataRows[..i])
      invariant headersSet <==> kept != []
      invariant headersSet ==> headers == kept[0]
      invariant headersSet ==> DataParticipants(headers, kept[1..]) == Some(participants)
      invariant !headersSet ==> participants == []
    {
      var row := dataRows[i];
      NonBlankStep(dataRows, i);
      i := i + 1;
      if IsBlank(row) {
        continue;
      }
      ghost var earlier := kept;
      kept := kept + [row];
      if !headersSet {
        headers := row;
        headersSet := true;
        continue;
      }
      var rowData := MapRow(headers, row);
      var fullName := Field(rowData, NameField);
      var duration := Field(rowData, DurationField);
      if fullName == "" || duration == "" {
        FailingRowFailsBatch(dataRows, i, kept);
        return None;
      }
      var name := SplitName(fullName);
      participants := participants + [Participant(name.0, name.1, duration)];
      DataRowStep(earlier, row, participants);
    }
    assert dataRows[..i] == dataRows;
    result := Some(participants);
  }

  /** The non-blank rows of one more input row. */
  lemma NonBlankStep(rows: seq<Row>, i: nat)
    requires i < |rows|
    ensures NonBlank(rows[..i + 1]) == NonBlank(rows[..i]) + if IsBlank(rows[i]) then [] else [rows[i]]
  {
    assert rows[..i + 1][..i] == rows[..i];
  }

  /** A data row that yields a participant appends it to those of the rows before. */
  lemma DataRowStep(kept: seq<Row>, row: Row, participants: seq<Participant>)
    requires kept != [] && |participants| >= 1
    requires DataParticipants(kept[0], kept[1..]) == Some(participants[..|participants| - 1])
    requires ToParticipant(kept[0], row) == Some(participants[|participants| - 1])
    ensures DataParticipants((kept + [row])[0], (kept + [row])[1..]) == Some(participants)
  {
    assert (kept + [row])[1..] == kept[1..] + [row];
    DataParticipantsAppend(kept[0], kept[1..], row);
    assert participants[..|participants| - 1] + [participants[|participants| - 1]] == participants;
  }

  /** Appending one data row: the batch fails if the new row fails, else it gains that row's participant. */
  lemma DataParticipantsAppend(headers: Row, data: seq<Row>, row: Row)
    ensures DataParticipants(headers, data + [row]) ==
      if DataParticipants(headers, data).Some? && ToParticipant(headers, row).Some?
      then Some(DataParticipants(headers, data).value + [ToParticipant(headers, row).value])
      else None
  {
    assert (data + [row])[..|data|] == data;
  }

  /** A data row that fails, once a header is set, makes the whole input fail. */
  lemma FailingRowFailsBatch(rows: seq<Row>, i: nat, kept: seq<Row>)
    requires i <= |rows| && kept == NonBlank(rows[..i])
    requires |kept| >= 2 && ToParticipant(kept[0], kept[|kept| - 1]).None?
    ensures Build(rows).None?
  {
    var row := kept[|kept| - 1];
    NonBlankPrefix(rows, i);
    var all := NonBlank(rows);
    assert all[0] == kept[0];
    assert kept[1..] <= all[1..];
    assert kept[1..][|kept| - 2] == row;
    DataParticipantsSpec(kept[0], kept[1..]);
    DataParticipantsPrefix(kept[0], kept[1..], all[1..]);
  }

  /** A failing prefix of the data makes the whole batch fail. */
  lemma DataParticipantsPrefix(headers: Row, prefix: seq<Row>, data: seq<Row>)
    requires prefix <= data
    requires DataParticipants(headers, prefix).None?
    ensures DataParticipants(headers, data).None?
  {
    DataParticipantsSpec(headers, prefix);
    DataParticipantsSpec(headers, data);
    var k :| 0 <= k < |prefix| && ToParticipant(headers, prefix[k]).None?;
    assert data[k] == prefix[k];
  }

  /** The non-blank rows of a prefix of the input are a prefix of its non-blank rows. */
  lemma {:induction false} NonBlankPrefix(rows: seq<Row>, i: nat)
    requires i <= |rows|
    ensures NonBlank(rows[..i]) <= NonBlank(rows)
    decreases |rows| - i
  {
    if i < |rows| {
      NonBlankPrefix(rows, i + 1);
      assert rows[..i + 1][..i] == rows[..i];
    } else {
      assert rows[..i] == rows;
    }
  }

  /** The field read for a header name is the cell of its last column; an absent header reads as empty. */
  lemma FieldOfColumn(headers: Row, row: Row, key: string)
    ensures key !in headers ==> Field(RowData(headers, row), key) == ""
    ensures forall i :: 0 <= i < |headers| && headers[i] == key && LastOccurrence(headers, i) ==>
      Field(RowData(headers, row), key) == Cell(row, i)
  {
    RowDataKeys(headers, row);
    RowDataValues(headers, row);
  }

  /** A name without a space is all surname. */
  lemma SplitNameOneWord(fullName: string)
    requires ' ' !in fullName
    ensures SplitName(fullName) == ("", fullName)
  {
    SplitNoSep(fullName, ' ');
  }

  /**
    A space-free first piece followed by a non-empty space-free second piece:
    those two are the given name and the surname, whatever follows.
   */
  lemma SplitNameTwoPieces(first: string, last: string, tail: string)
    requires ' ' !in first && ' ' !in last && last != ""
    requires tail == "" || tail[0] == ' '
    ensures SplitName(first + " " + last + tail) == (first, last)
  {
    assert first + " " + last + tail == first + [' '] + (last + tail);
    SplitAtFirstSep(first, ' ', last + tail);
    if tail == "" {
      assert last + tail == last;
      SplitNoSep(last, ' ');
    } else {
      assert last + tail == last + [' '] + tail[1..];
      SplitAtFirstSep(last, ' ', tail[1..]);
    }
  }

  /** When the second piece is empty (a trailing or doubled space), the first piece becomes the surname. */
  lemma SplitNameEmptySecond(first: string, tail: string)
    requires ' ' !in first
    requires tail == "" || tail[0] == ' '
    ensures SplitName(first + " " + tail) == ("", first)
  {
    SplitAtFirstSep(first, ' ', tail);
    if tail == "" {
      SplitNoSep(tail, ' ');
    } else {
      assert tail == [] + [' '] + tail[1..];
      SplitAtFirstSep([], ' ', tail[1..]);
    }
  }

  /** A non-empty name that does not start with a space always yields a non-empty surname. */
  lemma SurnameNonEmpty(fullName: string)
    requires fullName != "" && fullName[0] != ' '
    ensures SplitName(fullName).1 != ""
  {
  }

  /**
    The whole contract of `processRows`: it fails exactly when some non-blank
    row after the header yields no participant; otherwise it returns one
    participant per such row, in order, and the header row yields none.
   */
  lemma BuildOutcome(rows: seq<Row>)
    ensures Build(rows).None? <==>
      exists k :: 1 <= k < |NonBlank(rows)| && ToParticipant(NonBlank(rows)[0], NonBlank(rows)[k]).None?
    ensures Build(rows).Some? ==> |Build(rows).value| == if NonBlank(rows) == [] then 0 else |NonBlank(rows)| - 1
    ensures Build(rows).Some? ==> forall k :: 1 <= k < |NonBlank(rows)| ==>
      ToParticipant(NonBlank(rows)[0], NonBlank(rows)[k]) == Some(Build(rows).value[k - 1])
  {
    var kept := NonBlank(rows);
    if kept != [] {
      var data := kept[1..];
      DataParticipantsSpec(kept[0], data);
      assert forall k :: 1 <= k < |kept| ==> kept[k] == data[k - 1];
      if Build(rows).None? {
        var j :| 0 <= j < |data| && ToParticipant(kept[0], data[j]).None?;
        assert kept[j + 1] == data[j];
      }
    }
  }

  /** Blank rows anywhere in the input change nothing. */
  lemma {:induction false} NonBlankSkipsBlank(rows: seq<Row>, i: nat, blank: Row)
    requires i <= |rows| && IsBlank(blank)
    ensures NonBlank(rows[..i] + [blank] + rows[i..]) == NonBlank(rows)
    decreases |rows| - i
  {
    var with := rows[..i] + [blank] + rows[i..];
    if i == |rows| {
      assert with[..|with| - 1] == rows;
    } else {
      var n := |rows| - 1;
      assert with[..|with| - 1] == rows[..n][..i] + [blank] + rows[..n][i..];
      assert with[|with| - 1] == rows[n];
      NonBlankSkipsBlank(rows[..n], i, blank);
    }
  }

  lemma BlankRowIgnored(rows: seq<Row>, i: nat, blank: Row)
    requires i <= |rows| && IsBlank(blank)
    ensures Build(rows[..i] + [blank] + rows[i..]) == Build(rows)
  {
    NonBlankSkipsBlank(rows, i, blank);
  }

  /**
    The early `return` loses earlier participants: a valid participant row
    followed by one with an empty name gives no participants at all.
   */
  lemma EarlyReturnLosesEarlierRows()
    ensures Build([[NameField, DurationField], ["Jan Kowalski", "1 godz. 10 min."], ["", "30 min."]]) == None
  {
    var rows: seq<Row> := [[NameField, DurationField], ["Jan Kowalski", "1 godz. 10 min."], ["", "30 min."]];
    var header := rows[0];
    assert !IsBlank(rows[0]) && !IsBlank(rows[1]) && !IsBlank(rows[2]) by {
      assert rows[0][0] != "" && rows[1][0] != "" && rows[2][1] != "";
    }
    assert rows[..2][..1] == rows[..1] && rows[..1][..0] == [];
    assert NonBlank(rows) == rows by {
      assert rows[..2] == rows[..|rows| - 1];
      assert NonBlank(rows[..1]) == [rows[0]];
      assert NonBlank(rows[..2]) == [rows[0], rows[1]];
    }
    RowDataValues(header, rows[2]);
    assert LastOccurrence(header, 0);
    assert Field(RowData(header, rows[2]), NameField) == "";
    BuildOutcome(rows);
  }
}
