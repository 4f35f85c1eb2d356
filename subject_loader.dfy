/** The subject registry loader: the worksheet's rows in, the subjects of type
    Theory or MCQ out, in row order. The rows are the worksheet's as the reader yields
    them; opening the workbook is not part of this model. */
module SubjectLoader {
  import opened CellValues
  import opened Seqs

  /** One worksheet row: its cell values from the first column on. The reader yields
      every row at the sheet's full width, with `Empty` for a blank cell, so all rows
      of a worksheet have the same length; the model also accepts rows of differing
      lengths. */
  type Row = seq<Cell>

  /** A loaded subject. `kind` holds the subject's type text exactly as the cell shows it. */
  datatype Subject = Subject(code: string, credit: real, kind: string)

  /** Why a load fails. `row` is the 1-based worksheet row number. */
  datatype LoadError =
      /** The row does not unpack into exactly three values (Python's ValueError). */
    | WrongCellCount(row: nat, cells: nat)
      /** The row is kept but its credit does not convert to a float. */
    | BadCredit(row: nat)

  datatype Result<T> = Success(value: T) | Failure(error: LoadError)

  /** The type filter: the cell's text, stripped, is exactly "Theory" or "MCQ". */
  predicate IsAcceptedType(c: Cell)
  {
    var t := Strip(Str(c), StrBlanks);
    t == "Theory" || t == "MCQ"
  }

  /** A row that yields a subject (when its credit converts). */
  predicate IsKept(row: Row)
  {
    |row| == 3 && IsAcceptedType(row[2])
  }

  /** A row that makes the whole load fail: it does not unpack, or it passes the type
      filter and its credit does not convert. A row the filter drops is never converted. */
  predicate RowFails(row: Row)
  {
    |row| != 3 || (IsAcceptedType(row[2]) && ToFloat(row[1]).None?)
  }

  /** `s` is the subject built from `row`. */
  predicate Describes(s: Subject, row: Row)
  {
    |row| == 3 && s.code == Str(row[0]) && ToFloat(row[1]) == Some(s.credit) && s.kind == Str(row[2])
  }

  /** The rows after the header row. */
  function DataRows(rows: seq<Row>): seq<Row>
  {
    if rows == [] then [] else rows[1..]
  }

  /** The worksheet row number of data row `j` (row 1 is the header). */
  function SheetRow(j: nat): nat { j + 2 }

  /** The error data row `j` raises, for a row that fails. */
  function FailureOf(row: Row, j: nat): LoadError
  {
    if |row| != 3 then WrongCellCount(SheetRow(j), |row|) else BadCredit(SheetRow(j))
  }

  /** What one pass of the loop body makes of a row. */
  datatype Verdict =
      /** The row does not unpack into three values. */
    | WrongWidth(cells: nat)
      /** The type filter drops the row. */
    | Dropped
      /** The row passes the filter but its credit does not convert. */
    | Unconvertible
      /** The row yields this subject. */
    | Keep(subject: Subject)

  predicate Fails(v: Verdict) { v.WrongWidth? || v.Unconvertible? }

  predicate IsKeep(v: Verdict) { v.Keep? }

  /** The loop body on one row: unpack, filter on the stripped type, convert the credit. */
  function Classify(row: Row): Verdict
  {
    if |row| != 3 then WrongWidth(|row|)
    else if !IsAcceptedType(row[2]) then Dropped
    else match ToFloat(row[1])
      case None => Unconvertible
      case Some(credit) => Keep(Subject(Str(row[0]), credit, Str(row[2])))
  }

  /** The verdict fails exactly on a failing row, with that row's error; it keeps
      exactly the kept rows that do not fail, with the subject the row describes. */
  lemma ClassifySpec(row: Row, j: nat)
    ensures Fails(Classify(row)) <==> RowFails(row)
    ensures Fails(Classify(row)) ==> ErrorOf(Classify(row), j) == FailureOf(row, j)
    ensures IsKeep(Classify(row)) <==> IsKept(row) && !RowFails(row)
    ensures IsKeep(Classify(row)) ==> Describes(Classify(row).subject, row)
  {
  }

  /** The error a failing verdict for data row `j` raises. */
  function ErrorOf(v: Verdict, j: nat): LoadError
  {
    if v.WrongWidth? then WrongCellCount(SheetRow(j), v.cells) else BadCredit(SheetRow(j))
  }

  /** The verdicts of the data rows, one per row. */
  function Verdicts(data: seq<Row>): (vs: seq<Verdict>)
    ensures |vs| == |data|
  {
    seq(|data|, j requires 0 <= j < |data| => Classify(data[j]))
  }

  /** The outcome of the loop after the first `n` verdicts: the first failure stops it. */
  function Collect(vs: seq<Verdict>, n: nat): Result<seq<Subject>>
    requires n <= |vs|
  {
    if n == 0 then Success([])
    else match Collect(vs, n - 1)
      case Failure(e) => Failure(e)
      case Success(acc) =>
        var v := vs[n - 1];
        if Fails(v) then Failure(ErrorOf(v, n - 1))
        else if v.Keep? then Success(acc + [v.subject])
        else Success(acc)
  }

  /** The outcome of loading the whole worksheet. */
  function LoadSubjects(rows: seq<Row>): Result<seq<Subject>>
  {
    var vs := Verdicts(DataRows(rows));
    Collect(vs, |vs|)
  }

  /** The loop body on one row: unpacks it into code, credit and type, drops it unless
      its stripped type is Theory or MCQ, and converts the credit. A row that does not
      unpack raises, and so does a kept row whose credit does not convert; a dropped
      row's credit is never converted. */
  method ReadRow(row: Row) returns (v: Verdict)
    ensures v.WrongWidth? <==> |row| != 3
    ensures v.WrongWidth? ==> v.cells == |row|
    ensures v.Dropped? <==> |row| == 3 && !IsAcceptedType(row[2])
    ensures v.Unconvertible? <==> IsKept(row) && ToFloat(row[1]).None?
    ensures v.Keep? <==> IsKept(row) && ToFloat(row[1]).Some?
    ensures v.Keep? ==> Describes(v.subject, row)
    ensures v == Classify(row)
  {
    if |row| != 3 {
      return WrongWidth(|row|);
    }
    var code, credit, kind := row[0], row[1], row[2];
    if !IsAcceptedType(kind) {
      return Dropped;
    }
    var converted := ToFloat(credit);
    if converted.None? {
      return Unconvertible;
    }
    v := Keep(Subject(Str(code), converted.value, Str(kind)));
  }

  /** The loader loop: skips the header row, reads each row in turn, stops at the
      first row that raises, and appends the subject of each kept row. */
  method LoadSubjectsFromRows(rows: seq<Row>) returns (r: Result<seq<Subject>>)
    ensures r == LoadSubjects(rows)
  {
    var data := DataRows(rows);
    ghost var vs := Verdicts(data);
    var subjects: seq<Subject> := [];
    var j := 0;
    while j < |data|
      invariant 0 <= j <= |data|
      invariant Collect(vs, j) == Success(subjects)
    {
      var v := ReadRow(data[j]);
      assert v == vs[j];
      CollectNext(vs, j);
      if Fails(v) {
        r := Failure(ErrorOf(v, j));
        CollectFailureSticks(vs, j + 1, |vs|);
        return;
      }
      if v.Keep? {
        subjects := subjects + [v.subject];
      }
      j := j + 1;
    }
    r := Success(subjects);
  }

  /** One more verdict after a successful prefix. */
  lemma CollectNext(vs: seq<Verdict>, n: nat)
    requires n < |vs| && Collect(vs, n).Success?
    ensures Collect(vs, n + 1)
         == if Fails(vs[n]) then Failure(ErrorOf(vs[n], n))
            else if vs[n].Keep? then Success(Collect(vs, n).value + [vs[n].subject])
            else Collect(vs, n)
  {
  }

  /** Once a verdict has failed, later ones are never looked at. */
  lemma {:induction false} CollectFailureSticks(vs: seq<Verdict>, n: nat, m: nat)
    requires n <= m <= |vs|
    requires Collect(vs, n).Failure?
    ensures Collect(vs, m) == Collect(vs, n)
  {
    if m > n {
      CollectFailureSticks(vs, n, m - 1);
    }
  }

  /** The loop gets past the first `n` verdicts exactly when none of them fails. */
  lemma {:induction false} CollectSuccess(vs: seq<Verdict>, n: nat)
    requires n <= |vs|
    ensures Collect(vs, n).Success? <==> forall j :: 0 <= j < n ==> !Fails(vs[j])
  {
    if n > 0 {
      CollectSuccess(vs, n - 1);
    }
  }

  /** A failed loop reports the error of the first failing verdict. */
  lemma {:induction false} CollectFirstFailure(vs: seq<Verdict>, n: nat)
    requires n <= |vs|
    requires Collect(vs, n).Failure?
    ensures exists j :: 0 <= j < n && Fails(vs[j]) && Collect(vs, n).error == ErrorOf(vs[j], j)
                && forall k :: 0 <= k < j ==> !Fails(vs[k])
  {
    if Collect(vs, n - 1).Failure? {
      CollectFirstFailure(vs, n - 1);
    } else {
      CollectSuccess(vs, n - 1);
    }
  }

  /** A successful loop yields the subjects of the kept verdicts, in order. */
  lemma {:induction false} CollectKept(vs: seq<Verdict>, n: nat)
    requires n <= |vs|
    requires Collect(vs, n).Success?
    ensures var idx := Positions(vs[..n], IsKeep);
            var ss := Collect(vs, n).value;
            |ss| == |idx| && forall k :: 0 <= k < |idx| ==> ss[k] == vs[idx[k]].subject
  {
    if n > 0 {
      CollectKept(vs, n - 1);
      PositionsSnoc(vs, n - 1, IsKeep);
    }
  }

  /** The load fails exactly when some row after the header fails. */
  lemma LoadFails(rows: seq<Row>)
    ensures LoadSubjects(rows).Failure? <==> exists j {:trigger RowFails(rows[j])} :: 1 <= j < |rows| && RowFails(rows[j])
  {
    var data := DataRows(rows);
    var vs := Verdicts(data);
    CollectSuccess(vs, |vs|);
    if LoadSubjects(rows).Failure? {
      var j :| 0 <= j < |vs| && Fails(vs[j]);
      ClassifySpec(data[j], j);
      assert RowFails(rows[j + 1]);
    } else {
      forall j | 1 <= j < |rows| ensures !RowFails(rows[j]) {
        ClassifySpec(data[j - 1], j - 1);
        assert vs[j - 1] == Classify(rows[j]);
      }
    }
  }

  /** A failed load names the first failing row after the header, by its worksheet
      row number. */
  lemma LoadFirstFailure(rows: seq<Row>)
    requires LoadSubjects(rows).Failure?
    ensures exists j {:trigger RowFails(rows[j])} :: 1 <= j < |rows| && RowFails(rows[j])
                && LoadSubjects(rows).error == FailureOf(rows[j], j - 1)
                && forall k {:trigger RowFails(rows[k])} :: 1 <= k < j ==> !RowFails(rows[k])
  {
    var data := DataRows(rows);
    var vs := Verdicts(data);
    CollectFirstFailure(vs, |vs|);
    var j :| 0 <= j < |vs| && Fails(vs[j]) && LoadSubjects(rows).error == ErrorOf(vs[j], j)
             && forall k :: 0 <= k < j ==> !Fails(vs[k]);
    ClassifySpec(data[j], j);
    assert RowFails(rows[j + 1]);
    forall k | 1 <= k < j + 1 ensures !RowFails(rows[k]) {
      ClassifySpec(data[k - 1], k - 1);
      assert vs[k - 1] == Classify(rows[k]);
    }
  }

  /** A successful load yields the subjects of the kept rows after the header, in
      worksheet order, and nothing else. */
  lemma LoadKept(rows: seq<Row>)
    requires LoadSubjects(rows).Success?
    ensures var idx := Positions(DataRows(rows), IsKept);
            var ss := LoadSubjects(rows).value;
            |ss| == |idx| && forall k {:trigger ss[k]} :: 0 <= k < |idx| ==> Describes(ss[k], rows[idx[k] + 1])
  {
    var data := DataRows(rows);
    var vs := Verdicts(data);
    CollectSuccess(vs, |vs|);
    CollectKept(vs, |vs|);
    assert vs[..|vs|] == vs;
    forall j | 0 <= j < |data| ensures IsKeep(vs[j]) == IsKept(data[j]) && (IsKeep(vs[j]) ==> Describes(vs[j].subject, data[j])) {
      ClassifySpec(data[j], j);
    }
    PositionsAgree(vs, IsKeep, data, IsKept);
  }

  /** The reader yields every row at the sheet's width, so a sheet that is not three
      columns wide fails at its first data row, worksheet row 2. */
  lemma WrongWidthFailsAtFirstRow(rows: seq<Row>, width: nat)
    requires |rows| >= 2 && width != 3
    requires forall j :: 0 <= j < |rows| ==> |rows[j]| == width
    ensures LoadSubjects(rows) == Failure(WrongCellCount(2, width))
  {
    var vs := Verdicts(DataRows(rows));
    assert vs[0] == WrongWidth(width);
    CollectNext(vs, 0);
    CollectFailureSticks(vs, 1, |vs|);
  }

  /** The credit of a row the type filter drops is never converted: replacing it by
      any value at all leaves the load's outcome unchanged. */
  lemma DroppedCreditIrrelevant(rows: seq<Row>, j: nat, credit: Cell)
    requires 1 <= j < |rows|
    requires |rows[j]| == 3 && !IsAcceptedType(rows[j][2])
    ensures LoadSubjects(rows[j := rows[j][1 := credit]]) == LoadSubjects(rows)
  {
    var rows' := rows[j := rows[j][1 := credit]];
    var data, data' := DataRows(rows), DataRows(rows');
    assert Classify(rows'[j]) == Dropped == Classify(rows[j]);
    assert Verdicts(data') == Verdicts(data) by {
      forall k | 0 <= k < |data| ensures Verdicts(data')[k] == Verdicts(data)[k] {
        assert data'[k] == rows'[k + 1] && data[k] == rows[k + 1];
      }
    }
  }

  /** What the page does with the loader's outcome: a failed load is reported as a
      read error, an empty registry as "no valid subjects", and only a non-empty
      registry goes on to mark entry. */
  datatype Registry =
    | ReadFailed(error: LoadError)
    | NoValidSubjects
    | Loaded(subjects: seq<Subject>)

  method OpenRegistry(rows: seq<Row>) returns (reg: Registry)
    ensures reg.ReadFailed? <==> LoadSubjects(rows).Failure?
    ensures reg.ReadFailed? ==> reg.error == LoadSubjects(rows).error
    ensures reg.NoValidSubjects? <==> LoadSubjects(rows) == Success([])
    ensures reg.Loaded? ==> reg.subjects != [] && LoadSubjects(rows) == Success(reg.subjects)
  {
    var r := LoadSubjectsFromRows(rows);
    match r
    case Failure(e) => reg := ReadFailed(e);
    case Success(subjects) =>
      if subjects == [] {
        reg := NoValidSubjects;
      } else {
        reg := Loaded(subjects);
      }
  }
}
