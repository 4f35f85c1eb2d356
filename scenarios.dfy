/** Worked examples: the sample workbook the page offers for download, rows the type
    filter drops, rows that make the load fail, and a few calculations. */
module Scenarios {
  import opened CellValues
  import opened SubjectLoader
  import opened SgpaCalculator

  function Header(): Row { [Text("Code"), Text("Credit"), Text("Type")] }

  /** The rows of the downloadable sample workbook: a header, then four subjects with
      integer credits. */
  function SampleRows(): seq<Row>
  {
    [ Header(),
      [Text("CS101"), Int(4), Text("Theory")],
      [Text("MA102"), Int(3), Text("Theory")],
      [Text("PH103"), Int(3), Text("Theory")],
      [Text("MCQ201"), Int(2), Text("MCQ")] ]
  }

  function SampleSubjects(): seq<Subject>
  {
    [ Subject("CS101", 4.0, "Theory"), Subject("MA102", 3.0, "Theory"),
      Subject("PH103", 3.0, "Theory"), Subject("MCQ201", 2.0, "MCQ") ]
  }

  /** The sample workbook loads as its four subjects, credits as floats. */
  lemma SampleWorkbookLoads()
    ensures LoadSubjects(SampleRows()) == Success(SampleSubjects())
  {
    StripUnpadded("Theory", StrBlanks);
    StripUnpadded("MCQ", StrBlanks);
    var ss := SampleSubjects();
    var vs := Verdicts(DataRows(SampleRows()));
    assert vs == [Keep(ss[0]), Keep(ss[1]), Keep(ss[2]), Keep(ss[3])];
    CollectNext(vs, 0);
    assert [] + [ss[0]] == [ss[0]];
    CollectNext(vs, 1);
    assert [ss[0]] + [ss[1]] == [ss[0], ss[1]];
    CollectNext(vs, 2);
    assert [ss[0], ss[1]] + [ss[2]] == [ss[0], ss[1], ss[2]];
    CollectNext(vs, 3);
    assert [ss[0], ss[1], ss[2]] + [ss[3]] == ss;
  }

  /** A "Lab" row and an empty row (whose type reads "None") are dropped. */
  lemma FilterDropsOtherTypes()
    ensures LoadSubjects([ Header(),
                           [Text("PH191"), Int(1), Text("Lab")],
                           [Empty, Empty, Empty] ])
         == Success([])
  {
    StripUnpadded("Lab", StrBlanks);
    StripUnpadded("None", StrBlanks);
    var vs := Verdicts(DataRows([ Header(),
                                  [Text("PH191"), Int(1), Text("Lab")],
                                  [Empty, Empty, Empty] ]));
    assert vs == [Dropped, Dropped];
    CollectNext(vs, 0);
    CollectNext(vs, 1);
  }

  /** A type padded with spaces passes the filter, and the subject keeps the padding. */
  lemma PaddedTypeKept()
    ensures LoadSubjects([ Header(), [Text("CS101"), Int(4), Text(" Theory ")] ])
         == Success([Subject("CS101", 4.0, " Theory ")])
  {
    StripPadded(" ", "Theory", " ", StrBlanks);
    var vs := Verdicts(DataRows([ Header(), [Text("CS101"), Int(4), Text(" Theory ")] ]));
    assert vs == [Keep(Subject("CS101", 4.0, " Theory "))];
    CollectNext(vs, 0);
    assert [] + [Subject("CS101", 4.0, " Theory ")] == [Subject("CS101", 4.0, " Theory ")];
  }

  /** A kept row whose credit is not a number fails the load at its worksheet row. */
  lemma TextCreditFails()
    ensures LoadSubjects([ Header(),
                           [Text("CS101"), Text("four"), Text("Theory")] ])
         == Failure(BadCredit(2))
  {
    StripUnpadded("Theory", StrBlanks);
    StripUnpadded("four", FloatBlanks);
    IndexOfNone("four", IsExponentMark);
    IndexOfNone("four", IsPoint);
    assert !IsDigit("four"[0]);
  }

  /** `float()` does not ignore the separator control U+001C: the credit text "\x1c4"
      does not convert, although `str.strip()` would remove that character. */
  lemma SeparatorCreditText()
    ensures ToFloat(Text("\U{1C}4")) == None
    ensures Strip("\U{1C}4", StrBlanks) == "4"
  {
    StripUnpadded("\U{1C}4", FloatBlanks);
    IndexOfNone("\U{1C}4", IsExponentMark);
    IndexOfNone("\U{1C}4", IsPoint);
    assert !IsDigit("\U{1C}4"[0]);
    StripPadded("\U{1C}", "4", "", StrBlanks);
    assert "\U{1C}" + "4" + "" == "\U{1C}4";
  }

  /** So a kept row with the credit text "\x1c4" fails the load at its worksheet row. */
  lemma SeparatorCreditFails()
    ensures LoadSubjects([ Header(), [Text("CS101"), Text("\U{1C}4"), Text("Theory")] ])
         == Failure(BadCredit(2))
  {
    StripUnpadded("Theory", StrBlanks);
    SeparatorCreditText();
  }

  /** A row whose type cell is blank reads as `("MA102", 3, None)`: its type text is
      "None", so it is dropped and the good row before it is kept. */
  lemma BlankTypeDropped()
    ensures LoadSubjects([ Header(),
                           [Text("CS101"), Int(4), Text("Theory")],
                           [Text("MA102"), Int(3), Empty] ])
         == Success([Subject("CS101", 4.0, "Theory")])
  {
    StripUnpadded("Theory", StrBlanks);
    StripUnpadded("None", StrBlanks);
    var vs := Verdicts(DataRows([ Header(),
                                  [Text("CS101"), Int(4), Text("Theory")],
                                  [Text("MA102"), Int(3), Empty] ]));
    assert vs == [Keep(Subject("CS101", 4.0, "Theory")), Dropped];
    CollectNext(vs, 0);
    assert [] + [Subject("CS101", 4.0, "Theory")] == [Subject("CS101", 4.0, "Theory")];
    CollectNext(vs, 1);
  }

  /** A four-column sheet: every row has four values, so the load fails at row 2. */
  lemma WideSheetFails()
    ensures LoadSubjects([ [Text("Code"), Text("Credit"), Text("Type"), Text("Notes")],
                           [Text("CS101"), Int(4), Text("Theory"), Empty],
                           [Text("MA102"), Int(3), Text("Theory"), Empty] ])
         == Failure(WrongCellCount(2, 4))
  {
    WrongWidthFailsAtFirstRow([ [Text("Code"), Text("Credit"), Text("Type"), Text("Notes")],
                                [Text("CS101"), Int(4), Text("Theory"), Empty],
                                [Text("MA102"), Int(3), Text("Theory"), Empty] ], 4);
  }

  /** The text "2.5" is two and five tenths. */
  lemma TwoPointFive()
    ensures ParseUnsigned("2.5") == Some(2.5)
  {
    assert "2" + "." + "5" == "2.5";
    DecimalParse("2", "5");
    assert DigitsValue("2") == 2 && DigitsValue("5") == 5 && Pow10(1) == 10;
  }

  /** A credit typed as the text " 2.5 " converts to 2.5. */
  lemma DecimalCreditText()
    ensures ToFloat(Text(" 2.5 ")) == Some(2.5)
  {
    StripPadded(" ", "2.5", " ", FloatBlanks);
    assert " " + "2.5" + " " == " 2.5 ";
    TwoPointFive();
  }

  /** A credit typed as the text "4e0" converts to 4.0. */
  lemma ExponentCreditText()
    ensures ToFloat(Text("4e0")) == Some(4.0)
  {
    StripUnpadded("4e0", FloatBlanks);
    MantissaOfDigits("4");
    assert DigitsValue("4") == 4;
    assert ParseExponent("0") == Some(0);
    assert "4" + ['e'] + "0" == "4e0";
    ExponentParse("4", 'e', "0", 4.0, 0);
  }

  /** A kept row with the credit text " 2.5 " loads with credit 2.5. */
  lemma DecimalCreditKept()
    ensures LoadSubjects([ Header(), [Text("PH103"), Text(" 2.5 "), Text("Theory")] ])
         == Success([Subject("PH103", 2.5, "Theory")])
  {
    StripUnpadded("Theory", StrBlanks);
    DecimalCreditText();
    var vs := Verdicts(DataRows([ Header(), [Text("PH103"), Text(" 2.5 "), Text("Theory")] ]));
    assert vs == [Keep(Subject("PH103", 2.5, "Theory"))];
    CollectNext(vs, 0);
    assert [] + [Subject("PH103", 2.5, "Theory")] == [Subject("PH103", 2.5, "Theory")];
  }

  /** One subject of 4 credits with 50 marks in total: SGPA 5. */
  lemma HalfMarks()
    ensures Sgpa([Subject("CS101", 4.0, "Theory")], [Marks(20, 10, 20)]) == Computed(5.0)
  {
    var subjects, marks := [Subject("CS101", 4.0, "Theory")], [Marks(20, 10, 20)];
    assert GradePoint(Total(marks[0])) == 5.0;
    assert WeightedUpTo(subjects, marks, 1) == 20.0;
    assert CreditsUpTo(subjects, marks, 1) == 4.0;
  }

  /** Full marks on the sample subjects: SGPA 10. */
  lemma SampleFullMarks()
    ensures Sgpa(SampleSubjects(), [Marks(50, 0, 50), Marks(40, 10, 50), Marks(0, 0, 100), Marks(50, 50, 100)])
         == Computed(10.0)
  {
    var marks := [Marks(50, 0, 50), Marks(40, 10, 50), Marks(0, 0, 100), Marks(50, 50, 100)];
    FullMarksGiveTen(SampleSubjects(), marks);
    assert CreditsUpTo(SampleSubjects(), marks, 4) == 12.0;
  }

  /** A negative mark names its subject and no SGPA is computed. */
  lemma NegativeMarkReported()
    ensures Sgpa(SampleSubjects()[..2], [Marks(30, 10, 40), Marks(-1, 10, 40)])
         == InvalidMarks(["Negative marks at subject MA102"])
  {
    var subjects, marks := SampleSubjects()[..2], [Marks(30, 10, 40), Marks(-1, 10, 40)];
    assert subjects[1].code == "MA102";
    assert ErrorsUpTo(subjects, marks, 1) == [];
    assert ErrorsUpTo(subjects, marks, 2) == [NegativeMessage("MA102")];
    assert NegativeMessage("MA102") == "Negative marks at subject MA102";
  }

  /** No subjects: no credits. */
  lemma NoSubjectsNoCredits()
    ensures Sgpa([], []) == NoCredits
  {
  }
}
