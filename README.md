# SGPA Calculator: the subject loader and the SGPA calculation, in Dafny

The SGPA Calculator is a one-page Streamlit app. The user uploads a worksheet listing
subjects (code, credit, type). The app keeps the Theory and MCQ subjects. It asks for
three marks per subject (internal, practical, end-semester) and computes the semester
grade point average. Each grade point is weighted by its subject's credit.

This project models the two pieces of logic in `app.py`, both as loops proved against
recursive specifications over the processed prefix, plus the page code that connects
them:

- **The subject loader** (`load_subjects_from_excel`), in module `SubjectLoader`. It
  takes the worksheet as a sequence of rows of cell values and skips the header row.
  The reader yields every row at the sheet's full width, a blank cell being `None`
  (`Empty`), so all rows of a sheet have the same length. Each row is unpacked by position into code, credit and type. A row is kept when the
  stripped text of its type is exactly `Theory` or `MCQ`. A kept row becomes a subject
  with the text of its code, its credit converted to a number, and the unstripped text
  of its type. There is no per-row error handling: a row that does not have exactly
  three cells (on a sheet that is not three columns wide, that is row 2), or a kept row
  whose credit does not convert, fails the whole load. The
  page turns a failed load into an error message, an empty result into "no valid
  subjects", and a non-empty one into the mark-entry form (`OpenRegistry`).
- **The cell conversions** the loader relies on, in module `CellValues`: Python's
  `str()` of a cell value, `str.strip()`, and `float()` of a cell value. For text,
  `float()` accepts surrounding whitespace, an optional sign, digits with an optional
  decimal point and an optional exponent. The whitespace `float()` ignores is
  narrower than what `str.strip()` removes: the separator controls U+001C to U+001F
  are stripped from a type but make a credit fail to convert. `Strip` takes the set
  to remove (`StrBlanks` or `FloatBlanks`). `w.f` is worth `w + f / 10^|f|`, and an
  exponent `e` multiplies by `10^e`.
- **The SGPA calculation** run by the "Calculate SGPA" button, in module
  `SgpaCalculator`. Subjects are taken in order, paired with their marks by position.
  A subject with any negative mark adds the message "Negative marks at subject
  <code>" and contributes nothing else. Otherwise its grade point is
  `min(10, total / 100 * 10)`, and grade point times credit is added to the weighted
  sum, and the credit to the credit total. Afterwards there are three outcomes: any
  message gives `InvalidMarks`, a zero credit total gives `NoCredits`, and otherwise
  the SGPA is the weighted sum divided by the credit total.
- **Worked examples**, in module `Scenarios`: the app's own sample workbook (CS101,
  MA102, PH103, MCQ201 with credits 4, 3, 3, 2), dropped and failing rows, and a few
  calculations.

`Seqs` holds `Positions`, the increasing indices at which a predicate holds. It is the
reference for "the kept rows, in order" and "the subjects with a negative mark, in
order".

The model follows the code, which:

- takes the columns by position and never looks at the header's names;
- fails the whole load on a kept row whose credit does not convert;
- accepts zero and negative credits (`SgpaBetweenGradePoints` and `SgpaInRange` need
  positive credits).

## Model

| member | source | states |
|---|---|---|
| SubjectLoader.LoadSubjectsFromRows | app.py:89-98 | The loader loop returns exactly `LoadSubjects(rows)`. That is: skip the header row, classify each later row in order, stop at the first failing row with its error, and otherwise return the subjects of the kept rows. |
| SubjectLoader.ReadRow | app.py:94-97 | One pass of the loop body: the row fails to unpack exactly when it does not have three cells, and the verdict carries the cell count. It is dropped exactly when it has three cells and its stripped type is neither Theory nor MCQ. Its credit fails to convert exactly when the row is kept and `float()` of the credit raises. Otherwise the verdict keeps the subject built from the row's cells. |
| SubjectLoader.ClassifySpec | app.py:94-97 | A row's verdict fails exactly when the row does not have three cells, or passes the type filter with a credit that does not convert. A failing verdict carries that row's error (cell count or bad credit, with the worksheet row number). A verdict keeps a subject exactly when the row is kept and does not fail, and the subject is then built from the row's cells. |
| SubjectLoader.LoadFails | app.py:93-97 | The load fails if and only if some row after the header fails. |
| SubjectLoader.LoadFirstFailure | app.py:93-97 | A failed load reports the error of the first failing row after the header, and no earlier row fails. |
| SubjectLoader.LoadKept | app.py:93-98 | A successful load yields one subject per kept row after the header, in worksheet order. Each subject's code is the code cell's text, its credit is the converted credit, and its type is the type cell's unstripped text. |
| SubjectLoader.WrongWidthFailsAtFirstRow | app.py:93-94 | On a sheet that is not three columns wide, with at least one data row, the load fails at worksheet row 2 with the sheet's width as the cell count. |
| SubjectLoader.DroppedCreditIrrelevant | app.py:95-97 | A row the type filter drops never has its credit converted: replacing that credit by any cell value leaves the load's outcome unchanged. |
| SubjectLoader.CollectFailureSticks | app.py:93-97 | Once a row has failed, later rows are never looked at: the outcome stays that failure. |
| SubjectLoader.CollectSuccess | app.py:93-97 | The loop gets past the first `n` rows exactly when none of them fails. |
| SubjectLoader.CollectFirstFailure | app.py:93-97 | A failed loop reports the error of its first failing verdict. |
| SubjectLoader.CollectKept | app.py:96-97 | A successful loop's subjects are those of the keeping verdicts, in order. |
| SubjectLoader.OpenRegistry | app.py:107-113 | The page shows a read error (the `except` branch at lines 209-210) exactly when the load fails, and carries the load's error. It shows "no valid subjects" exactly when the load succeeds with no subject. It goes on to mark entry only with the load's non-empty subject list. |
| CellValues.StripSpec | app.py:95 | `strip()` returns a slice of the text that neither starts nor ends with whitespace, and everything cut off on either side is whitespace. This holds for either whitespace set. |
| CellValues.TrimStartSpec | app.py:95 | Trimming the front removes a whitespace prefix and only that: the result does not start with whitespace. |
| CellValues.TrimEndSpec | app.py:95 | Trimming the end removes a whitespace suffix and only that: the result does not end with whitespace. |
| CellValues.StripPadded | app.py:95 | Stripping whitespace-only padding from a text that neither starts nor ends with whitespace gives that text back, so " Theory " passes the filter. |
| CellValues.FormatNatSpec | app.py:97 | `str()` of a non-negative int is a non-empty string of decimal digits, without leading zeros, denoting that number. |
| CellValues.FormatIntSpec | app.py:97 | `str()` of an int starts with '-' exactly for negative numbers, followed by the digits of the magnitude, and has no whitespace at either end. |
| CellValues.DigitsParse | app.py:97 | `float()` of a non-empty string of digits is the number the digits denote. |
| CellValues.FloatOfFormatInt | app.py:97 | Round trip: `float(str(i)) == i` for every int. |
| CellValues.FloatOfIntText | app.py:97 | A credit given as the text of an int, with any whitespace `float()` ignores around it, converts exactly like the int itself. |
| CellValues.DecimalParse | app.py:97 | `float()` of `w.f`, with digit strings `w` and `f` not both empty, is `w + f / 10^|f|`. |
| CellValues.ExponentParse | app.py:97 | `float()` of a mantissa followed by `e` or `E` and an exponent is the mantissa scaled by ten to that exponent. |
| CellValues.ScaleUp | app.py:97 | Scaling by a non-negative exponent `e` multiplies by `10^e`. |
| CellValues.ScaleDown | app.py:97 | Scaling by a negative exponent `-e` divides by `10^e`. |
| SgpaCalculator.CalculateSgpa | app.py:158-177 | The calculation loop returns exactly `Sgpa(subjects, marks)`. Its invariants tie the error list, the credit total and the weighted sum to their values over the subjects processed so far. |
| SgpaCalculator.GradePoint | app.py:167-169 | A grade point is at most 10. It is at least 0 for a non-negative total and exactly 10 from a total of 100 on. Below that it is a tenth of the total. |
| SgpaCalculator.ErrorsInOrder | app.py:162-166 | There is one error message per subject with a negative mark, naming that subject's code, in subject order. |
| SgpaCalculator.NoErrorsIffClean | app.py:164-166 | There is no error message exactly when no subject has a negative mark. |
| SgpaCalculator.ErrorsName | app.py:162-175 | The outcome is `InvalidMarks` if and only if some subject has a negative mark, and then every such subject is named. It is `NoCredits` if and only if no mark is negative and the credits add up to zero. |
| SgpaCalculator.SkippedCreditIrrelevant | app.py:164-166 | A subject with a negative mark contributes nothing: changing its credit to any value leaves the outcome unchanged. |
| SgpaCalculator.SkipsNegative | app.py:164-171 | A subject with a negative mark leaves the messages, the credit total and the weighted sum independent of its credit, after any number of subjects. |
| SgpaCalculator.CleanCredits | app.py:171 | Without negative marks, the credit total is the sum of all credits. |
| SgpaCalculator.CleanWeighted | app.py:167-170 | Without negative marks, the weighted sum is the sum of grade point times credit over the subjects. |
| SgpaCalculator.SgpaIsWeightedAverage | app.py:170-177 | Without negative marks and with credits that do not add up to zero, the SGPA is Σ(grade point × credit) / Σ credit, the formula the page states. |
| SgpaCalculator.AccumulatorBetween | app.py:167-171 | When every subject that counts has a positive credit and a grade point between `lo` and `hi`, the credit total is non-negative and the weighted sum lies between `lo` and `hi` times the credit total. |
| SgpaCalculator.SgpaBetweenGradePoints | app.py:167-177 | With positive credits, a computed SGPA lies between any lower and any upper bound of the grade points that count, so between the smallest and the largest of them. |
| SgpaCalculator.SgpaInRange | app.py:167-177 | With positive credits on the subjects that count, a computed SGPA lies in [0, 10]. |
| SgpaCalculator.FullMarksGiveTen | app.py:167-177 | With full marks (total at least 100) on every subject, the SGPA is exactly 10 whatever the credits, unless they add up to zero. |
| SgpaCalculator.FullMarksWeighted | app.py:169-171 | With full marks everywhere, the weighted sum is 10 times the credit total. |
| Scenarios.SampleWorkbookLoads | app.py:62-64 | The sample workbook loads as its four subjects, with credits 4.0, 3.0, 3.0 and 2.0. |
| Scenarios.FilterDropsOtherTypes | app.py:95-96 | A "Lab" row and an empty row, whose type reads "None", are both dropped. |
| Scenarios.PaddedTypeKept | app.py:95-97 | A type " Theory " passes the filter, and the subject keeps the padded text as its type. |
| Scenarios.TextCreditFails | app.py:97 | A kept row with credit text "four" fails the load at worksheet row 2. |
| Scenarios.SeparatorCreditText | app.py:95-97 | The credit text "\x1c4" does not convert, although `str.strip()` reduces it to "4". |
| Scenarios.SeparatorCreditFails | app.py:94-97 | A kept row with credit text "\x1c4" fails the load at worksheet row 2. |
| Scenarios.BlankTypeDropped | app.py:93-96 | A row whose type cell is blank reads as `("MA102", 3, None)`, so its type text is "None" and it is dropped. The good row before it is kept. |
| Scenarios.WideSheetFails | app.py:93-94 | On a four-column sheet, every row has four values, and the load fails at worksheet row 2 with four cells. |
| Scenarios.DecimalCreditText | app.py:97 | The credit text " 2.5 " converts to 2.5. |
| Scenarios.ExponentCreditText | app.py:97 | The credit text "4e0" converts to 4.0. |
| Scenarios.DecimalCreditKept | app.py:94-97 | A kept row with the credit text " 2.5 " loads as a subject with credit 2.5. |
| Scenarios.HalfMarks | app.py:167-177 | One subject of 4 credits with a total of 50 gives an SGPA of 5. |
| Scenarios.SampleFullMarks | app.py:62-63 | Full marks on the sample subjects give an SGPA of 10. |
| Scenarios.NegativeMarkReported | app.py:164-173 | A negative mark on MA102 gives exactly the message "Negative marks at subject MA102" and no SGPA. |
| Scenarios.NoSubjectsNoCredits | app.py:174-175 | An empty subject list gives the "no credits" outcome. |

## Left out

- Opening the workbook and reading cells (openpyxl) is not modelled: the loader takes
  the worksheet's rows as a sequence of cell values.
- Dates are not formatted: `str()` of a date, and of a float cell, is taken as given
  with the cell.
- Python's `float()` of text does not accept `inf`, `nan`, underscores between digits,
  or non-ASCII digits in this model. Such text converts to no number, so a kept row
  with such a credit fails the load here where Python would accept it.
- The page output is not modelled: page layout, CSS and HTML, the marks table, the
  balloons, the success and error banners, and the joined text of the invalid-marks
  message. The model returns the list of messages.
- The downloadable sample workbook (pandas and base64) is left out. Its data serves as
  the example in `Scenarios`.
- The `number_input` widgets are left out. Their bounds (0 to 50, 0 to 50, 0 to 100)
  are not assumed: the calculation accepts any integers, as the code re-checks for
  negative marks.
- Floating point is not modelled: credits, grade points and the SGPA are exact reals,
  and the two-decimal display rounding is left out.
- The loader accepts rows of differing lengths, a generalisation: the reader only ever
  yields rows of the sheet's width, so a cell-count failure can only happen at row 2
  (`WrongWidthFailsAtFirstRow`).
- The row number and cell count in `LoadError` belong to the model. The page shows
  Python's exception text, which names no row.
