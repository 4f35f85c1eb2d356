/** The SGPA calculation run by the "Calculate SGPA" button: one pass over the
    subjects and their marks, then a three-way verdict. */
module SgpaCalculator {
  import opened SubjectLoader
  import opened Seqs

  /** The marks entered for one subject. */
  datatype Marks = Marks(internal: int, practical: int, endsem: int)

  /** The verdict: the invalid-marks messages, the "no credits" failure, or the SGPA. */
  datatype Outcome =
    | InvalidMarks(errors: seq<string>)
    | NoCredits
    | Computed(sgpa: real)

  predicate HasNegative(m: Marks)
  {
    m.internal < 0 || m.practical < 0 || m.endsem < 0
  }

  function Total(m: Marks): int
  {
    m.internal + m.practical + m.endsem
  }

  function Min(a: real, b: real): real
  {
    if b < a then b else a
  }

  /** A subject's grade point: its total as a fraction of a fixed maximum of 100 marks
      (whatever the internal and practical caps), scaled to 10 and capped at 10. */
  function GradePoint(total: int): (gp: real)
    ensures gp <= 10.0
    ensures total >= 0 ==> 0.0 <= gp
    ensures total >= 100 ==> gp == 10.0
    ensures total <= 100 ==> gp * 10.0 == total as real
  {
    Min(10.0, (total as real / 100.0) * 10.0)
  }

  function NegativeMessage(code: string): string
  {
    "Negative marks at subject " + code
  }

  /** The error messages after the first `n` subjects. */
  function ErrorsUpTo(subjects: seq<Subject>, marks: seq<Marks>, n: nat): seq<string>
    requires |marks| == |subjects| && n <= |subjects|
  {
    if n == 0 then []
    else
      var errors := ErrorsUpTo(subjects, marks, n - 1);
      if HasNegative(marks[n - 1]) then errors + [NegativeMessage(subjects[n - 1].code)] else errors
  }

  /** The credits total after the first `n` subjects: subjects with a negative mark
      are skipped. */
  function CreditsUpTo(subjects: seq<Subject>, marks: seq<Marks>, n: nat): real
    requires |marks| == |subjects| && n <= |subjects|
  {
    if n == 0 then 0.0
    else
      var total := CreditsUpTo(subjects, marks, n - 1);
      if HasNegative(marks[n - 1]) then total else total + subjects[n - 1].credit
  }

  /** The weighted sum after the first `n` subjects: grade point times credit,
      subjects with a negative mark skipped. */
  function WeightedUpTo(subjects: seq<Subject>, marks: seq<Marks>, n: nat): real
    requires |marks| == |subjects| && n <= |subjects|
  {
    if n == 0 then 0.0
    else
      var sum := WeightedUpTo(subjects, marks, n - 1);
      if HasNegative(marks[n - 1]) then sum
      else sum + GradePoint(Total(marks[n - 1])) * subjects[n - 1].credit
  }

  /** The branch on the final accumulators. */
  function Conclude(errors: seq<string>, weightedSum: real, totalCredits: real): Outcome
  {
    if errors != [] then InvalidMarks(errors)
    else if totalCredits == 0.0 then NoCredits
    else Computed(weightedSum / totalCredits)
  }

  /** The calculation's outcome for the whole subject list. */
  function Sgpa(subjects: seq<Subject>, marks: seq<Marks>): Outcome
    requires |marks| == |subjects|
  {
    var n := |subjects|;
    Conclude(ErrorsUpTo(subjects, marks, n), WeightedUpTo(subjects, marks, n), CreditsUpTo(subjects, marks, n))
  }

  /** The sum of a sequence of reals. */
  function Sum(xs: seq<real>): real
  {
    if xs == [] then 0.0 else Sum(xs[..|xs| - 1]) + xs[|xs| - 1]
  }

  /** The sum of the products of corresponding elements. */
  function Dot(xs: seq<real>, ys: seq<real>): real
    requires |xs| == |ys|
  {
    if xs == [] then 0.0 else Dot(xs[..|xs| - 1], ys[..|ys| - 1]) + xs[|xs| - 1] * ys[|ys| - 1]
  }

  function Credits(subjects: seq<Subject>): (cs: seq<real>)
    ensures |cs| == |subjects| && forall i :: 0 <= i < |subjects| ==> cs[i] == subjects[i].credit
  {
    seq(|subjects|, i requires 0 <= i < |subjects| => subjects[i].credit)
  }

  function GradePoints(marks: seq<Marks>): (gps: seq<real>)
    ensures |gps| == |marks| && forall i :: 0 <= i < |marks| ==> gps[i] == GradePoint(Total(marks[i]))
  {
    seq(|marks|, i requires 0 <= i < |marks| => GradePoint(Total(marks[i])))
  }

  /** The sum of all credits. */
  function CreditSum(subjects: seq<Subject>): real
  {
    Sum(Credits(subjects))
  }

  /** The calculation: marks are paired with subjects by position. */
  method CalculateSgpa(subjects: seq<Subject>, marks: seq<Marks>) returns (o: Outcome)
    requires |marks| == |subjects|
    ensures o == Sgpa(subjects, marks)
  {
    var totalCredits := 0.0;
    var weightedSum := 0.0;
    var errors: seq<string> := [];
    var i := 0;
    while i < |subjects|
      invariant 0 <= i <= |subjects|
      invariant errors == ErrorsUpTo(subjects, marks, i)
      invariant totalCredits == CreditsUpTo(subjects, marks, i)
      invariant weightedSum == WeightedUpTo(subjects, marks, i)
    {
      var m := marks[i];
      if HasNegative(m) {
        errors := errors + [NegativeMessage(subjects[i].code)];
        i := i + 1;
        continue;
      }
      var total := Total(m);
      var gradePoint := GradePoint(total);
      weightedSum := weightedSum + gradePoint * subjects[i].credit;
      totalCredits := totalCredits + subjects[i].credit;
      i := i + 1;
    }
    if errors != [] {
      o := InvalidMarks(errors);
    } else if totalCredits == 0.0 {
      o := NoCredits;
    } else {
      o := Computed(weightedSum / totalCredits);
    }
  }

  /** The error messages are one per subject with a negative mark, naming it, in
      subject order. */
  lemma {:induction false} ErrorsInOrder(subjects: seq<Subject>, marks: seq<Marks>, n: nat)
    requires |marks| == |subjects| && n <= |subjects|
    ensures var idx := Positions(marks[..n], HasNegative);
            var errors := ErrorsUpTo(subjects, marks, n);
            |errors| == |idx| && forall k :: 0 <= k < |idx| ==> errors[k] == NegativeMessage(subjects[idx[k]].code)
  {
    if n > 0 {
      ErrorsInOrder(subjects, marks, n - 1);
      PositionsSnoc(marks, n - 1, HasNegative);
    }
  }

  /** Without negative marks, the credits total is the sum of all credits. */
  lemma {:induction false} CleanCredits(subjects: seq<Subject>, marks: seq<Marks>, n: nat)
    requires |marks| == |subjects| && n <= |subjects|
    requires forall i :: 0 <= i < n ==> !HasNegative(marks[i])
    ensures CreditsUpTo(subjects, marks, n) == Sum(Credits(subjects)[..n])
  {
    if n > 0 {
      CleanCredits(subjects, marks, n - 1);
      var cs := Credits(subjects);
      assert cs[..n][..n - 1] == cs[..n - 1];
    }
  }

  /** Without negative marks, the weighted sum is the sum of grade point times credit:
      `gps` and `cs` list the grade points and credits of the first `n` subjects. */
  lemma {:induction false} CleanWeighted(subjects: seq<Subject>, marks: seq<Marks>, n: nat, gps: seq<real>, cs: seq<real>)
    requires |marks| == |subjects| && n <= |subjects| && |gps| == n && |cs| == n
    requires forall i :: 0 <= i < n ==> !HasNegative(marks[i])
    requires forall i :: 0 <= i < n ==> gps[i] == GradePoint(Total(marks[i])) && cs[i] == subjects[i].credit
    ensures WeightedUpTo(subjects, marks, n) == Dot(gps, cs)
  {
    if n > 0 {
      CleanWeighted(subjects, marks, n - 1, gps[..n - 1], cs[..n - 1]);
    }
  }

  /** No error messages exactly when no mark is negative. */
  lemma {:induction false} NoErrorsIffClean(subjects: seq<Subject>, marks: seq<Marks>, n: nat)
    requires |marks| == |subjects| && n <= |subjects|
    ensures ErrorsUpTo(subjects, marks, n) == [] <==> forall i :: 0 <= i < n ==> !HasNegative(marks[i])
  {
    if n > 0 {
      NoErrorsIffClean(subjects, marks, n - 1);
    }
  }

  /** The verdict is InvalidMarks exactly when some subject has a negative mark, and
      then every such subject is named; NoCredits exactly when no mark is negative and
      the credits add up to zero. */
  lemma ErrorsName(subjects: seq<Subject>, marks: seq<Marks>)
    requires |marks| == |subjects|
    ensures Sgpa(subjects, marks).InvalidMarks? <==> exists i :: 0 <= i < |subjects| && HasNegative(marks[i])
    ensures Sgpa(subjects, marks).InvalidMarks? ==>
      forall i :: 0 <= i < |subjects| && HasNegative(marks[i])
        ==> NegativeMessage(subjects[i].code) in Sgpa(subjects, marks).errors
    ensures Sgpa(subjects, marks).NoCredits? <==>
      (forall i :: 0 <= i < |subjects| ==> !HasNegative(marks[i])) && CreditSum(subjects) == 0.0
  {
    var n := |subjects|;
    var errors := ErrorsUpTo(subjects, marks, n);
    NoErrorsIffClean(subjects, marks, n);
    if errors != [] {
      ErrorsInOrder(subjects, marks, n);
      assert marks[..n] == marks;
      var idx := Positions(marks, HasNegative);
      forall i | 0 <= i < n && HasNegative(marks[i])
        ensures NegativeMessage(subjects[i].code) in errors
      {
        assert i in idx;
        var k :| 0 <= k < |idx| && idx[k] == i;
        assert errors[k] == NegativeMessage(subjects[i].code);
      }
    } else {
      CleanCredits(subjects, marks, n);
      assert Credits(subjects)[..n] == Credits(subjects);
    }
  }

  /** A subject with a negative mark contributes nothing: its credit can be anything
      at all without changing the outcome. */
  lemma SkippedCreditIrrelevant(subjects: seq<Subject>, marks: seq<Marks>, i: nat, credit: real)
    requires |marks| == |subjects| && i < |subjects|
    requires HasNegative(marks[i])
    ensures Sgpa(subjects[i := subjects[i].(credit := credit)], marks) == Sgpa(subjects, marks)
  {
    SkipsNegative(subjects, marks, i, credit, |subjects|);
  }

  lemma {:induction false} SkipsNegative(subjects: seq<Subject>, marks: seq<Marks>, i: nat, credit: real, n: nat)
    requires |marks| == |subjects| && i < |subjects| && n <= |subjects|
    requires HasNegative(marks[i])
    ensures var subjects' := subjects[i := subjects[i].(credit := credit)];
            && ErrorsUpTo(subjects', marks, n) == ErrorsUpTo(subjects, marks, n)
            && CreditsUpTo(subjects', marks, n) == CreditsUpTo(subjects, marks, n)
            && WeightedUpTo(subjects', marks, n) == WeightedUpTo(subjects, marks, n)
  {
    if n > 0 {
      SkipsNegative(subjects, marks, i, credit, n - 1);
      var subjects' := subjects[i := subjects[i].(credit := credit)];
      assert subjects'[n - 1].code == subjects[n - 1].code;
      assert n - 1 != i ==> subjects'[n - 1] == subjects[n - 1];
    }
  }

  /** Without negative marks and with credits that do not add up to zero, the SGPA is
      the credit-weighted average of the grade points: sum of grade point times credit
      over sum of credits. */
  lemma SgpaIsWeightedAverage(subjects: seq<Subject>, marks: seq<Marks>)
    requires |marks| == |subjects|
    requires forall i :: 0 <= i < |subjects| ==> !HasNegative(marks[i])
    requires CreditSum(subjects) != 0.0
    ensures Sgpa(subjects, marks)
         == Computed(Dot(GradePoints(marks), Credits(subjects)) / Sum(Credits(subjects)))
  {
    var n := |subjects|;
    NoErrorsIffClean(subjects, marks, n);
    CleanCredits(subjects, marks, n);
    CleanWeighted(subjects, marks, n, GradePoints(marks), Credits(subjects));
    assert Credits(subjects)[..n] == Credits(subjects);
  }

  /** `w` lies between `lo` and `hi` times the credits `c`. */
  predicate WeightedBetween(lo: real, hi: real, w: real, c: real)
  {
    lo * c <= w <= hi * c
  }

  /** Every subject that counts has a positive credit and a grade point in [lo, hi]. */
  predicate CountedBetween(subjects: seq<Subject>, marks: seq<Marks>, n: nat, lo: real, hi: real)
    requires |marks| == |subjects| && n <= |subjects|
  {
    forall i :: 0 <= i < n && !HasNegative(marks[i]) ==>
      subjects[i].credit > 0.0 && lo <= GradePoint(Total(marks[i])) <= hi
  }

  /** Adding one credit-weighted grade point in [lo, hi] keeps the weighted sum
      between lo and hi times the credits. */
  lemma BetweenStep(lo: real, hi: real, w: real, total: real, x: real, c: real, w': real, total': real)
    requires WeightedBetween(lo, hi, w, total) && lo <= x <= hi && c > 0.0
    requires w' == w + x * c && total' == total + c
    ensures WeightedBetween(lo, hi, w', total')
  {
    assert (hi - x) * c >= 0.0;
    assert (x - lo) * c >= 0.0;
  }

  /** The weighted sum stays between lo and hi times the credit total. */
  lemma {:induction false} AccumulatorBetween(subjects: seq<Subject>, marks: seq<Marks>, n: nat, lo: real, hi: real)
    requires |marks| == |subjects| && n <= |subjects|
    requires CountedBetween(subjects, marks, n, lo, hi)
    ensures CreditsUpTo(subjects, marks, n) >= 0.0
    ensures WeightedBetween(lo, hi, WeightedUpTo(subjects, marks, n), CreditsUpTo(subjects, marks, n))
  {
    if n > 0 {
      AccumulatorBetween(subjects, marks, n - 1, lo, hi);
      if !HasNegative(marks[n - 1]) {
        BetweenStep(lo, hi, WeightedUpTo(subjects, marks, n - 1), CreditsUpTo(subjects, marks, n - 1),
                    GradePoint(Total(marks[n - 1])), subjects[n - 1].credit,
                    WeightedUpTo(subjects, marks, n), CreditsUpTo(subjects, marks, n));
      }
    }
  }

  /** A weighted sum between lo and hi times positive credits has its quotient in [lo, hi]. */
  lemma QuotientBetween(lo: real, hi: real, w: real, c: real)
    requires c > 0.0 && WeightedBetween(lo, hi, w, c)
    ensures lo <= w / c <= hi
  {
    var q := w / c;
    assert q * c == w;
    assert (hi - q) * c >= 0.0;
    assert (q - lo) * c >= 0.0;
  }

  /** With positive credits, a computed SGPA lies between any lower and any upper bound
      of the grade points that count: between the smallest and the largest of them. */
  lemma SgpaBetweenGradePoints(subjects: seq<Subject>, marks: seq<Marks>, lo: real, hi: real)
    requires |marks| == |subjects|
    requires CountedBetween(subjects, marks, |subjects|, lo, hi)
    ensures Sgpa(subjects, marks).Computed? ==> lo <= Sgpa(subjects, marks).sgpa <= hi
  {
    var n := |subjects|;
    AccumulatorBetween(subjects, marks, n, lo, hi);
    var c := CreditsUpTo(subjects, marks, n);
    if ErrorsUpTo(subjects, marks, n) == [] && c != 0.0 {
      QuotientBetween(lo, hi, WeightedUpTo(subjects, marks, n), c);
    }
  }

  /** With positive credits on the subjects that count, a computed SGPA is in [0, 10]. */
  lemma SgpaInRange(subjects: seq<Subject>, marks: seq<Marks>)
    requires |marks| == |subjects|
    requires forall i :: 0 <= i < |subjects| && !HasNegative(marks[i]) ==> subjects[i].credit > 0.0
    ensures Sgpa(subjects, marks).Computed? ==> 0.0 <= Sgpa(subjects, marks).sgpa <= 10.0
  {
    SgpaBetweenGradePoints(subjects, marks, 0.0, 10.0);
  }

  /** Full marks everywhere give an SGPA of exactly 10 whenever the credits do not add
      up to zero, whatever the individual credits are. */
  lemma FullMarksGiveTen(subjects: seq<Subject>, marks: seq<Marks>)
    requires |marks| == |subjects|
    requires forall i :: 0 <= i < |subjects| ==> !HasNegative(marks[i]) && Total(marks[i]) >= 100
    ensures Sgpa(subjects, marks) == if CreditSum(subjects) == 0.0 then NoCredits else Computed(10.0)
  {
    var n := |subjects|;
    FullMarksWeighted(subjects, marks, n);
    NoErrorsIffClean(subjects, marks, n);
    CleanCredits(subjects, marks, n);
    assert Credits(subjects)[..n] == Credits(subjects);
    var c := CreditsUpTo(subjects, marks, n);
    if c != 0.0 {
      QuotientOfMultiple(10.0, c);
    }
  }

  lemma {:induction false} FullMarksWeighted(subjects: seq<Subject>, marks: seq<Marks>, n: nat)
    requires |marks| == |subjects| && n <= |subjects|
    requires forall i :: 0 <= i < n ==> !HasNegative(marks[i]) && Total(marks[i]) >= 100
    ensures WeightedUpTo(subjects, marks, n) == 10.0 * CreditsUpTo(subjects, marks, n)
  {
    if n > 0 {
      FullMarksWeighted(subjects, marks, n - 1);
    }
  }

  lemma QuotientOfMultiple(k: real, c: real)
    requires c != 0.0
    ensures (k * c) / c == k
  {
  }
}
