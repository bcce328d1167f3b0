/**
 * The grade engine: subject averages and the retake rule, UE averages and
 * validity, semester averages and credit totals, and year progression
 * (helpers of src/contexts/AcademicContext.tsx).
 */
module GradeEngine {
  import opened Wrappers
  import opened Types

  /** A subject passes when its final average reaches this floor. */
  const SubjectPassMark: real := 7.0
  /** A UE passes when its weighted average reaches this mark. */
  const UEPassMark: real := 10.0
  /** Nominal credits of a year (two semesters of 30). */
  const YearTotalCredits: real := 60.0
  /** Validated credits a student needs to move up a year. */
  const ProgressionCredits: real := 48.0

  function Max(a: real, b: real): real
  {
    if a >= b then a else b
  }

  // ---------------------------------------------------------------- subject

  /** 40% interrogation plus 60% devoir, defined only once both are set. */
  function InitialAverage(s: Subject): (r: Option<real>)
    ensures r.Some? <==> s.interrogation.Some? && s.devoir.Some?
  {
    if s.interrogation.None? || s.devoir.None? then None
    else Some(s.interrogation.value * 0.4 + s.devoir.value * 0.6)
  }

  /** The average after the retake rule: a retake only counts below the pass mark. */
  function FinalAverage(s: Subject): (r: Option<real>)
    ensures r.None? <==> InitialAverage(s).None?
    ensures r.Some? ==> r.value >= InitialAverage(s).value
  {
    var initial := InitialAverage(s);
    if initial.None? then None
    else if initial.value < SubjectPassMark then
      if s.rattrapage.Some? then Some(Max(initial.value, s.rattrapage.value)) else initial
    else initial
  }

  predicate IsSubjectValidated(s: Subject)
  {
    FinalAverage(s).Some? && FinalAverage(s).value >= SubjectPassMark
  }

  /** The colour of a subject, as every projection computes it. */
  function SubjectStatus(s: Subject): Status
  {
    var initial := InitialAverage(s);
    var final := FinalAverage(s);
    if final.None? then Warning
    else if final.value < SubjectPassMark then Danger
    else if initial.Some? && initial.value < SubjectPassMark then Warning
    else Success
  }

  /** The initial average is the 40/60 weighted mean of the two regular grades. */
  lemma InitialAverageWeights(s: Subject)
    requires s.interrogation.Some? && s.devoir.Some?
    ensures InitialAverage(s) == Some(0.4 * s.interrogation.value + 0.6 * s.devoir.value)
    ensures Max(s.interrogation.value, s.devoir.value) >= InitialAverage(s).value
    ensures InitialAverage(s).value >= if s.interrogation.value <= s.devoir.value then s.interrogation.value else s.devoir.value
  {
  }

  /** How the final average depends on the initial one and the retake grade. */
  lemma FinalAverageRule(s: Subject)
    ensures (InitialAverage(s).Some? && InitialAverage(s).value >= SubjectPassMark)
      ==> FinalAverage(s) == InitialAverage(s)
    ensures (InitialAverage(s).Some? && InitialAverage(s).value < SubjectPassMark && s.rattrapage.Some?)
      ==> FinalAverage(s) == Some(Max(InitialAverage(s).value, s.rattrapage.value))
    ensures (InitialAverage(s).Some? && InitialAverage(s).value < SubjectPassMark && s.rattrapage.None?)
      ==> FinalAverage(s) == InitialAverage(s)
    ensures s.rattrapage.None? ==> FinalAverage(s) == InitialAverage(s)
  {
  }

  /** Validation in terms of the raw grades: passed outright, or rescued by a retake of at least 7. */
  lemma SubjectValidatedIff(s: Subject)
    ensures IsSubjectValidated(s) <==>
      InitialAverage(s).Some? &&
      (InitialAverage(s).value >= SubjectPassMark || (s.rattrapage.Some? && s.rattrapage.value >= SubjectPassMark))
  {
  }

  /** A retake grade alone never produces an average. */
  lemma RetakeAloneGivesNoAverage(s: Subject)
    requires s.interrogation.None? || s.devoir.None?
    ensures FinalAverage(s).None? && !IsSubjectValidated(s) && SubjectStatus(s) == Warning
  {
  }

  /** Averages stay on the 0..20 scale when the grades do. */
  lemma AveragesInRange(s: Subject)
    requires GradesInRange(s)
    ensures InitialAverage(s).Some? ==> 0.0 <= InitialAverage(s).value <= 20.0
    ensures FinalAverage(s).Some? ==> 0.0 <= FinalAverage(s).value <= 20.0
  {
  }

  /** What each status means in terms of the averages. */
  lemma StatusMeaning(s: Subject)
    ensures SubjectStatus(s) == Success <==> InitialAverage(s).Some? && InitialAverage(s).value >= SubjectPassMark
    ensures SubjectStatus(s) == Danger <==> FinalAverage(s).Some? && FinalAverage(s).value < SubjectPassMark
    ensures SubjectStatus(s) == Warning <==>
      FinalAverage(s).None? ||
      (FinalAverage(s).value >= SubjectPassMark && InitialAverage(s).value < SubjectPassMark)
    ensures IsSubjectValidated(s) <==> SubjectStatus(s) != Danger && FinalAverage(s).Some?
  {
  }

  // --------------------------------------------------------------------- UE

  /** Σ final·coefficient over the subjects that have a final average (the loop's running total). */
  function CompletedPoints(subjects: seq<Subject>): real
  {
    if |subjects| == 0 then 0.0
    else
      var last := subjects[|subjects| - 1];
      CompletedPoints(subjects[..|subjects| - 1])
        + (if FinalAverage(last).Some? then FinalAverage(last).value * last.coefficient else 0.0)
  }

  /** Σ coefficient over the subjects that have a final average. */
  function CompletedCoefficients(subjects: seq<Subject>): real
  {
    if |subjects| == 0 then 0.0
    else
      var last := subjects[|subjects| - 1];
      CompletedCoefficients(subjects[..|subjects| - 1])
        + (if FinalAverage(last).Some? then last.coefficient else 0.0)
  }

  /** Σ coefficient over all subjects. */
  function CoefficientSum(subjects: seq<Subject>): real
  {
    if |subjects| == 0 then 0.0
    else CoefficientSum(subjects[..|subjects| - 1]) + subjects[|subjects| - 1].coefficient
  }

  predicate HasIncompleteSubject(subjects: seq<Subject>)
  {
    exists i :: 0 <= i < |subjects| && FinalAverage(subjects[i]).None?
  }

  predicate PositiveCoefficients(subjects: seq<Subject>)
  {
    forall i :: 0 <= i < |subjects| ==> subjects[i].coefficient > 0.0
  }

  /** No two subjects of the UE share an id. */
  predicate DistinctSubjectIds(subjects: seq<Subject>)
  {
    forall i, j :: 0 <= i < j < |subjects| ==> subjects[i].id != subjects[j].id
  }

  /** The coefficient-weighted mean of final averages; absent for an empty or incomplete UE. */
  function UEAverage(ue: UE): Option<real>
  {
    if |ue.subjects| == 0 then None
    else if CompletedCoefficients(ue.subjects) == 0.0 || HasIncompleteSubject(ue.subjects) then None
    else Some(CompletedPoints(ue.subjects) / CompletedCoefficients(ue.subjects))
  }

  /** A UE passes when it has subjects, every subject passes, and the average reaches 10. */
  predicate IsUEValidated(ue: UE)
  {
    && |ue.subjects| > 0
    && (forall i :: 0 <= i < |ue.subjects| ==> IsSubjectValidated(ue.subjects[i]))
    && UEAverage(ue).Some? && UEAverage(ue).value >= UEPassMark
  }

  /** When no subject is incomplete, the completed sums cover every subject. */
  lemma {:induction false} CompleteCoefficientsAreAll(subjects: seq<Subject>)
    requires !HasIncompleteSubject(subjects)
    ensures CompletedCoefficients(subjects) == CoefficientSum(subjects)
  {
    if |subjects| > 0 {
      var init := subjects[..|subjects| - 1];
      assert !HasIncompleteSubject(init) by {
        forall i | 0 <= i < |init| ensures FinalAverage(init[i]).Some? {
          assert init[i] == subjects[i];
        }
      }
      CompleteCoefficientsAreAll(init);
    }
  }

  /** Positive coefficients sum to a positive total. */
  lemma {:induction false} CoefficientSumPositive(subjects: seq<Subject>)
    requires |subjects| > 0 && PositiveCoefficients(subjects)
    ensures CoefficientSum(subjects) > 0.0
  {
    var init := subjects[..|subjects| - 1];
    if |init| > 0 {
      assert PositiveCoefficients(init) by {
        forall i | 0 <= i < |init| ensures init[i].coefficient > 0.0 {
          assert init[i] == subjects[i];
        }
      }
      CoefficientSumPositive(init);
    }
  }

  /**
   * The UE average exists exactly when the UE has subjects, each has a final
   * average and the coefficients do not cancel out; it is then Σ(final·coef)/Σcoef.
   * A missing grade blocks the average instead of counting as zero.
   */
  lemma UEAverageDefined(ue: UE)
    ensures UEAverage(ue).Some? <==>
      |ue.subjects| > 0 && !HasIncompleteSubject(ue.subjects) && CoefficientSum(ue.subjects) != 0.0
    ensures UEAverage(ue).Some? ==>
      UEAverage(ue).value == CompletedPoints(ue.subjects) / CoefficientSum(ue.subjects)
  {
    if !HasIncompleteSubject(ue.subjects) {
      CompleteCoefficientsAreAll(ue.subjects);
    }
  }

  /** With positive coefficients, only missing grades (or no subjects) leave the average undefined. */
  lemma UEAverageWithPositiveCoefficients(ue: UE)
    requires PositiveCoefficients(ue.subjects)
    ensures UEAverage(ue).Some? <==> |ue.subjects| > 0 && !HasIncompleteSubject(ue.subjects)
  {
    UEAverageDefined(ue);
    if |ue.subjects| > 0 {
      CoefficientSumPositive(ue.subjects);
    }
  }

  /** If every final average lies in [lo, hi], so does the weighted sum divided by the weights. */
  lemma {:induction false} CompletedPointsBounds(subjects: seq<Subject>, lo: real, hi: real)
    requires PositiveCoefficients(subjects)
    requires forall i :: 0 <= i < |subjects| ==>
      FinalAverage(subjects[i]).Some? && lo <= FinalAverage(subjects[i]).value <= hi
    ensures lo * CompletedCoefficients(subjects) <= CompletedPoints(subjects) <= hi * CompletedCoefficients(subjects)
  {
    if |subjects| == 0 {
      assert lo * 0.0 == 0.0 == hi * 0.0;
    } else {
      var init := subjects[..|subjects| - 1];
      assert forall i :: 0 <= i < |init| ==> init[i] == subjects[i];
      CompletedPointsBounds(init, lo, hi);
      CompletedPointsStep(subjects, lo, hi);
    }
  }

  /** The inductive step of `CompletedPointsBounds`: one more completed subject within [lo, hi]. */
  lemma CompletedPointsStep(subjects: seq<Subject>, lo: real, hi: real)
    requires |subjects| > 0
    requires var init := subjects[..|subjects| - 1];
      lo * CompletedCoefficients(init) <= CompletedPoints(init) <= hi * CompletedCoefficients(init)
    requires var last := subjects[|subjects| - 1];
      last.coefficient > 0.0 && FinalAverage(last).Some? && lo <= FinalAverage(last).value <= hi
    ensures lo * CompletedCoefficients(subjects) <= CompletedPoints(subjects) <= hi * CompletedCoefficients(subjects)
  {
    var init := subjects[..|subjects| - 1];
    var last := subjects[|subjects| - 1];
    var p0, c0 := CompletedPoints(init), CompletedCoefficients(init);
    var f, c := FinalAverage(last).value, last.coefficient;
    assert CompletedPoints(subjects) == p0 + f * c;
    assert CompletedCoefficients(subjects) == c0 + c;
    WeightedStep(p0, c0, f, c, lo, hi);
  }

  /** Adding one weighted value in [lo, hi] keeps a weighted sum within the bounds. */
  lemma WeightedStep(p0: real, c0: real, f: real, c: real, lo: real, hi: real)
    requires lo * c0 <= p0 <= hi * c0 && lo <= f <= hi && c > 0.0
    ensures lo * (c0 + c) <= p0 + f * c <= hi * (c0 + c)
  {
    assert lo * c <= f * c <= hi * c;
  }

  /** Dividing a weighted sum by its positive weight keeps the bounds. */
  lemma MeanBetween(p: real, c: real, lo: real, hi: real)
    requires c > 0.0 && lo * c <= p <= hi * c
    ensures lo <= p / c <= hi
  {
    var m := p / c;
    assert m * c == p;
  }

  /** The UE average is a mean: it lies between the lowest and highest final averages. */
  lemma UEAverageBetween(ue: UE, lo: real, hi: real)
    requires PositiveCoefficients(ue.subjects) && |ue.subjects| > 0
    requires forall i :: 0 <= i < |ue.subjects| ==>
      FinalAverage(ue.subjects[i]).Some? && lo <= FinalAverage(ue.subjects[i]).value <= hi
    ensures UEAverage(ue).Some? && lo <= UEAverage(ue).value <= hi
  {
    UEAverageWithPositiveCoefficients(ue);
    CompletedPointsBounds(ue.subjects, lo, hi);
    var c := CompletedCoefficients(ue.subjects);
    var p := CompletedPoints(ue.subjects);
    assert c > 0.0 by {
      CompleteCoefficientsAreAll(ue.subjects);
      CoefficientSumPositive(ue.subjects);
    }
    MeanBetween(p, c, lo, hi);
  }

  /** A valid UE has a complete average and every subject passed. */
  lemma ValidUEIsComplete(ue: UE)
    requires IsUEValidated(ue)
    ensures !HasIncompleteSubject(ue.subjects)
    ensures UEAverage(ue).Some? && UEAverage(ue).value >= UEPassMark
  {
  }

  /** A UE without subjects is never valid. */
  lemma EmptyUEIsNotValid(ue: UE)
    requires |ue.subjects| == 0
    ensures UEAverage(ue).None? && !IsUEValidated(ue)
  {
  }

  /** All subjects at 8: every subject passes, but the average of 8 fails the UE. */
  lemma PassingSubjectsDoNotSuffice()
    ensures var ue := UE("u", "UE", 6.0, "s", [
      Subject("a", "A", 1.0, "u", Some(8.0), Some(8.0), None),
      Subject("b", "B", 1.0, "u", Some(8.0), Some(8.0), None)]);
      (forall i :: 0 <= i < |ue.subjects| ==> IsSubjectValidated(ue.subjects[i]))
      && UEAverage(ue) == Some(8.0)
      && !IsUEValidated(ue)
  {
    var a := Subject("a", "A", 1.0, "u", Some(8.0), Some(8.0), None);
    var b := Subject("b", "B", 1.0, "u", Some(8.0), Some(8.0), None);
    assert FinalAverage(a) == Some(8.0);
    assert FinalAverage(b) == Some(8.0);
    var ue := UE("u", "UE", 6.0, "s", [a, b]);
    assert ue.subjects[..1] == [a];
    assert [a][..0] == [];
    assert CompletedPoints([a]) == 8.0;
    assert CompletedCoefficients([a]) == 1.0;
    assert CompletedPoints(ue.subjects) == 16.0;
    assert CompletedCoefficients(ue.subjects) == 2.0;
  }

  /** Finals 20 and 5: the average of 12.5 reaches 10, but the failed subject blocks the UE. */
  lemma HighAverageDoesNotSuffice()
    ensures var ue := UE("u", "UE", 6.0, "s", [
      Subject("a", "A", 1.0, "u", Some(20.0), Some(20.0), None),
      Subject("b", "B", 1.0, "u", Some(5.0), Some(5.0), None)]);
      UEAverage(ue) == Some(12.5)
      && !IsSubjectValidated(ue.subjects[1])
      && !IsUEValidated(ue)
  {
    var a := Subject("a", "A", 1.0, "u", Some(20.0), Some(20.0), None);
    var b := Subject("b", "B", 1.0, "u", Some(5.0), Some(5.0), None);
    assert FinalAverage(a) == Some(20.0);
    assert FinalAverage(b) == Some(5.0);
    var ue := UE("u", "UE", 6.0, "s", [a, b]);
    assert ue.subjects[..1] == [a];
    assert [a][..0] == [];
    assert CompletedPoints([a]) == 20.0;
    assert CompletedCoefficients([a]) == 1.0;
    assert CompletedPoints(ue.subjects) == 25.0;
    assert CompletedCoefficients(ue.subjects) == 2.0;
  }

  /** The UE average with its accumulator loop. */
  method CalculateUEAverage(ue: UE) returns (average: Option<real>)
    ensures average == UEAverage(ue)
  {
    if |ue.subjects| == 0 {
      return None;
    }
    var totalWeightedAverage := 0.0;
    var totalCoefficients := 0.0;
    var hasIncompleteSubject := false;
    var i := 0;
    while i < |ue.subjects|
      invariant 0 <= i <= |ue.subjects|
      invariant totalWeightedAverage == CompletedPoints(ue.subjects[..i])
      invariant totalCoefficients == CompletedCoefficients(ue.subjects[..i])
      invariant hasIncompleteSubject <==> exists j :: 0 <= j < i && FinalAverage(ue.subjects[j]).None?
    {
      var subject := ue.subjects[i];
      var finalAverage := FinalAverage(subject);
      assert ue.subjects[..i + 1][..i] == ue.subjects[..i];
      i := i + 1;
      if finalAverage.None? {
        hasIncompleteSubject := true;
        continue;
      }
      totalWeightedAverage := totalWeightedAverage + finalAverage.value * subject.coefficient;
      totalCoefficients := totalCoefficients + subject.coefficient;
    }
    assert ue.subjects[..i] == ue.subjects;
    if totalCoefficients == 0.0 || hasIncompleteSubject {
      return None;
    }
    return Some(totalWeightedAverage / totalCoefficients);
  }

  // --------------------------------------------------------------- semester

  /** Σ average·credits over the UEs that have an average. */
  function CompletedUEPoints(ues: seq<UE>): real
  {
    if |ues| == 0 then 0.0
    else
      var last := ues[|ues| - 1];
      CompletedUEPoints(ues[..|ues| - 1])
        + (if UEAverage(last).Some? then UEAverage(last).value * last.credits else 0.0)
  }

  /** Σ credits over the UEs that have an average. */
  function CompletedUECredits(ues: seq<UE>): real
  {
    if |ues| == 0 then 0.0
    else
      var last := ues[|ues| - 1];
      CompletedUECredits(ues[..|ues| - 1]) + (if UEAverage(last).Some? then last.credits else 0.0)
  }

  predicate HasIncompleteUE(ues: seq<UE>)
  {
    exists i :: 0 <= i < |ues| && UEAverage(ues[i]).None?
  }

  /** Σ credits over all UEs (the semester's total). */
  function TotalCredits(ues: seq<UE>): real
  {
    if |ues| == 0 then 0.0 else TotalCredits(ues[..|ues| - 1]) + ues[|ues| - 1].credits
  }

  /** Σ credits over the valid UEs only (filter, then sum). */
  function ValidatedCredits(ues: seq<UE>): real
  {
    if |ues| == 0 then 0.0
    else
      var last := ues[|ues| - 1];
      ValidatedCredits(ues[..|ues| - 1]) + (if IsUEValidated(last) then last.credits else 0.0)
  }

  predicate NonNegativeCredits(ues: seq<UE>)
  {
    forall i :: 0 <= i < |ues| ==> ues[i].credits >= 0.0
  }

  /** The credit-weighted mean of UE averages; absent for an empty or incomplete semester. */
  function SemesterAverage(semester: Semester): Option<real>
  {
    if |semester.ues| == 0 then None
    else if CompletedUECredits(semester.ues) == 0.0 || HasIncompleteUE(semester.ues) then None
    else Some(CompletedUEPoints(semester.ues) / CompletedUECredits(semester.ues))
  }

  /** A UE contributes all of its credits when valid and none otherwise, so validated ≤ total. */
  lemma {:induction false} ValidatedCreditsBounded(ues: seq<UE>)
    requires NonNegativeCredits(ues)
    ensures 0.0 <= ValidatedCredits(ues) <= TotalCredits(ues)
    ensures (forall i :: 0 <= i < |ues| ==> IsUEValidated(ues[i])) ==> ValidatedCredits(ues) == TotalCredits(ues)
    ensures (forall i :: 0 <= i < |ues| ==> !IsUEValidated(ues[i])) ==> ValidatedCredits(ues) == 0.0
  {
    if |ues| > 0 {
      var init := ues[..|ues| - 1];
      assert forall i :: 0 <= i < |init| ==> init[i] == ues[i];
      ValidatedCreditsBounded(init);
    }
  }

  /**
   * The semester average exists exactly when the semester has UEs, each has an
   * average and the credits do not cancel out; it is then Σ(avg·credits)/Σcredits.
   */
  lemma {:induction false} SemesterAverageDefined(semester: Semester)
    ensures SemesterAverage(semester).Some? <==>
      |semester.ues| > 0 && !HasIncompleteUE(semester.ues) && TotalCredits(semester.ues) != 0.0
    ensures HasIncompleteUE(semester.ues) ==> SemesterAverage(semester).None?
    ensures |semester.ues| == 0 ==> SemesterAverage(semester).None?
    ensures !HasIncompleteUE(semester.ues) ==> CompletedUECredits(semester.ues) == TotalCredits(semester.ues)
    ensures SemesterAverage(semester).Some? ==>
      SemesterAverage(semester).value == CompletedUEPoints(semester.ues) / TotalCredits(semester.ues)
  {
    CompleteCreditsAreAll(semester.ues);
  }

  lemma {:induction false} CompleteCreditsAreAll(ues: seq<UE>)
    ensures !HasIncompleteUE(ues) ==> CompletedUECredits(ues) == TotalCredits(ues)
  {
    if |ues| > 0 && !HasIncompleteUE(ues) {
      var init := ues[..|ues| - 1];
      assert !HasIncompleteUE(init) by {
        forall i | 0 <= i < |init| ensures UEAverage(init[i]).Some? {
          assert init[i] == ues[i];
        }
      }
      CompleteCreditsAreAll(init);
    }
  }

  /** The semester average with its accumulator loop. */
  method CalculateSemesterAverage(semester: Semester) returns (average: Option<real>)
    ensures average == SemesterAverage(semester)
  {
    if |semester.ues| == 0 {
      return None;
    }
    var totalWeightedAverage := 0.0;
    var totalCredits := 0.0;
    var hasIncompleteUE := false;
    var i := 0;
    while i < |semester.ues|
      invariant 0 <= i <= |semester.ues|
      invariant totalWeightedAverage == CompletedUEPoints(semester.ues[..i])
      invariant totalCredits == CompletedUECredits(semester.ues[..i])
      invariant hasIncompleteUE <==> exists j :: 0 <= j < i && UEAverage(semester.ues[j]).None?
    {
      var ue := semester.ues[i];
      var ueAverage := CalculateUEAverage(ue);
      assert semester.ues[..i + 1][..i] == semester.ues[..i];
      i := i + 1;
      if ueAverage.None? {
        hasIncompleteUE := true;
        continue;
      }
      totalWeightedAverage := totalWeightedAverage + ueAverage.value * ue.credits;
      totalCredits := totalCredits + ue.credits;
    }
    assert semester.ues[..i] == semester.ues;
    if totalCredits == 0.0 || hasIncompleteUE {
      return None;
    }
    return Some(totalWeightedAverage / totalCredits);
  }

  // ------------------------------------------------------------------- year

  /** Σ of the semesters' validated credits. */
  function YearValidatedCredits(semesters: seq<Semester>): real
  {
    if |semesters| == 0 then 0.0
    else YearValidatedCredits(semesters[..|semesters| - 1]) + ValidatedCredits(semesters[|semesters| - 1].ues)
  }

  /** Σ of the semesters' total credits. */
  function YearEnteredCredits(semesters: seq<Semester>): real
  {
    if |semesters| == 0 then 0.0
    else YearEnteredCredits(semesters[..|semesters| - 1]) + TotalCredits(semesters[|semesters| - 1].ues)
  }

  predicate CanProgress(year: AcademicYear)
  {
    YearValidatedCredits(year.semesters) >= ProgressionCredits
  }

  /** A year's validated credits never exceed the credits entered in it. */
  lemma {:induction false} YearValidatedCreditsBounded(semesters: seq<Semester>)
    requires forall i :: 0 <= i < |semesters| ==> NonNegativeCredits(semesters[i].ues)
    ensures 0.0 <= YearValidatedCredits(semesters) <= YearEnteredCredits(semesters)
  {
    if |semesters| > 0 {
      var init := semesters[..|semesters| - 1];
      assert forall i :: 0 <= i < |init| ==> init[i] == semesters[i];
      YearValidatedCreditsBounded(init);
      ValidatedCreditsBounded(semesters[|semesters| - 1].ues);
    }
  }
}
