/**
 * The read-only `*WithCalculations` projections: every raw field is kept and
 * the derived averages, statuses and credit totals are attached, bottom-up
 * (src/contexts/AcademicContext.tsx, getXWithCalculations).
 */
module Projections {
  import opened Wrappers
  import opened Types
  import opened GradeEngine

  function SubjectWithCalculationsOf(s: Subject): SubjectWithCalculations
  {
    SubjectWithCalculations(
      s.id, s.name, s.coefficient, s.ueId, s.interrogation, s.devoir, s.rattrapage,
      InitialAverage(s), FinalAverage(s), SubjectStatus(s))
  }

  /** Every subject decorated in order: its raw fields kept, its averages and status from the engine. */
  function SubjectViews(subjects: seq<Subject>): (vs: seq<SubjectWithCalculations>)
    ensures |vs| == |subjects|
    ensures forall i :: 0 <= i < |subjects| ==>
      && RawSubject(vs[i]) == subjects[i]
      && vs[i].initialAverage == InitialAverage(subjects[i])
      && vs[i].finalAverage == FinalAverage(subjects[i])
      && vs[i].status == SubjectStatus(subjects[i])
  {
    seq(|subjects|, i requires 0 <= i < |subjects| => SubjectWithCalculationsOf(subjects[i]))
  }

  function UEWithCalculationsOf(ue: UE): UEWithCalculations
  {
    UEWithCalculations(ue.id, ue.name, ue.credits, ue.semesterId,
      UEAverage(ue), IsUEValidated(ue), SubjectViews(ue.subjects))
  }

  /** Every UE decorated in order: its raw fields kept, its average and validity from the engine. */
  function UEViews(ues: seq<UE>): (vs: seq<UEWithCalculations>)
    ensures |vs| == |ues|
    ensures forall i :: 0 <= i < |ues| ==>
      && RawUE(vs[i]) == ues[i]
      && vs[i].average == UEAverage(ues[i])
      && vs[i].isValid == IsUEValidated(ues[i])
      && vs[i].subjects == SubjectViews(ues[i].subjects)
  {
    EveryUEViewKeepsRawFields(ues);
    seq(|ues|, i requires 0 <= i < |ues| => UEWithCalculationsOf(ues[i]))
  }

  /** Σ credits of decorated UEs (the semester projection's total). */
  function ViewCredits(views: seq<UEWithCalculations>): real
  {
    if |views| == 0 then 0.0 else ViewCredits(views[..|views| - 1]) + views[|views| - 1].credits
  }

  /** Σ credits of the decorated UEs marked valid. */
  function ViewValidatedCredits(views: seq<UEWithCalculations>): real
  {
    if |views| == 0 then 0.0
    else
      var last := views[|views| - 1];
      ViewValidatedCredits(views[..|views| - 1]) + (if last.isValid then last.credits else 0.0)
  }

  /** The semester projection: credits are summed over the decorated UEs. */
  function SemesterWithCalculationsOf(semester: Semester): SemesterWithCalculations
  {
    var ues := UEViews(semester.ues);
    SemesterWithCalculations(semester.id, semester.title, semester.academicYearId,
      SemesterAverage(semester), ViewCredits(ues), ViewValidatedCredits(ues), ues)
  }

  /** A semester as the year projection decorates it: credits are summed over the raw UEs. */
  function YearSemesterView(semester: Semester): SemesterWithCalculations
  {
    SemesterWithCalculations(semester.id, semester.title, semester.academicYearId,
      SemesterAverage(semester), TotalCredits(semester.ues), ValidatedCredits(semester.ues),
      UEViews(semester.ues))
  }

  /** Every semester decorated in order, as the year projection does it. */
  function YearSemesterViews(semesters: seq<Semester>): (vs: seq<SemesterWithCalculations>)
    ensures |vs| == |semesters|
    ensures forall i :: 0 <= i < |semesters| ==>
      && RawSemester(vs[i]) == semesters[i]
      && vs[i].average == SemesterAverage(semesters[i])
      && vs[i].totalCredits == TotalCredits(semesters[i].ues)
      && vs[i].validatedCredits == ValidatedCredits(semesters[i].ues)
      && vs[i].ues == UEViews(semesters[i].ues)
  {
    EverySemesterViewKeepsRawFields(semesters);
    seq(|semesters|, i requires 0 <= i < |semesters| => YearSemesterView(semesters[i]))
  }

  /** Σ validated credits of decorated semesters. */
  function SemesterViewsValidated(views: seq<SemesterWithCalculations>): real
  {
    if |views| == 0 then 0.0
    else SemesterViewsValidated(views[..|views| - 1]) + views[|views| - 1].validatedCredits
  }

  function AcademicYearWithCalculationsOf(year: AcademicYear): AcademicYearWithCalculations
  {
    var semesters := YearSemesterViews(year.semesters);
    var validatedCredits := SemesterViewsValidated(semesters);
    AcademicYearWithCalculations(year.id, year.title, year.userId,
      YearTotalCredits, validatedCredits, validatedCredits >= ProgressionCredits, semesters)
  }

  // ------------------------------------------------- forgetting the derived fields

  function RawUE(v: UEWithCalculations): UE
  {
    UE(v.id, v.name, v.credits, v.semesterId,
      seq(|v.subjects|, i requires 0 <= i < |v.subjects| => RawSubject(v.subjects[i])))
  }

  function RawSemester(v: SemesterWithCalculations): Semester
  {
    Semester(v.id, v.title, v.academicYearId, seq(|v.ues| , i requires 0 <= i < |v.ues| => RawUE(v.ues[i])))
  }

  function RawAcademicYear(v: AcademicYearWithCalculations): AcademicYear
  {
    AcademicYear(v.id, v.title, v.userId,
      seq(|v.semesters|, i requires 0 <= i < |v.semesters| => RawSemester(v.semesters[i])))
  }

  /** A decorated subject keeps every raw field; its derived fields follow the grade rules. */
  lemma SubjectViewKeepsRawFields(s: Subject)
    ensures RawSubject(SubjectWithCalculationsOf(s)) == s
    ensures var v := SubjectWithCalculationsOf(s);
      && (v.finalAverage.None? <==> v.initialAverage.None?)
      && (v.finalAverage.Some? ==> v.finalAverage.value >= v.initialAverage.value)
      && (v.status == Danger <==> v.finalAverage.Some? && v.finalAverage.value < SubjectPassMark)
  {
    StatusMeaning(s);
  }

  lemma UEViewKeepsRawFields(ue: UE)
    ensures RawUE(UEWithCalculationsOf(ue)) == ue
  {
    var v := UEWithCalculationsOf(ue);
    assert RawUE(v).subjects == ue.subjects by {
      forall i | 0 <= i < |ue.subjects| ensures RawUE(v).subjects[i] == ue.subjects[i] {
        SubjectViewKeepsRawFields(ue.subjects[i]);
      }
    }
  }

  lemma SemesterViewKeepsRawFields(semester: Semester)
    ensures RawSemester(SemesterWithCalculationsOf(semester)) == semester
    ensures RawSemester(YearSemesterView(semester)) == semester
  {
    var v := SemesterWithCalculationsOf(semester);
    assert RawSemester(v).ues == semester.ues by {
      forall i | 0 <= i < |semester.ues| ensures RawSemester(v).ues[i] == semester.ues[i] {
        UEViewKeepsRawFields(semester.ues[i]);
      }
    }
    assert RawSemester(YearSemesterView(semester)).ues == RawSemester(v).ues;
  }

  lemma YearViewKeepsRawFields(year: AcademicYear)
    ensures RawAcademicYear(AcademicYearWithCalculationsOf(year)) == year
  {
    var v := AcademicYearWithCalculationsOf(year);
    assert RawAcademicYear(v).semesters == year.semesters by {
      forall i | 0 <= i < |year.semesters| ensures RawAcademicYear(v).semesters[i] == year.semesters[i] {
        SemesterViewKeepsRawFields(year.semesters[i]);
      }
    }
  }

  lemma EveryUEViewKeepsRawFields(ues: seq<UE>)
    ensures forall i :: 0 <= i < |ues| ==> RawUE(UEWithCalculationsOf(ues[i])) == ues[i]
  {
    forall i | 0 <= i < |ues| ensures RawUE(UEWithCalculationsOf(ues[i])) == ues[i] {
      UEViewKeepsRawFields(ues[i]);
    }
  }

  lemma EverySemesterViewKeepsRawFields(semesters: seq<Semester>)
    ensures forall i :: 0 <= i < |semesters| ==> RawSemester(YearSemesterView(semesters[i])) == semesters[i]
  {
    forall i | 0 <= i < |semesters| ensures RawSemester(YearSemesterView(semesters[i])) == semesters[i] {
      SemesterViewKeepsRawFields(semesters[i]);
    }
  }

  /** Summing over decorated UEs gives the same credit totals as summing over the raw ones. */
  lemma {:induction false} ViewCreditsAgree(ues: seq<UE>)
    ensures ViewCredits(UEViews(ues)) == TotalCredits(ues)
    ensures ViewValidatedCredits(UEViews(ues)) == ValidatedCredits(ues)
  {
    if |ues| > 0 {
      var init := ues[..|ues| - 1];
      assert UEViews(ues)[..|ues| - 1] == UEViews(init);
      ViewCreditsAgree(init);
    }
  }

  /** The semester and year projections decorate a semester identically. */
  lemma ProjectionsAgreeOnSemesters(semester: Semester)
    ensures YearSemesterView(semester) == SemesterWithCalculationsOf(semester)
  {
    ViewCreditsAgree(semester.ues);
  }

  lemma {:induction false} SemesterViewsValidatedIsYearCredits(semesters: seq<Semester>)
    ensures SemesterViewsValidated(YearSemesterViews(semesters)) == YearValidatedCredits(semesters)
  {
    if |semesters| > 0 {
      var init := semesters[..|semesters| - 1];
      assert YearSemesterViews(semesters)[..|semesters| - 1] == YearSemesterViews(init);
      SemesterViewsValidatedIsYearCredits(init);
    }
  }

  /**
   * The year projection: 60 nominal credits, validated credits summed over its
   * semesters (never more than the credits entered), and progression iff at least 48.
   */
  lemma YearViewCredits(year: AcademicYear)
    ensures var v := AcademicYearWithCalculationsOf(year);
      && v.totalCredits == 60.0
      && v.validatedCredits == YearValidatedCredits(year.semesters)
      && (v.canProgress <==> v.validatedCredits >= 48.0)
      && (v.canProgress <==> CanProgress(year))
    ensures (forall i :: 0 <= i < |year.semesters| ==> NonNegativeCredits(year.semesters[i].ues)) ==>
      AcademicYearWithCalculationsOf(year).validatedCredits <= YearEnteredCredits(year.semesters)
  {
    SemesterViewsValidatedIsYearCredits(year.semesters);
    if forall i :: 0 <= i < |year.semesters| ==> NonNegativeCredits(year.semesters[i].ues) {
      YearValidatedCreditsBounded(year.semesters);
    }
  }

  /** A semester's validated credits never exceed its total credits. */
  lemma SemesterViewCredits(semester: Semester)
    requires NonNegativeCredits(semester.ues)
    ensures var v := SemesterWithCalculationsOf(semester);
      0.0 <= v.validatedCredits <= v.totalCredits && v.totalCredits == TotalCredits(semester.ues)
  {
    ViewCreditsAgree(semester.ues);
    ValidatedCreditsBounded(semester.ues);
  }

  /** Every projection decorates a given subject in the same way. */
  lemma SubjectDecoratedAlike(year: AcademicYear, i: nat, j: nat, k: nat)
    requires i < |year.semesters| && j < |year.semesters[i].ues| && k < |year.semesters[i].ues[j].subjects|
    ensures var s := year.semesters[i].ues[j].subjects[k];
      && AcademicYearWithCalculationsOf(year).semesters[i].ues[j].subjects[k] == SubjectWithCalculationsOf(s)
      && SemesterWithCalculationsOf(year.semesters[i]).ues[j].subjects[k] == SubjectWithCalculationsOf(s)
      && UEWithCalculationsOf(year.semesters[i].ues[j]).subjects[k] == SubjectWithCalculationsOf(s)
  {
  }
}
