/**
 * The "what if" page: it copies a UE's current averages into editable grades,
 * lets the student change them within 0..20 and judges the UE with the
 * changed grades (src/pages/Simulations.tsx).
 */
module SimulationsPage {
  import opened Wrappers
  import opened Types
  import opened GradeEngine
  import opened Projections
  import opened AcademicTree
  import Store

  /** Which of the three messages the verdict carries. */
  datatype Outcome = MissingGrade | GradeBelowSeven | AverageComputed

  /**
   * The verdict shown under the simulator; `average` is None when no average
   * was computed or when the division gave no finite number.
   */
  datatype SimulationVerdict = SimulationVerdict(isValid: bool, average: Option<real>, outcome: Outcome)

  // ------------------------------------------------------------ seeding

  /** A subject starts at its final average, else its initial average, else 0. */
  function SeedValue(v: SubjectWithCalculations): real
  {
    if v.finalAverage.Some? then v.finalAverage.value
    else if v.initialAverage.Some? then v.initialAverage.value
    else 0.0
  }

  /** The grades the page starts from: one entry per subject id, a later subject overriding an earlier one. */
  function SeedGrades(subjects: seq<SubjectWithCalculations>): (m: map<Id, real>)
    ensures forall id :: id in m <==> exists i :: 0 <= i < |subjects| && subjects[i].id == id
  {
    if |subjects| == 0 then map[]
    else
      var last := subjects[|subjects| - 1];
      var m0 := SeedGrades(subjects[..|subjects| - 1]);
      assert forall i :: 0 <= i < |subjects| - 1 ==> subjects[..|subjects| - 1][i] == subjects[i];
      m0[last.id := SeedValue(last)]
  }

  // --------------------------------------------------------- judging

  predicate AllGraded(subjects: seq<SubjectWithCalculations>, grades: map<Id, real>)
  {
    forall i :: 0 <= i < |subjects| ==> subjects[i].id in grades
  }

  predicate AllAtLeastPassMark(subjects: seq<SubjectWithCalculations>, grades: map<Id, real>)
    requires AllGraded(subjects, grades)
  {
    forall i :: 0 <= i < |subjects| ==> grades[subjects[i].id] >= SubjectPassMark
  }

  /** Σ grade·coefficient over the subjects. */
  function WeightedGrades(subjects: seq<SubjectWithCalculations>, grades: map<Id, real>): real
    requires AllGraded(subjects, grades)
  {
    if |subjects| == 0 then 0.0
    else
      var last := subjects[|subjects| - 1];
      WeightedGrades(subjects[..|subjects| - 1], grades) + grades[last.id] * last.coefficient
  }

  /** Σ coefficient over the subjects. */
  function Coefficients(subjects: seq<SubjectWithCalculations>): real
  {
    if |subjects| == 0 then 0.0
    else Coefficients(subjects[..|subjects| - 1]) + subjects[|subjects| - 1].coefficient
  }

  /**
   * The judgement of `runSimulation`: a missing grade or a grade below 7 fails
   * without an average; otherwise the weighted mean must reach 10. A zero
   * coefficient sum gives no finite mean, and only a positive numerator
   * (an infinite mean) then passes.
   */
  function EvaluateSimulation(subjects: seq<SubjectWithCalculations>, grades: map<Id, real>): SimulationVerdict
  {
    if !AllGraded(subjects, grades) then SimulationVerdict(false, None, MissingGrade)
    else if !AllAtLeastPassMark(subjects, grades) then SimulationVerdict(false, None, GradeBelowSeven)
    else
      var w, c := WeightedGrades(subjects, grades), Coefficients(subjects);
      if c == 0.0 then SimulationVerdict(w > 0.0, None, AverageComputed)
      else SimulationVerdict(w / c >= UEPassMark, Some(w / c), AverageComputed)
  }

  predicate WithinScale(grades: map<Id, real>)
  {
    forall id :: id in grades ==> 0.0 <= grades[id] <= 20.0
  }

  /** The first `every` of `runSimulation`: does each subject have a grade? */
  method EveryGraded(subjects: seq<SubjectWithCalculations>, grades: map<Id, real>) returns (b: bool)
    ensures b <==> AllGraded(subjects, grades)
  {
    var i := 0;
    while i < |subjects|
      invariant 0 <= i <= |subjects|
      invariant forall j :: 0 <= j < i ==> subjects[j].id in grades
    {
      if subjects[i].id !in grades {
        return false;
      }
      i := i + 1;
    }
    return true;
  }

  /** The second `every` of `runSimulation`: does each grade reach 7? */
  method EveryAtLeastPassMark(subjects: seq<SubjectWithCalculations>, grades: map<Id, real>) returns (b: bool)
    requires AllGraded(subjects, grades)
    ensures b <==> AllAtLeastPassMark(subjects, grades)
  {
    var i := 0;
    while i < |subjects|
      invariant 0 <= i <= |subjects|
      invariant forall j :: 0 <= j < i ==> grades[subjects[j].id] >= SubjectPassMark
    {
      if grades[subjects[i].id] < SubjectPassMark {
        return false;
      }
      i := i + 1;
    }
    return true;
  }

  /** The `forEach` of `runSimulation`: Σ grade·coefficient and Σ coefficient. */
  method SumWeightedGrades(subjects: seq<SubjectWithCalculations>, grades: map<Id, real>)
    returns (totalWeightedGrade: real, totalCoefficients: real)
    requires AllGraded(subjects, grades)
    ensures totalWeightedGrade == WeightedGrades(subjects, grades)
    ensures totalCoefficients == Coefficients(subjects)
  {
    totalWeightedGrade, totalCoefficients := 0.0, 0.0;
    var i := 0;
    while i < |subjects|
      invariant 0 <= i <= |subjects|
      invariant AllGraded(subjects[..i], grades)
      invariant totalWeightedGrade == WeightedGrades(subjects[..i], grades)
      invariant totalCoefficients == Coefficients(subjects[..i])
    {
      assert subjects[..i + 1][..i] == subjects[..i];
      totalWeightedGrade := totalWeightedGrade + grades[subjects[i].id] * subjects[i].coefficient;
      totalCoefficients := totalCoefficients + subjects[i].coefficient;
      i := i + 1;
    }
    assert subjects[..i] == subjects;
  }

  /** The seeding loop of the UE effect, one subject at a time. */
  method SeedInitialGrades(subjects: seq<SubjectWithCalculations>) returns (initialGrades: map<Id, real>)
    ensures initialGrades == SeedGrades(subjects)
  {
    initialGrades := map[];
    var i := 0;
    while i < |subjects|
      invariant 0 <= i <= |subjects|
      invariant initialGrades == SeedGrades(subjects[..i])
    {
      var subject := subjects[i];
      assert subjects[..i + 1][..i] == subjects[..i];
      if subject.finalAverage.Some? {
        initialGrades := initialGrades[subject.id := subject.finalAverage.value];
      } else if subject.initialAverage.Some? {
        initialGrades := initialGrades[subject.id := subject.initialAverage.value];
      } else {
        initialGrades := initialGrades[subject.id := 0.0];
      }
      i := i + 1;
    }
    assert subjects[..i] == subjects;
  }

  // ------------------------------------------------------------ the page

  class SimulationsPage {
    var selectedYearId: Id
    var selectedUEId: Id
    var simulatedGrades: map<Id, real>
    var ueWithSimulation: Option<UEWithCalculations>
    var simulationResults: Option<SimulationVerdict>

    constructor()
      ensures selectedYearId == "" && selectedUEId == "" && simulatedGrades == map[]
      ensures ueWithSimulation == None && simulationResults == None
    {
      selectedYearId := "";
      selectedUEId := "";
      simulatedGrades := map[];
      ueWithSimulation := None;
      simulationResults := None;
    }

    /**
     * Choosing an academic year records it and clears the UE, the grades and
     * the verdict.
     */
    method OnSelectedYearChange(yearId: Id)
      modifies this
      ensures selectedYearId == yearId
      ensures selectedUEId == "" && simulatedGrades == map[]
      ensures ueWithSimulation == None && simulationResults == None
    {
      selectedYearId := yearId;
      selectedUEId := "";
      simulatedGrades := map[];
      ueWithSimulation := None;
      simulationResults := None;
    }

    /**
     * Choosing a UE records its id, loads its decorated view and seeds the
     * grades from it; an id the store does not know leaves the UE and grades
     * as they were. The verdict is always cleared.
     */
    method OnSelectedUEChange(store: Store.AcademicStore, ueId: Id)
      modifies this
      ensures selectedUEId == ueId && selectedYearId == old(selectedYearId) && simulationResults == None
      ensures ueId == "" ==> ueWithSimulation == None && simulatedGrades == map[]
      ensures ueId != "" ==>
        match store.GetUEWithCalculations(ueId)
        case None => ueWithSimulation == old(ueWithSimulation) && simulatedGrades == old(simulatedGrades)
        case Some(ue) => ueWithSimulation == Some(ue) && simulatedGrades == SeedGrades(ue.subjects)
    {
      selectedUEId := ueId;
      if selectedUEId != "" {
        var ue := store.GetUEWithCalculations(selectedUEId);
        if ue.Some? {
          ueWithSimulation := ue;
          var initialGrades := SeedInitialGrades(ue.value.subjects);
          simulatedGrades := initialGrades;
        }
      } else {
        ueWithSimulation := None;
        simulatedGrades := map[];
      }
      simulationResults := None;
    }

    /**
     * Typing a grade: `parsed` is the number read from the field (None when it
     * is not a number); only values within 0..20 are stored.
     */
    method HandleGradeChange(subjectId: Id, parsed: Option<real>)
      modifies this
      ensures parsed.Some? && 0.0 <= parsed.value <= 20.0 ==>
        simulatedGrades == old(simulatedGrades)[subjectId := parsed.value]
      ensures !(parsed.Some? && 0.0 <= parsed.value <= 20.0) ==> simulatedGrades == old(simulatedGrades)
      ensures old(WithinScale(simulatedGrades)) ==> WithinScale(simulatedGrades)
      ensures selectedYearId == old(selectedYearId) && selectedUEId == old(selectedUEId)
      ensures ueWithSimulation == old(ueWithSimulation)
      ensures simulationResults == old(simulationResults)
    {
      if parsed.Some? && parsed.value >= 0.0 && parsed.value <= 20.0 {
        simulatedGrades := simulatedGrades[subjectId := parsed.value];
      }
    }

    /** Judges the loaded UE with the simulated grades; without a UE nothing happens. */
    method RunSimulation()
      modifies this
      ensures ueWithSimulation.None? ==> simulationResults == old(simulationResults)
      ensures ueWithSimulation.Some? ==>
        simulationResults == Some(EvaluateSimulation(ueWithSimulation.value.subjects, simulatedGrades))
      ensures selectedYearId == old(selectedYearId) && selectedUEId == old(selectedUEId)
      ensures ueWithSimulation == old(ueWithSimulation) && simulatedGrades == old(simulatedGrades)
    {
      if ueWithSimulation.None? {
        return;
      }
      var subjects := ueWithSimulation.value.subjects;
      var grades := simulatedGrades;

      var allSubjectsHaveGrades := EveryGraded(subjects, grades);
      if !allSubjectsHaveGrades {
        simulationResults := Some(SimulationVerdict(false, None, MissingGrade));
        return;
      }

      var allSubjectsValid := EveryAtLeastPassMark(subjects, grades);
      if !allSubjectsValid {
        simulationResults := Some(SimulationVerdict(false, None, GradeBelowSeven));
        return;
      }

      var totalWeightedGrade, totalCoefficients := SumWeightedGrades(subjects, grades);
      if totalCoefficients == 0.0 {
        simulationResults := Some(SimulationVerdict(totalWeightedGrade > 0.0, None, AverageComputed));
      } else {
        var simulatedAverage := totalWeightedGrade / totalCoefficients;
        simulationResults := Some(SimulationVerdict(simulatedAverage >= UEPassMark, Some(simulatedAverage), AverageComputed));
      }
    }
  }

  // ------------------------------------------------------------ properties

  /** With distinct ids, each subject's entry is its own seed value. */
  lemma {:induction false} SeedGradesLookup(subjects: seq<SubjectWithCalculations>, i: nat)
    requires i < |subjects|
    requires forall a, b :: 0 <= a < b < |subjects| ==> subjects[a].id != subjects[b].id
    ensures SeedGrades(subjects)[subjects[i].id] == SeedValue(subjects[i])
  {
    var n := |subjects|;
    if i < n - 1 {
      var init := subjects[..n - 1];
      assert init[i] == subjects[i];
      assert subjects[n - 1].id != subjects[i].id;
      SeedGradesLookup(init, i);
    }
  }

  /** Every seeded grade is the seed value of some subject. */
  lemma {:induction false} SeedValuesComeFromSubjects(subjects: seq<SubjectWithCalculations>, id: Id)
    requires id in SeedGrades(subjects)
    ensures exists i :: 0 <= i < |subjects| && SeedGrades(subjects)[id] == SeedValue(subjects[i])
  {
    var n := |subjects|;
    if subjects[n - 1].id != id {
      var init := subjects[..n - 1];
      SeedValuesComeFromSubjects(init, id);
      var i :| 0 <= i < |init| && SeedGrades(init)[id] == SeedValue(init[i]);
      assert init[i] == subjects[i];
    }
  }

  /**
   * For a view built from stored grades, the fallback to the initial average
   * never fires: a subject starts at its final average, or at 0 without one.
   */
  lemma SeedFromProjection(s: Subject)
    ensures SeedValue(SubjectWithCalculationsOf(s)) ==
      if FinalAverage(s).Some? then FinalAverage(s).value else 0.0
  {
  }

  /** Seeding from grades within 0..20 gives simulated grades within 0..20. */
  lemma SeedWithinScale(ue: UE)
    requires forall i :: 0 <= i < |ue.subjects| ==> GradesInRange(ue.subjects[i])
    ensures WithinScale(SeedGrades(UEWithCalculationsOf(ue).subjects))
  {
    var views := UEWithCalculationsOf(ue).subjects;
    forall id | id in SeedGrades(views) ensures 0.0 <= SeedGrades(views)[id] <= 20.0 {
      SeedValuesComeFromSubjects(views, id);
      var i :| 0 <= i < |views| && SeedGrades(views)[id] == SeedValue(views[i]);
      AveragesInRange(ue.subjects[i]);
    }
  }

  /** Summing seeded grades over the views of stored subjects gives the grade engine's completed sums. */
  lemma {:induction false} SeededSumsAreCompletedSums(subjects: seq<Subject>, grades: map<Id, real>)
    requires forall i :: 0 <= i < |subjects| ==>
      && subjects[i].id in grades
      && grades[subjects[i].id] == (if FinalAverage(subjects[i]).Some? then FinalAverage(subjects[i]).value else 0.0)
    ensures AllGraded(SubjectViews(subjects), grades)
    ensures WeightedGrades(SubjectViews(subjects), grades) == CompletedPoints(subjects)
    ensures Coefficients(SubjectViews(subjects)) == CoefficientSum(subjects)
  {
    var n := |subjects|;
    if n > 0 {
      var init := subjects[..n - 1];
      assert SubjectViews(subjects)[..n - 1] == SubjectViews(init);
      assert forall i :: 0 <= i < |init| ==> init[i] == subjects[i];
      SeededSumsAreCompletedSums(init, grades);
    }
  }

  lemma {:induction false} WeightedGradesBetween(subjects: seq<SubjectWithCalculations>, grades: map<Id, real>, lo: real, hi: real)
    requires AllGraded(subjects, grades)
    requires forall i :: 0 <= i < |subjects| ==> subjects[i].coefficient > 0.0
    requires forall i :: 0 <= i < |subjects| ==> lo <= grades[subjects[i].id] <= hi
    ensures lo * Coefficients(subjects) <= WeightedGrades(subjects, grades) <= hi * Coefficients(subjects)
  {
    var n := |subjects|;
    if n == 0 {
      assert lo * 0.0 == 0.0 == hi * 0.0;
    } else {
      var init := subjects[..n - 1];
      assert forall i :: 0 <= i < |init| ==> init[i] == subjects[i];
      WeightedGradesBetween(init, grades, lo, hi);
      WeightedGradesStep(subjects, grades, lo, hi);
    }
  }

  /** The inductive step of `WeightedGradesBetween`: one more graded subject within [lo, hi]. */
  lemma WeightedGradesStep(subjects: seq<SubjectWithCalculations>, grades: map<Id, real>, lo: real, hi: real)
    requires |subjects| > 0 && AllGraded(subjects, grades)
    requires var init := subjects[..|subjects| - 1];
      lo * Coefficients(init) <= WeightedGrades(init, grades) <= hi * Coefficients(init)
    requires var last := subjects[|subjects| - 1];
      last.coefficient > 0.0 && lo <= grades[last.id] <= hi
    ensures lo * Coefficients(subjects) <= WeightedGrades(subjects, grades) <= hi * Coefficients(subjects)
  {
    var init := subjects[..|subjects| - 1];
    var last := subjects[|subjects| - 1];
    var w0, c0 := WeightedGrades(init, grades), Coefficients(init);
    assert WeightedGrades(subjects, grades) == w0 + grades[last.id] * last.coefficient;
    assert Coefficients(subjects) == c0 + last.coefficient;
    WeightedStep(w0, c0, grades[last.id], last.coefficient, lo, hi);
  }

  lemma {:induction false} CoefficientsPositive(subjects: seq<SubjectWithCalculations>)
    requires |subjects| > 0
    requires forall i :: 0 <= i < |subjects| ==> subjects[i].coefficient > 0.0
    ensures Coefficients(subjects) > 0.0
  {
    var init := subjects[..|subjects| - 1];
    if |init| > 0 {
      assert forall i :: 0 <= i < |init| ==> init[i] == subjects[i];
      CoefficientsPositive(init);
    }
  }

  /**
   * With positive coefficients and grades within 0..20, a computed simulated
   * average is a mean of grades that all passed: it lies within 7..20.
   */
  lemma SimulatedAverageInScale(subjects: seq<SubjectWithCalculations>, grades: map<Id, real>)
    requires |subjects| > 0
    requires forall i :: 0 <= i < |subjects| ==> subjects[i].coefficient > 0.0
    requires WithinScale(grades)
    ensures EvaluateSimulation(subjects, grades).outcome == AverageComputed ==>
      && EvaluateSimulation(subjects, grades).average.Some?
      && SubjectPassMark <= EvaluateSimulation(subjects, grades).average.value <= 20.0
  {
    if AllGraded(subjects, grades) && AllAtLeastPassMark(subjects, grades) {
      WeightedGradesBetween(subjects, grades, SubjectPassMark, 20.0);
      CoefficientsPositive(subjects);
      MeanBetween(WeightedGrades(subjects, grades), Coefficients(subjects), SubjectPassMark, 20.0);
    }
  }

  /** Seeding from a stored UE gives each subject its final average, or 0 without one. */
  lemma SeedOfStoredSubjects(ue: UE)
    requires DistinctSubjectIds(ue.subjects)
    ensures var m := SeedGrades(UEWithCalculationsOf(ue).subjects);
      forall i :: 0 <= i < |ue.subjects| ==>
        && ue.subjects[i].id in m
        && m[ue.subjects[i].id] == (if FinalAverage(ue.subjects[i]).Some? then FinalAverage(ue.subjects[i]).value else 0.0)
  {
    var views := UEWithCalculationsOf(ue).subjects;
    forall i | 0 <= i < |ue.subjects|
      ensures ue.subjects[i].id in SeedGrades(views)
      ensures SeedGrades(views)[ue.subjects[i].id] ==
        (if FinalAverage(ue.subjects[i]).Some? then FinalAverage(ue.subjects[i]).value else 0.0)
    {
      assert views[i].id == ue.subjects[i].id;
      SeedGradesLookup(views, i);
      SeedFromProjection(ue.subjects[i]);
    }
  }

  /**
   * Simulating a UE with the grades the page seeds from it reproduces the
   * grade engine's verdict: valid exactly when the UE is validated, and then
   * with the UE average.
   */
  lemma SimulatingCurrentGradesAgrees(ue: UE)
    requires PositiveCoefficients(ue.subjects)
    requires DistinctSubjectIds(ue.subjects)
    ensures var views := UEWithCalculationsOf(ue).subjects;
      && (EvaluateSimulation(views, SeedGrades(views)).isValid <==> IsUEValidated(ue))
      && (IsUEValidated(ue) ==> EvaluateSimulation(views, SeedGrades(views)).average == UEAverage(ue))
  {
    if |ue.subjects| == 0 {
      assert EvaluateSimulation([], SeedGrades([])) == SimulationVerdict(false, None, AverageComputed);
    } else if forall i :: 0 <= i < |ue.subjects| ==> IsSubjectValidated(ue.subjects[i]) {
      SeededVerdictWhenAllValidated(ue);
    } else {
      SeededVerdictWhenOneFails(ue);
    }
  }

  /** Every subject validated: the seeded simulation computes the UE average. */
  lemma SeededVerdictWhenAllValidated(ue: UE)
    requires PositiveCoefficients(ue.subjects) && DistinctSubjectIds(ue.subjects) && |ue.subjects| > 0
    requires forall i :: 0 <= i < |ue.subjects| ==> IsSubjectValidated(ue.subjects[i])
    ensures var views := UEWithCalculationsOf(ue).subjects;
      && UEAverage(ue).Some?
      && EvaluateSimulation(views, SeedGrades(views)) ==
           SimulationVerdict(UEAverage(ue).value >= UEPassMark, UEAverage(ue), AverageComputed)
  {
    var views := UEWithCalculationsOf(ue).subjects;
    var m := SeedGrades(views);
    SeedOfStoredSubjects(ue);
    SeededSumsAreCompletedSums(ue.subjects, m);
    assert AllGraded(views, m);
    forall i | 0 <= i < |views| ensures m[views[i].id] >= SubjectPassMark {
      assert views[i].id == ue.subjects[i].id;
      assert IsSubjectValidated(ue.subjects[i]);
    }
    assert AllAtLeastPassMark(views, m);
    CoefficientSumPositive(ue.subjects);
    assert !HasIncompleteSubject(ue.subjects);
    UEAverageDefined(ue);
    var w, c := CompletedPoints(ue.subjects), CoefficientSum(ue.subjects);
    assert UEAverage(ue) == Some(w / c);
  }

  /** Some subject not validated: the seeded simulation is not valid, nor is the UE. */
  lemma SeededVerdictWhenOneFails(ue: UE)
    requires DistinctSubjectIds(ue.subjects)
    requires exists i :: 0 <= i < |ue.subjects| && !IsSubjectValidated(ue.subjects[i])
    ensures var views := UEWithCalculationsOf(ue).subjects;
      !EvaluateSimulation(views, SeedGrades(views)).isValid && !IsUEValidated(ue)
  {
    var views := UEWithCalculationsOf(ue).subjects;
    var m := SeedGrades(views);
    SeedOfStoredSubjects(ue);
    var i :| 0 <= i < |ue.subjects| && !IsSubjectValidated(ue.subjects[i]);
    assert views[i].id == ue.subjects[i].id;
    assert !AllAtLeastPassMark(views, m);
  }
}
