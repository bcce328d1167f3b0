/**
 * The retake simulator: which retake grade(s) make a UE's weighted total reach
 * 10 times its coefficients (simulateMinimumGrades in
 * src/contexts/AcademicContext.tsx), and when entering them validates the UE.
 */
module Simulator {
  import opened Wrappers
  import opened Types
  import opened GradeEngine

  /** Highest grade a retake can give. */
  const MaxGrade: real := 20.0

  /** A subject still needs a qualifying grade when its final average is absent or below 7. */
  predicate NeedsRetake(s: Subject)
  {
    FinalAverage(s).None? || FinalAverage(s).value < SubjectPassMark
  }

  /** The subjects needing a retake, in UE order. */
  function RetakeSubjects(subjects: seq<Subject>): (r: seq<Subject>)
    ensures forall x :: x in r <==> x in subjects && NeedsRetake(x)
    ensures |r| <= |subjects|
  {
    if |subjects| == 0 then []
    else
      var init, last := subjects[..|subjects| - 1], subjects[|subjects| - 1];
      assert subjects == init + [last];
      RetakeSubjects(init) + (if NeedsRetake(last) then [last] else [])
  }

  /** The filter keeps UE order: filtering a concatenation concatenates the filtered parts. */
  lemma {:induction false} RetakeSubjectsConcat(a: seq<Subject>, b: seq<Subject>)
    ensures RetakeSubjects(a + b) == RetakeSubjects(a) + RetakeSubjects(b)
    decreases |b|
  {
    if |b| == 0 {
      assert a + b == a;
    } else {
      var init, last := b[..|b| - 1], b[|b| - 1];
      assert (a + b)[..|a + b| - 1] == a + init;
      assert (a + b)[|a + b| - 1] == last;
      RetakeSubjectsConcat(a, init);
    }
  }

  function RetakeIds(retake: seq<Subject>): set<Id>
  {
    set x | x in retake :: x.id
  }

  /** Σ final·coefficient of the subjects other than `id` that have a final average. */
  function PointsExcept(subjects: seq<Subject>, id: Id): real
  {
    if |subjects| == 0 then 0.0
    else
      var last := subjects[|subjects| - 1];
      PointsExcept(subjects[..|subjects| - 1], id)
        + (if last.id != id && FinalAverage(last).Some? then FinalAverage(last).value * last.coefficient else 0.0)
  }

  /** Σ final·coefficient of the subjects outside the retake ids that have a final average. */
  function NonRetakePoints(subjects: seq<Subject>, ids: set<Id>): real
  {
    if |subjects| == 0 then 0.0
    else
      var last := subjects[|subjects| - 1];
      NonRetakePoints(subjects[..|subjects| - 1], ids)
        + (if FinalAverage(last).Some? && last.id !in ids then FinalAverage(last).value * last.coefficient else 0.0)
  }

  /** Σ coefficient of the subjects whose id is a retake id (the loop's else-branch). */
  function RetakeCoefficients(subjects: seq<Subject>, ids: set<Id>): real
  {
    if |subjects| == 0 then 0.0
    else
      var last := subjects[|subjects| - 1];
      RetakeCoefficients(subjects[..|subjects| - 1], ids)
        + (if FinalAverage(last).Some? && last.id !in ids then 0.0
           else if last.id in ids then last.coefficient
           else 0.0)
  }

  /** Rounds up to the nearest half point: ceil(2x) / 2. */
  function RoundUpToHalf(x: real): (r: real)
    ensures x <= r < x + 0.5
    ensures (2.0 * r).Floor as real == 2.0 * r
  {
    var k := (-2.0 * x).Floor;
    assert k as real <= -2.0 * x < k as real + 1.0;
    var r := (-k) as real / 2.0;
    assert 2.0 * r == (-k) as real;
    r
  }

  /** The ids of the subjects a UE needs retaken. */
  function RetakeIdsOf(ue: UE): set<Id>
  {
    RetakeIds(RetakeSubjects(ue.subjects))
  }

  /** One proposed grade for every retake id. */
  function GradesFor(ids: set<Id>, grade: real): (m: map<Id, real>)
    ensures m.Keys == ids
    ensures forall id :: id in m ==> m[id] == grade
  {
    map id | id in ids :: grade
  }

  /** Positive coefficients on at least one retake subject give a positive retake weight. */
  lemma {:induction false} RetakeCoefficientsPositive(subjects: seq<Subject>, ids: set<Id>)
    requires PositiveCoefficients(subjects)
    ensures RetakeCoefficients(subjects, ids) >= 0.0
    ensures (exists i :: 0 <= i < |subjects| && subjects[i].id in ids) ==> RetakeCoefficients(subjects, ids) > 0.0
  {
    if |subjects| > 0 {
      var init := subjects[..|subjects| - 1];
      assert forall i :: 0 <= i < |init| ==> init[i] == subjects[i];
      RetakeCoefficientsPositive(init, ids);
    }
  }

  lemma RetakeWeightPositive(subjects: seq<Subject>)
    requires PositiveCoefficients(subjects) && |RetakeSubjects(subjects)| > 0
    ensures RetakeCoefficients(subjects, RetakeIds(RetakeSubjects(subjects))) > 0.0
  {
    var retake := RetakeSubjects(subjects);
    var ids := RetakeIds(retake);
    assert retake[0] in subjects;
    var i :| 0 <= i < |subjects| && subjects[i] == retake[0];
    assert subjects[i].id in ids;
    RetakeCoefficientsPositive(subjects, ids);
  }

  /** The retake grade solving the pass-mark equation when one subject is retaken. */
  function SingleRetakeTarget(subjects: seq<Subject>, retaken: Subject): real
    requires retaken.coefficient > 0.0
  {
    (UEPassMark * CoefficientSum(subjects) - PointsExcept(subjects, retaken.id)) / retaken.coefficient
  }

  /** The common retake grade solving the pass-mark equation when several subjects are retaken. */
  function MultiRetakeTarget(subjects: seq<Subject>, ids: set<Id>): real
    requires RetakeCoefficients(subjects, ids) > 0.0
  {
    (UEPassMark * CoefficientSum(subjects) - NonRetakePoints(subjects, ids)) / RetakeCoefficients(subjects, ids)
  }

  /** The single-retake answer: a target above 20 is out of reach, otherwise it is rounded up. */
  function SingleRetakeResult(g: real, retakenId: Id): SimulationResult
  {
    if g > MaxGrade then SimulationResult(map[retakenId := MaxGrade], false)
    else SimulationResult(map[retakenId := RoundUpToHalf(g)], true)
  }

  /** The multi-retake answer: out of reach above 20, otherwise rounded up and floored at 7. */
  function MultiRetakeResult(g: real, ids: set<Id>): SimulationResult
  {
    if g > MaxGrade then SimulationResult(GradesFor(ids, MaxGrade), false)
    else SimulationResult(GradesFor(ids, Max(SubjectPassMark, RoundUpToHalf(g))), true)
  }

  /** The simulator's answer for a UE (its human-readable message is not modelled). */
  function Simulate(ue: UE): SimulationResult
    requires PositiveCoefficients(ue.subjects)
  {
    var retake := RetakeSubjects(ue.subjects);
    if |retake| == 0 then
      var average := UEAverage(ue);
      SimulationResult(map[], !(average.Some? && average.value < UEPassMark))
    else if |retake| == 1 then
      assert retake[0] in ue.subjects;
      SingleRetakeResult(SingleRetakeTarget(ue.subjects, retake[0]), retake[0].id)
    else
      RetakeWeightPositive(ue.subjects);
      MultiRetakeResult(MultiRetakeTarget(ue.subjects, RetakeIds(retake)), RetakeIds(retake))
  }

  /** The single-retake loop: points of every other subject that has a final average. */
  method AccumulateOtherPoints(subjects: seq<Subject>, retakenId: Id) returns (totalPoints: real)
    ensures totalPoints == PointsExcept(subjects, retakenId)
  {
    totalPoints := 0.0;
    var i := 0;
    while i < |subjects|
      invariant 0 <= i <= |subjects|
      invariant totalPoints == PointsExcept(subjects[..i], retakenId)
    {
      var subject := subjects[i];
      assert subjects[..i + 1][..i] == subjects[..i];
      if subject.id != retakenId {
        var finalAverage := FinalAverage(subject);
        if finalAverage.Some? {
          totalPoints := totalPoints + finalAverage.value * subject.coefficient;
        }
      }
      i := i + 1;
    }
    assert subjects[..i] == subjects;
  }

  /** The multi-retake loop: points of the other subjects and the retake subjects' weight. */
  method AccumulateRetakeWeights(subjects: seq<Subject>, retakeIds: set<Id>)
    returns (totalPoints: real, totalRetakeCoefficients: real)
    ensures totalPoints == NonRetakePoints(subjects, retakeIds)
    ensures totalRetakeCoefficients == RetakeCoefficients(subjects, retakeIds)
  {
    totalPoints, totalRetakeCoefficients := 0.0, 0.0;
    var i := 0;
    while i < |subjects|
      invariant 0 <= i <= |subjects|
      invariant totalPoints == NonRetakePoints(subjects[..i], retakeIds)
      invariant totalRetakeCoefficients == RetakeCoefficients(subjects[..i], retakeIds)
    {
      var subject := subjects[i];
      assert subjects[..i + 1][..i] == subjects[..i];
      var finalAverage := FinalAverage(subject);
      if finalAverage.Some? && subject.id !in retakeIds {
        totalPoints := totalPoints + finalAverage.value * subject.coefficient;
      } else if subject.id in retakeIds {
        totalRetakeCoefficients := totalRetakeCoefficients + subject.coefficient;
      }
      i := i + 1;
    }
    assert subjects[..i] == subjects;
  }

  /** The forEach that records the same proposed grade for every retake subject. */
  method FillMinimumGrades(retake: seq<Subject>, grade: real) returns (minimumGrades: map<Id, real>)
    ensures minimumGrades == GradesFor(RetakeIds(retake), grade)
  {
    minimumGrades := map[];
    var j := 0;
    while j < |retake|
      invariant 0 <= j <= |retake|
      invariant minimumGrades == GradesFor(RetakeIds(retake[..j]), grade)
    {
      assert RetakeIds(retake[..j + 1]) == RetakeIds(retake[..j]) + {retake[j].id} by {
        assert retake[..j + 1] == retake[..j] + [retake[j]];
      }
      minimumGrades := minimumGrades[retake[j].id := grade];
      j := j + 1;
    }
    assert retake[..j] == retake;
  }

  /** The simulator as the source runs it. */
  method SimulateMinimumGrades(ue: UE) returns (result: SimulationResult)
    requires PositiveCoefficients(ue.subjects)
    ensures result == Simulate(ue)
  {
    var subjectsNeedingRetake := RetakeSubjects(ue.subjects);
    if |subjectsNeedingRetake| == 0 {
      var ueAverage := CalculateUEAverage(ue);
      if ueAverage.Some? && ueAverage.value < UEPassMark {
        return SimulationResult(map[], false);
      }
      return SimulationResult(map[], true);
    }
    var totalCoefficients := CoefficientSum(ue.subjects);
    if |subjectsNeedingRetake| == 1 {
      var subjectToRetake := subjectsNeedingRetake[0];
      assert subjectToRetake in ue.subjects;
      var totalPoints := AccumulateOtherPoints(ue.subjects, subjectToRetake.id);
      var pointsNeeded := UEPassMark * totalCoefficients - totalPoints;
      var minimumGrade := pointsNeeded / subjectToRetake.coefficient;
      assert minimumGrade == SingleRetakeTarget(ue.subjects, subjectToRetake);
      if minimumGrade > MaxGrade {
        return SimulationResult(map[subjectToRetake.id := MaxGrade], false);
      }
      return SimulationResult(map[subjectToRetake.id := RoundUpToHalf(minimumGrade)], true);
    }
    var retakeIds := RetakeIds(subjectsNeedingRetake);
    var totalPoints, totalRetakeCoefficients := AccumulateRetakeWeights(ue.subjects, retakeIds);
    RetakeWeightPositive(ue.subjects);
    var pointsNeeded := UEPassMark * totalCoefficients - totalPoints;
    var averageGradeNeeded := pointsNeeded / totalRetakeCoefficients;
    assert averageGradeNeeded == MultiRetakeTarget(ue.subjects, retakeIds);
    if averageGradeNeeded > MaxGrade {
      return SimulationResult(GradesFor(retakeIds, MaxGrade), false);
    }
    var minimumGrades := FillMinimumGrades(subjectsNeedingRetake, Max(SubjectPassMark, RoundUpToHalf(averageGradeNeeded)));
    return SimulationResult(minimumGrades, true);
  }

  // ------------------------------------------------------------ properties

  /**
   * When no subject needs a retake nothing is proposed, and the answer is
   * "impossible" exactly when the UE average exists and is below 10. For a UE
   * with subjects, "possible" then means the UE is already valid.
   */
  lemma NoRetakeOutcome(ue: UE)
    requires PositiveCoefficients(ue.subjects) && |RetakeSubjects(ue.subjects)| == 0
    ensures Simulate(ue).minimumGrades == map[]
    ensures !Simulate(ue).isPossible <==> UEAverage(ue).Some? && UEAverage(ue).value < UEPassMark
    ensures |ue.subjects| > 0 ==> (Simulate(ue).isPossible <==> IsUEValidated(ue))
  {
    if |ue.subjects| > 0 {
      forall i | 0 <= i < |ue.subjects| ensures IsSubjectValidated(ue.subjects[i]) {
        assert ue.subjects[i] !in RetakeSubjects(ue.subjects);
      }
      assert !HasIncompleteSubject(ue.subjects);
      UEAverageWithPositiveCoefficients(ue);
    }
  }

  /**
   * The pass-mark equation: grade g on the retaken weight, plus the points the
   * other graded subjects already carry, equals 10 times the UE's coefficient
   * sum. It says nothing about subjects without an average, and a retake grade
   * only counts where the subject's own rule lets it (see RetakeGradesValidate).
   */
  predicate ReachesPassMark(subjects: seq<Subject>, g: real, weight: real, others: real)
  {
    g * weight + others == UEPassMark * CoefficientSum(subjects)
  }

  /** The target grade solves the weighted equation it was derived from. */
  lemma TargetSolves(subjects: seq<Subject>, others: real, weight: real, target: real)
    requires weight > 0.0 && target == (UEPassMark * CoefficientSum(subjects) - others) / weight
    ensures ReachesPassMark(subjects, target, weight, others)
  {
  }

  /** The first retake subject belongs to the UE, needs a retake and has a positive coefficient. */
  lemma FirstRetakeSubject(ue: UE)
    requires PositiveCoefficients(ue.subjects) && |RetakeSubjects(ue.subjects)| > 0
    ensures var retaken := RetakeSubjects(ue.subjects)[0];
      retaken in ue.subjects && NeedsRetake(retaken) && retaken.coefficient > 0.0
  {
    var retaken := RetakeSubjects(ue.subjects)[0];
    assert retaken in RetakeSubjects(ue.subjects);
    var i :| 0 <= i < |ue.subjects| && ue.subjects[i] == retaken;
  }

  /** What the single-retake answer proposes for a target g. */
  lemma SingleRetakeResultMeaning(g: real, retakenId: Id)
    ensures SingleRetakeResult(g, retakenId).minimumGrades.Keys == {retakenId}
    ensures g > MaxGrade ==> SingleRetakeResult(g, retakenId) == SimulationResult(map[retakenId := MaxGrade], false)
    ensures g <= MaxGrade ==>
      && SingleRetakeResult(g, retakenId).isPossible
      && SingleRetakeResult(g, retakenId).minimumGrades[retakenId] == RoundUpToHalf(g)
      && g <= SingleRetakeResult(g, retakenId).minimumGrades[retakenId] < g + 0.5
  {
  }

  /**
   * One subject to retake: the target g solves the pass-mark equation with the
   * retaken subject's coefficient as weight. Above 20 the UE is declared lost
   * with 20 proposed; otherwise g rounded up to the next half point is
   * proposed, with no floor at 7.
   */
  lemma SingleRetakeOutcome(ue: UE)
    requires PositiveCoefficients(ue.subjects) && |RetakeSubjects(ue.subjects)| == 1
    ensures var retaken := RetakeSubjects(ue.subjects)[0];
      retaken in ue.subjects && NeedsRetake(retaken) && retaken.coefficient > 0.0
    ensures var retaken := RetakeSubjects(ue.subjects)[0];
      && retaken.coefficient > 0.0
      && var g := SingleRetakeTarget(ue.subjects, retaken);
      && ReachesPassMark(ue.subjects, g, retaken.coefficient, PointsExcept(ue.subjects, retaken.id))
      && Simulate(ue).minimumGrades.Keys == {retaken.id}
      && (g > MaxGrade ==> Simulate(ue) == SimulationResult(map[retaken.id := MaxGrade], false))
      && (g <= MaxGrade ==>
            Simulate(ue).isPossible
            && g <= Simulate(ue).minimumGrades[retaken.id] < g + 0.5
            && Simulate(ue).minimumGrades[retaken.id] == RoundUpToHalf(g))
  {
    FirstRetakeSubject(ue);
    var retaken := RetakeSubjects(ue.subjects)[0];
    var g := SingleRetakeTarget(ue.subjects, retaken);
    TargetSolves(ue.subjects, PointsExcept(ue.subjects, retaken.id), retaken.coefficient, g);
    assert Simulate(ue) == SingleRetakeResult(g, retaken.id);
    SingleRetakeResultMeaning(g, retaken.id);
  }

  /**
   * Several subjects to retake: one shared target g solves the pass-mark
   * equation with the retake coefficients as weight. Above 20 every retake
   * subject gets 20 and the UE is declared lost; otherwise every retake subject
   * gets the same proposal, at least 7 and at least g.
   */
  lemma MultiRetakeOutcome(ue: UE)
    requires PositiveCoefficients(ue.subjects) && |RetakeSubjects(ue.subjects)| >= 2
    ensures RetakeCoefficients(ue.subjects, RetakeIdsOf(ue)) > 0.0
    ensures ReachesPassMark(ue.subjects, MultiRetakeTarget(ue.subjects, RetakeIdsOf(ue)),
      RetakeCoefficients(ue.subjects, RetakeIdsOf(ue)), NonRetakePoints(ue.subjects, RetakeIdsOf(ue)))
    ensures Simulate(ue).minimumGrades.Keys == RetakeIdsOf(ue)
    ensures MultiRetakeTarget(ue.subjects, RetakeIdsOf(ue)) > MaxGrade ==>
      !Simulate(ue).isPossible
      && forall id :: id in RetakeIdsOf(ue) ==> Simulate(ue).minimumGrades[id] == MaxGrade
    ensures MultiRetakeTarget(ue.subjects, RetakeIdsOf(ue)) <= MaxGrade ==>
      Simulate(ue).isPossible
      && forall id :: id in RetakeIdsOf(ue) ==>
           && Simulate(ue).minimumGrades[id] >= SubjectPassMark
           && Simulate(ue).minimumGrades[id] >= MultiRetakeTarget(ue.subjects, RetakeIdsOf(ue))
           && Simulate(ue).minimumGrades[id] == Max(SubjectPassMark, RoundUpToHalf(MultiRetakeTarget(ue.subjects, RetakeIdsOf(ue))))
  {
    var ids := RetakeIdsOf(ue);
    RetakeWeightPositive(ue.subjects);
    var w := RetakeCoefficients(ue.subjects, ids);
    var g := MultiRetakeTarget(ue.subjects, ids);
    TargetSolves(ue.subjects, NonRetakePoints(ue.subjects, ids), w, g);
    assert Simulate(ue) == MultiRetakeResult(g, ids);
    MultiRetakeResultMeaning(g, ids);
  }

  /** What the multi-retake answer proposes for a target g. */
  lemma MultiRetakeResultMeaning(g: real, ids: set<Id>)
    ensures MultiRetakeResult(g, ids).minimumGrades.Keys == ids
    ensures g > MaxGrade ==>
      !MultiRetakeResult(g, ids).isPossible
      && forall id :: id in ids ==> MultiRetakeResult(g, ids).minimumGrades[id] == MaxGrade
    ensures g <= MaxGrade ==>
      MultiRetakeResult(g, ids).isPossible
      && forall id :: id in ids ==>
           && MultiRetakeResult(g, ids).minimumGrades[id] >= SubjectPassMark
           && MultiRetakeResult(g, ids).minimumGrades[id] >= g
           && MultiRetakeResult(g, ids).minimumGrades[id] == Max(SubjectPassMark, RoundUpToHalf(g))
  {
  }

  /** Whenever the simulator gives up on a retake path, every retake subject is shown 20. */
  lemma ImpossibleRetakesShowMaxGrade(ue: UE)
    requires PositiveCoefficients(ue.subjects) && |RetakeSubjects(ue.subjects)| > 0
    requires !Simulate(ue).isPossible
    ensures Simulate(ue).minimumGrades == GradesFor(RetakeIds(RetakeSubjects(ue.subjects)), MaxGrade)
  {
    var retake := RetakeSubjects(ue.subjects);
    if |retake| == 1 {
      assert RetakeIds(retake) == {retake[0].id} by {
        assert forall x :: x in retake ==> x == retake[0];
      }
    }
  }

  /**
   * The worked example of a UE with coefficients 2 and 1: the passed subject
   * has 14, so the other needs only 2 to bring the average to 10. The proposal
   * is 2, below the pass mark, and a retake graded 2 leaves the UE invalid.
   */
  lemma SingleRetakeProposalNotFloored()
    ensures var a := Subject("a", "A", 2.0, "u", Some(14.0), Some(14.0), None);
      var b := Subject("b", "B", 1.0, "u", Some(2.0), Some(2.0), None);
      && Simulate(UE("u", "UE", 6.0, "s", [a, b])) == SimulationResult(map["b" := 2.0], true)
      && !IsUEValidated(UE("u", "UE", 6.0, "s", [a, b.(rattrapage := Some(2.0))]))
  {
    var a := Subject("a", "A", 2.0, "u", Some(14.0), Some(14.0), None);
    var b := Subject("b", "B", 1.0, "u", Some(2.0), Some(2.0), None);
    var subjects := [a, b];
    var ue := UE("u", "UE", 6.0, "s", subjects);
    assert FinalAverage(a) == Some(14.0);
    assert FinalAverage(b) == Some(2.0);
    assert subjects[..1] == [a] && [a][..0] == [];
    assert RetakeSubjects([a]) == [];
    assert RetakeSubjects(subjects) == [b];
    assert CoefficientSum([a]) == 2.0;
    assert CoefficientSum(subjects) == 3.0;
    assert PointsExcept([a], "b") == 28.0;
    assert PointsExcept(subjects, "b") == 28.0;
    assert SingleRetakeTarget(subjects, b) == 2.0;
    var r := RoundUpToHalf(2.0);
    var k := (2.0 * r).Floor;
    assert 4.0 <= k as real < 5.0;
    assert k == 4;
    assert r == 2.0;
    var b' := b.(rattrapage := Some(2.0));
    assert FinalAverage(b') == Some(2.0);
    assert !IsSubjectValidated(UE("u", "UE", 6.0, "s", [a, b']).subjects[1]);
  }
  // ------------------------------------------------------ taking the retakes

  /** A subject once the retake grade proposed for its id, if any, is entered. */
  function ApplyRetake(s: Subject, grades: map<Id, real>): Subject
  {
    if s.id in grades then s.(rattrapage := Some(grades[s.id])) else s
  }

  /** The subjects once every proposed retake grade is entered. */
  function RetakenSubjects(subjects: seq<Subject>, grades: map<Id, real>): seq<Subject>
  {
    seq(|subjects|, i requires 0 <= i < |subjects| => ApplyRetake(subjects[i], grades))
  }

  /** The UE once every proposed retake grade is entered on the subject carrying that id. */
  function WithRetakeGrades(ue: UE, grades: map<Id, real>): UE
  {
    ue.(subjects := RetakenSubjects(ue.subjects, grades))
  }

  /** Entering retake grades changes no coefficient, so the coefficient sum stays. */
  lemma {:induction false} RetakesKeepCoefficientSum(subjects: seq<Subject>, grades: map<Id, real>)
    ensures CoefficientSum(RetakenSubjects(subjects, grades)) == CoefficientSum(subjects)
  {
    if |subjects| > 0 {
      var n := |subjects| - 1;
      assert RetakenSubjects(subjects, grades)[..n] == RetakenSubjects(subjects[..n], grades);
      RetakesKeepCoefficientSum(subjects[..n], grades);
    }
  }

  /** What one subject adds to `PointsWithRetakesAt`. */
  function OwedPoints(s: Subject, ids: set<Id>, p: real): real
  {
    if FinalAverage(s).Some? && s.id !in ids then FinalAverage(s).value * s.coefficient
    else if s.id in ids then p * s.coefficient
    else 0.0
  }

  /**
   * The UE's weighted total if every subject under a retake id scored exactly p:
   * p·coefficient for those, final·coefficient for the other graded subjects.
   */
  function PointsWithRetakesAt(subjects: seq<Subject>, ids: set<Id>, p: real): real
  {
    if |subjects| == 0 then 0.0
    else
      var last := subjects[|subjects| - 1];
      PointsWithRetakesAt(subjects[..|subjects| - 1], ids, p) + OwedPoints(last, ids, p)
  }

  /** That total splits into the other subjects' points and p on the whole retake weight. */
  lemma {:induction false} PointsWithRetakesAtSplits(subjects: seq<Subject>, ids: set<Id>, p: real)
    ensures PointsWithRetakesAt(subjects, ids, p) == NonRetakePoints(subjects, ids) + p * RetakeCoefficients(subjects, ids)
  {
    if |subjects| == 0 {
      assert p * 0.0 == 0.0;
    } else {
      var init, last := subjects[..|subjects| - 1], subjects[|subjects| - 1];
      PointsWithRetakesAtSplits(init, ids, p);
      var w0 := RetakeCoefficients(init, ids);
      var np0, q0 := NonRetakePoints(init, ids), PointsWithRetakesAt(init, ids, p);
      if last.id in ids {
        assert RetakeCoefficients(subjects, ids) == w0 + last.coefficient;
        assert NonRetakePoints(subjects, ids) == np0;
        assert PointsWithRetakesAt(subjects, ids, p) == q0 + p * last.coefficient;
        assert p * (w0 + last.coefficient) == p * w0 + p * last.coefficient;
      } else {
        assert RetakeCoefficients(subjects, ids) == w0;
        assert PointsWithRetakesAt(subjects, ids, p) - q0 == NonRetakePoints(subjects, ids) - np0;
      }
    }
  }

  /** Σ f over a list of subjects. */
  function SumOver(xs: seq<Subject>, f: Subject -> real): real
  {
    if |xs| == 0 then 0.0 else SumOver(xs[..|xs| - 1], f) + f(xs[|xs| - 1])
  }

  /** Termwise domination of two equally long lists carries over to their sums. */
  lemma {:induction false} SumOverDominates(xs: seq<Subject>, ys: seq<Subject>, f: Subject -> real, g: Subject -> real)
    requires |xs| == |ys| && forall i :: 0 <= i < |xs| ==> f(xs[i]) >= g(ys[i])
    ensures SumOver(xs, f) >= SumOver(ys, g)
  {
    if |xs| > 0 {
      SumOverDominates(xs[..|xs| - 1], ys[..|ys| - 1], f, g);
    }
  }

  /** What one subject adds to the UE's running total. */
  function SubjectPoints(s: Subject): real
  {
    if FinalAverage(s).Some? then FinalAverage(s).value * s.coefficient else 0.0
  }

  /** The UE's running total is the sum of the subjects' shares. */
  lemma {:induction false} CompletedPointsIsSum(xs: seq<Subject>)
    ensures CompletedPoints(xs) == SumOver(xs, SubjectPoints)
  {
    if |xs| > 0 {
      CompletedPointsIsSum(xs[..|xs| - 1]);
    }
  }

  /** The owed total is the sum of the subjects' owed shares. */
  lemma {:induction false} PointsWithRetakesAtIsSum(subjects: seq<Subject>, ids: set<Id>, p: real)
    ensures PointsWithRetakesAt(subjects, ids, p) == SumOver(subjects, s => OwedPoints(s, ids, p))
  {
    if |subjects| > 0 {
      PointsWithRetakesAtIsSum(subjects[..|subjects| - 1], ids, p);
    }
  }

  /**
   * On a fully graded list whose retake ids name only subjects that need a
   * retake, entering p on each of them earns at least `PointsWithRetakesAt`.
   */
  lemma RetakenPointsAtLeast(subjects: seq<Subject>, ids: set<Id>, p: real)
    requires PositiveCoefficients(subjects) && !HasIncompleteSubject(subjects)
    requires forall i :: 0 <= i < |subjects| && subjects[i].id in ids ==> NeedsRetake(subjects[i])
    ensures CompletedPoints(RetakenSubjects(subjects, GradesFor(ids, p))) >= PointsWithRetakesAt(subjects, ids, p)
  {
    var applied := RetakenSubjects(subjects, GradesFor(ids, p));
    var owed := s => OwedPoints(s, ids, p);
    forall i | 0 <= i < |subjects| ensures SubjectPoints(applied[i]) >= owed(subjects[i]) {
      assert FinalAverage(subjects[i]).Some?;
      RetakenPointsStep(subjects[i], applied[i], ids, p);
    }
    CompletedPointsIsSum(applied);
    PointsWithRetakesAtIsSum(subjects, ids, p);
    SumOverDominates(applied, subjects, SubjectPoints, owed);
  }

  /** A graded subject, once its retake is entered as `a`, earns at least what it owes. */
  lemma RetakenPointsStep(s: Subject, a: Subject, ids: set<Id>, p: real)
    requires a == ApplyRetake(s, GradesFor(ids, p))
    requires s.coefficient > 0.0 && FinalAverage(s).Some? && (s.id in ids ==> NeedsRetake(s))
    ensures FinalAverage(a).Some?
    ensures FinalAverage(a).value * a.coefficient >=
      if s.id in ids then p * s.coefficient else FinalAverage(s).value * s.coefficient
  {
    if s.id in ids {
      assert FinalAverage(a).value >= p;
      assert (FinalAverage(a).value - p) * s.coefficient >= 0.0;
    }
  }

  /** A weighted total of at least m times a positive weight has a mean of at least m. */
  lemma MeanAtLeast(points: real, weight: real, m: real)
    requires weight > 0.0 && points >= m * weight
    ensures points / weight >= m
  {
    var q := points / weight;
    assert q * weight == points;
  }

  /**
   * Entering a retake grade p of at least 7 on exactly the subjects that need a
   * retake, with p at least a grade g solving the pass-mark equation, validates
   * a UE whose subjects all have both regular grades.
   */
  lemma RetakeGradesValidate(ue: UE, ids: set<Id>, p: real, g: real)
    requires |ue.subjects| > 0 && PositiveCoefficients(ue.subjects) && !HasIncompleteSubject(ue.subjects)
    requires forall i :: 0 <= i < |ue.subjects| ==> (ue.subjects[i].id in ids <==> NeedsRetake(ue.subjects[i]))
    requires p >= SubjectPassMark && p >= g
    requires ReachesPassMark(ue.subjects, g, RetakeCoefficients(ue.subjects, ids), NonRetakePoints(ue.subjects, ids))
    ensures IsUEValidated(WithRetakeGrades(ue, GradesFor(ids, p)))
  {
    var grades := GradesFor(ids, p);
    var r := WithRetakeGrades(ue, grades);
    forall i | 0 <= i < |r.subjects|
      ensures FinalAverage(r.subjects[i]).Some? && IsSubjectValidated(r.subjects[i])
    {
      assert FinalAverage(ue.subjects[i]).Some?;
    }
    assert !HasIncompleteSubject(r.subjects);
    CompleteCoefficientsAreAll(r.subjects);
    RetakesKeepCoefficientSum(ue.subjects, grades);
    CoefficientSumPositive(ue.subjects);
    RetakenPointsAtLeast(ue.subjects, ids, p);
    PointsWithRetakesAtSplits(ue.subjects, ids, p);
    RetakeCoefficientsPositive(ue.subjects, ids);
    var c, w := CoefficientSum(ue.subjects), RetakeCoefficients(ue.subjects, ids);
    assert (p - g) * w >= 0.0;
    MeanAtLeast(CompletedPoints(r.subjects), c, UEPassMark);
  }

  /** With distinct ids, the retake ids name exactly the subjects that need a retake. */
  lemma RetakeIdsExact(subjects: seq<Subject>)
    requires DistinctSubjectIds(subjects)
    ensures forall i :: 0 <= i < |subjects| ==>
      (subjects[i].id in RetakeIds(RetakeSubjects(subjects)) <==> NeedsRetake(subjects[i]))
  {
    var retake := RetakeSubjects(subjects);
    forall i | 0 <= i < |subjects|
      ensures subjects[i].id in RetakeIds(retake) <==> NeedsRetake(subjects[i])
    {
      if subjects[i].id in RetakeIds(retake) {
        var x :| x in retake && x.id == subjects[i].id;
        var j :| 0 <= j < |subjects| && subjects[j] == x;
        assert i == j;
      }
      if NeedsRetake(subjects[i]) {
        assert subjects[i] in retake;
      }
    }
  }

  /**
   * Several subjects to retake, every subject graded and ids distinct: when the
   * simulator answers "possible", entering its proposal validates the UE.
   */
  lemma MultiRetakeProposalValidates(ue: UE)
    requires PositiveCoefficients(ue.subjects) && |RetakeSubjects(ue.subjects)| >= 2
    requires DistinctSubjectIds(ue.subjects) && !HasIncompleteSubject(ue.subjects)
    requires Simulate(ue).isPossible
    ensures IsUEValidated(WithRetakeGrades(ue, Simulate(ue).minimumGrades))
  {
    var ids := RetakeIdsOf(ue);
    RetakeWeightPositive(ue.subjects);
    var g := MultiRetakeTarget(ue.subjects, ids);
    TargetSolves(ue.subjects, NonRetakePoints(ue.subjects, ids), RetakeCoefficients(ue.subjects, ids), g);
    assert Simulate(ue) == MultiRetakeResult(g, ids);
    var p := Max(SubjectPassMark, RoundUpToHalf(g));
    assert Simulate(ue).minimumGrades == GradesFor(ids, p);
    RetakeIdsExact(ue.subjects);
    RetakeGradesValidate(ue, ids, p, g);
  }

  /** The single-retake equation is the multi-retake one with the retaken id alone. */
  lemma {:induction false} PointsExceptIsNonRetake(subjects: seq<Subject>, id: Id)
    ensures PointsExcept(subjects, id) == NonRetakePoints(subjects, {id})
  {
    if |subjects| > 0 {
      PointsExceptIsNonRetake(subjects[..|subjects| - 1], id);
    }
  }

  /** Subjects outside the retake ids add no retake weight. */
  lemma {:induction false} NoRetakeCoefficients(subjects: seq<Subject>, ids: set<Id>)
    requires forall i :: 0 <= i < |subjects| ==> subjects[i].id !in ids
    ensures RetakeCoefficients(subjects, ids) == 0.0
  {
    if |subjects| > 0 {
      var init := subjects[..|subjects| - 1];
      assert forall i :: 0 <= i < |init| ==> init[i] == subjects[i];
      NoRetakeCoefficients(init, ids);
    }
  }

  /** With distinct ids, the retake weight of one subject's id is that subject's coefficient. */
  lemma {:induction false} RetakeCoefficientsOfOne(subjects: seq<Subject>, k: nat)
    requires DistinctSubjectIds(subjects) && k < |subjects|
    ensures RetakeCoefficients(subjects, {subjects[k].id}) == subjects[k].coefficient
  {
    var n := |subjects| - 1;
    var init := subjects[..n];
    assert forall i :: 0 <= i < n ==> init[i] == subjects[i];
    if k == n {
      NoRetakeCoefficients(init, {subjects[k].id});
    } else {
      RetakeCoefficientsOfOne(init, k);
    }
  }

  /** With one subject to retake and distinct ids, its id names exactly the subject needing a retake. */
  lemma SingleRetakeIdExact(subjects: seq<Subject>)
    requires DistinctSubjectIds(subjects) && |RetakeSubjects(subjects)| == 1
    ensures forall i :: 0 <= i < |subjects| ==>
      (subjects[i].id in {RetakeSubjects(subjects)[0].id} <==> NeedsRetake(subjects[i]))
  {
    var retaken := RetakeSubjects(subjects)[0];
    RetakeIdsExact(subjects);
    assert RetakeIds(RetakeSubjects(subjects)) == {retaken.id} by {
      assert forall x :: x in RetakeSubjects(subjects) ==> x == retaken;
    }
  }

  /** The single-retake target solves the multi-retake equation for the retaken id alone. */
  lemma SingleRetakeEquation(ue: UE)
    requires PositiveCoefficients(ue.subjects) && |RetakeSubjects(ue.subjects)| == 1 && DistinctSubjectIds(ue.subjects)
    ensures var retaken := RetakeSubjects(ue.subjects)[0];
      && retaken.coefficient > 0.0
      && ReachesPassMark(ue.subjects, SingleRetakeTarget(ue.subjects, retaken),
           RetakeCoefficients(ue.subjects, {retaken.id}), NonRetakePoints(ue.subjects, {retaken.id}))
  {
    FirstRetakeSubject(ue);
    var retaken := RetakeSubjects(ue.subjects)[0];
    var k :| 0 <= k < |ue.subjects| && ue.subjects[k] == retaken;
    RetakeCoefficientsOfOne(ue.subjects, k);
    PointsExceptIsNonRetake(ue.subjects, retaken.id);
    TargetSolves(ue.subjects, PointsExcept(ue.subjects, retaken.id), retaken.coefficient, SingleRetakeTarget(ue.subjects, retaken));
  }

  /**
   * One subject to retake, every subject graded and ids distinct: when the
   * simulator answers "possible" with a proposal of at least 7, entering it
   * validates the UE. Below 7 it does not (SingleRetakeProposalNotFloored).
   */
  lemma SingleRetakeProposalValidates(ue: UE)
    requires PositiveCoefficients(ue.subjects) && |RetakeSubjects(ue.subjects)| == 1
    requires DistinctSubjectIds(ue.subjects) && !HasIncompleteSubject(ue.subjects)
    requires Simulate(ue).isPossible
    requires forall id :: id in Simulate(ue).minimumGrades ==> Simulate(ue).minimumGrades[id] >= SubjectPassMark
    ensures IsUEValidated(WithRetakeGrades(ue, Simulate(ue).minimumGrades))
  {
    FirstRetakeSubject(ue);
    var retaken := RetakeSubjects(ue.subjects)[0];
    var id := retaken.id;
    var g := SingleRetakeTarget(ue.subjects, retaken);
    var p := RoundUpToHalf(g);
    assert Simulate(ue).minimumGrades == GradesFor({id}, p) by {
      assert Simulate(ue) == SingleRetakeResult(g, id);
    }
    SingleRetakeIdExact(ue.subjects);
    SingleRetakeEquation(ue);
    RetakeGradesValidate(ue, {id}, p, g);
  }

  /** A graded subject that needs a retake, once a retake of at most 20 is entered, earns at most 20 per coefficient. */
  lemma RetakenPointsStepAtMost(s: Subject, a: Subject, ids: set<Id>, p: real)
    requires a == ApplyRetake(s, GradesFor(ids, p))
    requires s.coefficient > 0.0 && FinalAverage(s).Some? && (s.id in ids ==> NeedsRetake(s)) && p <= MaxGrade
    ensures SubjectPoints(a) <= OwedPoints(s, ids, MaxGrade)
  {
    if s.id in ids {
      assert FinalAverage(a).value <= MaxGrade;
      assert (MaxGrade - FinalAverage(a).value) * s.coefficient >= 0.0;
    }
  }

  /**
   * On a fully graded list whose retake ids name only subjects that need a
   * retake, entering a retake of at most 20 on each of them earns at most
   * `PointsWithRetakesAt` with 20 on every retake.
   */
  lemma RetakenPointsAtMost(subjects: seq<Subject>, ids: set<Id>, p: real)
    requires PositiveCoefficients(subjects) && !HasIncompleteSubject(subjects) && p <= MaxGrade
    requires forall i :: 0 <= i < |subjects| && subjects[i].id in ids ==> NeedsRetake(subjects[i])
    ensures CompletedPoints(RetakenSubjects(subjects, GradesFor(ids, p))) <= PointsWithRetakesAt(subjects, ids, MaxGrade)
  {
    var applied := RetakenSubjects(subjects, GradesFor(ids, p));
    var owed := s => OwedPoints(s, ids, MaxGrade);
    forall i | 0 <= i < |subjects| ensures owed(subjects[i]) >= SubjectPoints(applied[i]) {
      assert FinalAverage(subjects[i]).Some?;
      RetakenPointsStepAtMost(subjects[i], applied[i], ids, p);
    }
    CompletedPointsIsSum(applied);
    PointsWithRetakesAtIsSum(subjects, ids, MaxGrade);
    SumOverDominates(subjects, applied, owed, SubjectPoints);
  }

  /** A weighted total below m times a positive weight has a mean below m. */
  lemma MeanBelow(points: real, weight: real, m: real)
    requires weight > 0.0 && points < m * weight
    ensures points / weight < m
  {
    var q := points / weight;
    assert q * weight == points;
    var d := m - q;
    assert d * weight == m * weight - points;
  }

  /** A target above 20 leaves a shortfall even with 20 on the whole weight. */
  lemma ShortfallAboveMax(subjects: seq<Subject>, g: real, weight: real, others: real)
    requires weight > 0.0 && g > MaxGrade && ReachesPassMark(subjects, g, weight, others)
    ensures others + MaxGrade * weight < UEPassMark * CoefficientSum(subjects)
  {
    assert (g - MaxGrade) * weight > 0.0;
  }

  /**
   * When the simulator answers "impossible" for a UE with distinct ids, 20 on
   * every retake subject still leaves the UE's graded points short of 10 times
   * its coefficients.
   */
  lemma ImpossibleShortfall(ue: UE)
    requires PositiveCoefficients(ue.subjects) && DistinctSubjectIds(ue.subjects)
    requires |RetakeSubjects(ue.subjects)| > 0 && !Simulate(ue).isPossible
    ensures NonRetakePoints(ue.subjects, RetakeIdsOf(ue)) + MaxGrade * RetakeCoefficients(ue.subjects, RetakeIdsOf(ue))
      < UEPassMark * CoefficientSum(ue.subjects)
  {
    if |RetakeSubjects(ue.subjects)| == 1 {
      SingleImpossibleShortfall(ue);
    } else {
      var ids := RetakeIdsOf(ue);
      MultiRetakeOutcome(ue);
      ShortfallAboveMax(ue.subjects, MultiRetakeTarget(ue.subjects, ids), RetakeCoefficients(ue.subjects, ids),
        NonRetakePoints(ue.subjects, ids));
    }
  }

  /** The single-retake case of ImpossibleShortfall, where the retake ids hold one id. */
  lemma SingleImpossibleShortfall(ue: UE)
    requires PositiveCoefficients(ue.subjects) && DistinctSubjectIds(ue.subjects)
    requires |RetakeSubjects(ue.subjects)| == 1 && !Simulate(ue).isPossible
    ensures NonRetakePoints(ue.subjects, RetakeIdsOf(ue)) + MaxGrade * RetakeCoefficients(ue.subjects, RetakeIdsOf(ue))
      < UEPassMark * CoefficientSum(ue.subjects)
  {
    var retake := RetakeSubjects(ue.subjects);
    var retaken := retake[0];
    assert RetakeIdsOf(ue) == {retaken.id} by {
      assert forall x :: x in retake ==> x == retaken;
    }
    SingleRetakeOutcome(ue);
    var k :| 0 <= k < |ue.subjects| && ue.subjects[k] == retaken;
    RetakeCoefficientsOfOne(ue.subjects, k);
    PointsExceptIsNonRetake(ue.subjects, retaken.id);
    ShortfallAboveMax(ue.subjects, SingleRetakeTarget(ue.subjects, retaken), retaken.coefficient,
      PointsExcept(ue.subjects, retaken.id));
  }

  /**
   * The converse of the proposal lemmas: when the simulator answers
   * "impossible", no retake grade of at most 20 entered on the retake subjects
   * validates the UE. An ungraded subject stays without an average; otherwise
   * even 20 everywhere keeps the UE average below 10.
   */
  lemma ImpossibleRetakesCannotValidate(ue: UE, p: real)
    requires PositiveCoefficients(ue.subjects) && DistinctSubjectIds(ue.subjects)
    requires |RetakeSubjects(ue.subjects)| > 0 && !Simulate(ue).isPossible && p <= MaxGrade
    ensures !IsUEValidated(WithRetakeGrades(ue, GradesFor(RetakeIdsOf(ue), p)))
  {
    var ids := RetakeIdsOf(ue);
    var r := WithRetakeGrades(ue, GradesFor(ids, p));
    if HasIncompleteSubject(ue.subjects) {
      var i :| 0 <= i < |ue.subjects| && FinalAverage(ue.subjects[i]).None?;
      assert InitialAverage(r.subjects[i]) == InitialAverage(ue.subjects[i]);
      assert !IsSubjectValidated(r.subjects[i]);
    } else {
      ImpossibleShortfall(ue);
      RetakeIdsExact(ue.subjects);
      RetakenPointsAtMost(ue.subjects, ids, p);
      PointsWithRetakesAtSplits(ue.subjects, ids, MaxGrade);
      RetakesKeepCoefficientSum(ue.subjects, GradesFor(ids, p));
      CoefficientSumPositive(ue.subjects);
      UEAverageDefined(r);
      if UEAverage(r).Some? {
        MeanBelow(CompletedPoints(r.subjects), CoefficientSum(ue.subjects), UEPassMark);
      }
    }
  }

  /**
   * A UE whose one subject has an interrogation of 5 and no devoir: the subject
   * needs a retake and the simulator answers "possible" with 10, yet a retake
   * of 20 leaves the UE invalid, since without a devoir the subject has no
   * average whatever its retake grade.
   */
  lemma UngradedSubjectDeclaredReachable()
    ensures var s := Subject("s", "S", 1.0, "u", Some(5.0), None, None);
      var ue := UE("u", "UE", 6.0, "s1", [s]);
      && Simulate(ue) == SimulationResult(map["s" := 10.0], true)
      && !IsUEValidated(WithRetakeGrades(ue, map["s" := 20.0]))
  {
    var s := Subject("s", "S", 1.0, "u", Some(5.0), None, None);
    var subjects := [s];
    assert subjects[..0] == [];
    assert RetakeSubjects(subjects) == [s];
    assert CoefficientSum(subjects) == 1.0;
    assert PointsExcept(subjects, "s") == 0.0;
    assert SingleRetakeTarget(subjects, s) == 10.0;
    var r := RoundUpToHalf(10.0);
    var k := (2.0 * r).Floor;
    assert 20.0 <= k as real < 21.0;
    assert k == 20;
    assert r == 10.0;
    var ue' := WithRetakeGrades(UE("u", "UE", 6.0, "s1", subjects), map["s" := 20.0]);
    assert ue'.subjects[0] == s.(rattrapage := Some(20.0));
    assert !IsSubjectValidated(ue'.subjects[0]);
  }
}
