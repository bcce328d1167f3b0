/**
 * The academic store: the list of academic years the provider holds in its
 * state, the CRUD operations that rebuild it, the lookups that walk it and the
 * decorated views built from what they find (src/contexts/AcademicContext.tsx).
 */
module Store {
  import opened Wrappers
  import opened Types
  import opened GradeEngine
  import opened Projections
  import opened AcademicTree
  import opened AcademicOperations
  import Simulator

  /** Creating an academic year needs a signed-in user. */
  datatype AuthError = NoUserSignedIn

  class AcademicStore {
    var academicYears: seq<AcademicYear>

    constructor(initial: seq<AcademicYear>)
      ensures academicYears == initial
    {
      academicYears := initial;
    }

    // ---------------------------------------------------------- academic years

    /**
     * Appends a new, empty year owned by the signed-in user; without a user
     * nothing changes. `newId` stands for the timestamp the source uses.
     */
    method CreateAcademicYear(currentUser: Option<Id>, newId: Id, title: string)
      returns (r: Result<AcademicYear, AuthError>)
      modifies this
      ensures currentUser.None? ==> r == Err(NoUserSignedIn) && academicYears == old(academicYears)
      ensures currentUser.Some? ==>
        && r == Ok(AcademicYear(newId, title, currentUser.value, []))
        && academicYears == AddYear(old(academicYears), r.value)
    {
      if currentUser.None? {
        return Err(NoUserSignedIn);
      }
      var newYear := AcademicYear(newId, title, currentUser.value, []);
      academicYears := academicYears + [newYear];
      return Ok(newYear);
    }

    method UpdateAcademicYear(id: Id, title: string)
      modifies this
      ensures academicYears == RenameYear(old(academicYears), id, title)
    {
      academicYears := RenameYear(academicYears, id, title);
    }

    method DeleteAcademicYear(id: Id)
      modifies this
      ensures academicYears == RemoveYear(old(academicYears), id)
    {
      academicYears := RemoveYear(academicYears, id);
    }

    function GetAcademicYear(id: Id): (r: Option<AcademicYear>)
      reads this
      ensures r.None? <==> forall i :: 0 <= i < |academicYears| ==> academicYears[i].id != id
      ensures r.Some? ==> r.value in academicYears && r.value.id == id
      ensures r.Some? ==> exists k ::
        0 <= k < |academicYears| && academicYears[k] == r.value && forall j :: 0 <= j < k ==> academicYears[j].id != id
    {
      FindYear(academicYears, id)
    }

    function GetAcademicYearWithCalculations(id: Id): (r: Option<AcademicYearWithCalculations>)
      reads this
      ensures r.None? <==> GetAcademicYear(id).None?
      ensures r.Some? ==> RawAcademicYear(r.value) == GetAcademicYear(id).value
      ensures r.Some? ==> r.value.totalCredits == YearTotalCredits
      ensures r.Some? ==> r.value.validatedCredits == YearValidatedCredits(GetAcademicYear(id).value.semesters)
      ensures r.Some? ==> (r.value.canProgress <==> CanProgress(GetAcademicYear(id).value))
    {
      var year := GetAcademicYear(id);
      if year.None? then None
      else
        YearViewKeepsRawFields(year.value);
        YearViewCredits(year.value);
        Some(AcademicYearWithCalculationsOf(year.value))
    }

    // --------------------------------------------------------------- semesters

    /**
     * Appends a new, empty semester to every year with id `academicYearId`
     * and returns it, whether or not such a year exists.
     */
    method CreateSemester(academicYearId: Id, newId: Id, title: string) returns (semester: Semester)
      modifies this
      ensures semester == Semester(newId, title, academicYearId, [])
      ensures academicYears == AddSemester(old(academicYears), academicYearId, semester)
    {
      semester := Semester(newId, title, academicYearId, []);
      academicYears := AddSemester(academicYears, academicYearId, semester);
    }

    method UpdateSemester(id: Id, title: string)
      modifies this
      ensures academicYears == RenameSemester(old(academicYears), id, title)
    {
      academicYears := RenameSemester(academicYears, id, title);
    }

    method DeleteSemester(id: Id)
      modifies this
      ensures academicYears == RemoveSemester(old(academicYears), id)
    {
      academicYears := RemoveSemester(academicYears, id);
    }

    /** Walks the years in order and returns the first semester with `id`. */
    method GetSemester(id: Id) returns (r: Option<Semester>)
      ensures r == FindSemester(academicYears, id)
    {
      var i := 0;
      while i < |academicYears|
        invariant 0 <= i <= |academicYears|
        invariant FindById(SemestersOf(academicYears[..i]), SemesterId, id).None?
      {
        var year := academicYears[i];
        var semester := FindById(year.semesters, SemesterId, id);
        SemestersAround(academicYears, i);
        FindInConcat(SemestersOf(academicYears[..i]), year.semesters + SemestersOf(academicYears[i + 1..]), SemesterId, id);
        FindInConcat(year.semesters, SemestersOf(academicYears[i + 1..]), SemesterId, id);
        if semester.Some? {
          return semester;
        }
        FindInConcat(SemestersOf(academicYears[..i]), year.semesters, SemesterId, id);
        i := i + 1;
      }
      assert academicYears[..i] == academicYears;
      return None;
    }

    function GetSemesterWithCalculations(id: Id): (r: Option<SemesterWithCalculations>)
      reads this
      ensures r.None? <==> FindSemester(academicYears, id).None?
      ensures r.Some? ==> RawSemester(r.value) == FindSemester(academicYears, id).value
      ensures r.Some? ==> r.value.totalCredits == TotalCredits(FindSemester(academicYears, id).value.ues)
      ensures r.Some? ==> r.value.validatedCredits == ValidatedCredits(FindSemester(academicYears, id).value.ues)
      ensures r.Some? ==> r.value.average == SemesterAverage(FindSemester(academicYears, id).value)
    {
      var semester := FindSemester(academicYears, id);
      if semester.None? then None
      else
        SemesterViewKeepsRawFields(semester.value);
        ViewCreditsAgree(semester.value.ues);
        Some(SemesterWithCalculationsOf(semester.value))
    }

    // --------------------------------------------------------------------- UEs

    /** Appends a new, empty UE to every semester with id `semesterId` and returns it. */
    method CreateUE(semesterId: Id, newId: Id, name: string, credits: real) returns (ue: UE)
      modifies this
      ensures ue == UE(newId, name, credits, semesterId, [])
      ensures academicYears == AddUE(old(academicYears), semesterId, ue)
    {
      ue := UE(newId, name, credits, semesterId, []);
      academicYears := AddUE(academicYears, semesterId, ue);
    }

    method UpdateUE(id: Id, name: string, credits: real)
      modifies this
      ensures academicYears == AcademicOperations.UpdateUE(old(academicYears), id, name, credits)
    {
      academicYears := AcademicOperations.UpdateUE(academicYears, id, name, credits);
    }

    method DeleteUE(id: Id)
      modifies this
      ensures academicYears == RemoveUE(old(academicYears), id)
    {
      academicYears := RemoveUE(academicYears, id);
    }

    /** Walks years, then their semesters, and returns the first UE with `id`. */
    method GetUE(id: Id) returns (r: Option<UE>)
      ensures r == FindUE(academicYears, id)
    {
      var i := 0;
      while i < |academicYears|
        invariant 0 <= i <= |academicYears|
        invariant FindById(UEsOf(SemestersOf(academicYears[..i])), UEId, id).None?
      {
        var semesters := academicYears[i].semesters;
        var ue := FindUEInSemesters(semesters, id);
        if ue.Some? {
          UEFoundInYear(academicYears, i, id);
          return ue;
        }
        UEsOfYearsPrefix(academicYears, i);
        FindInConcat(UEsOf(SemestersOf(academicYears[..i])), UEsOf(semesters), UEId, id);
        i := i + 1;
      }
      assert academicYears[..i] == academicYears;
      return None;
    }

    function GetUEWithCalculations(id: Id): (r: Option<UEWithCalculations>)
      reads this
      ensures r.None? <==> FindUE(academicYears, id).None?
      ensures r.Some? ==> RawUE(r.value) == FindUE(academicYears, id).value
      ensures r.Some? ==> (r.value.isValid <==> IsUEValidated(FindUE(academicYears, id).value))
      ensures r.Some? ==> r.value.average == UEAverage(FindUE(academicYears, id).value)
    {
      var ue := FindUE(academicYears, id);
      if ue.None? then None
      else
        UEViewKeepsRawFields(ue.value);
        Some(UEWithCalculationsOf(ue.value))
    }

    // ---------------------------------------------------------------- subjects

    /** Appends a new subject without grades to every UE with id `ueId` and returns it. */
    method CreateSubject(ueId: Id, newId: Id, name: string, coefficient: real) returns (subject: Subject)
      modifies this
      ensures subject == Subject(newId, name, coefficient, ueId, None, None, None)
      ensures academicYears == AddSubject(old(academicYears), ueId, subject)
    {
      subject := Subject(newId, name, coefficient, ueId, None, None, None);
      academicYears := AddSubject(academicYears, ueId, subject);
    }

    method UpdateSubject(id: Id, name: string, coefficient: real)
      modifies this
      ensures academicYears == AcademicOperations.UpdateSubject(old(academicYears), id, name, coefficient)
    {
      academicYears := AcademicOperations.UpdateSubject(academicYears, id, name, coefficient);
    }

    method UpdateSubjectGrades(id: Id, interrogation: Option<real>, devoir: Option<real>, rattrapage: Option<real>)
      modifies this
      ensures academicYears ==
        AcademicOperations.UpdateSubjectGrades(old(academicYears), id, interrogation, devoir, rattrapage)
    {
      academicYears := AcademicOperations.UpdateSubjectGrades(academicYears, id, interrogation, devoir, rattrapage);
    }

    method DeleteSubject(id: Id)
      modifies this
      ensures academicYears == RemoveSubject(old(academicYears), id)
    {
      academicYears := RemoveSubject(academicYears, id);
    }

    /** Walks years, semesters, then UEs, and returns the first subject with `id`. */
    method GetSubject(id: Id) returns (r: Option<Subject>)
      ensures r == FindSubject(academicYears, id)
    {
      var i := 0;
      while i < |academicYears|
        invariant 0 <= i <= |academicYears|
        invariant FindById(SubjectsOf(UEsOf(SemestersOf(academicYears[..i]))), SubjectId, id).None?
      {
        var semesters := academicYears[i].semesters;
        var j := 0;
        while j < |semesters|
          invariant 0 <= j <= |semesters|
          invariant FindById(SubjectsOf(UEsOf(semesters[..j])), SubjectId, id).None?
        {
          var ues := semesters[j].ues;
          var subject := FindSubjectInUEs(ues, id);
          if subject.Some? {
            SubjectFoundInSemester(semesters, j, id);
            SubjectFoundInYear(academicYears, i, id);
            return subject;
          }
          SubjectsOfSemestersPrefix(semesters, j);
          FindInConcat(SubjectsOf(UEsOf(semesters[..j])), SubjectsOf(ues), SubjectId, id);
          j := j + 1;
        }
        assert semesters[..j] == semesters;
        SubjectsOfYearsPrefix(academicYears, i);
        FindInConcat(SubjectsOf(UEsOf(SemestersOf(academicYears[..i]))), SubjectsOf(UEsOf(semesters)), SubjectId, id);
        i := i + 1;
      }
      assert academicYears[..i] == academicYears;
      return None;
    }

    function GetSubjectWithCalculations(id: Id): (r: Option<SubjectWithCalculations>)
      reads this
      ensures r.None? <==> FindSubject(academicYears, id).None?
      ensures r.Some? ==> RawSubject(r.value) == FindSubject(academicYears, id).value
      ensures r.Some? ==> r.value.initialAverage == InitialAverage(FindSubject(academicYears, id).value)
      ensures r.Some? ==> r.value.finalAverage == FinalAverage(FindSubject(academicYears, id).value)
      ensures r.Some? ==> r.value.status == SubjectStatus(FindSubject(academicYears, id).value)
      ensures r.Some? ==> (r.value.status == Danger <==>
        r.value.finalAverage.Some? && r.value.finalAverage.value < SubjectPassMark)
    {
      var subject := FindSubject(academicYears, id);
      if subject.None? then None
      else
        SubjectViewKeepsRawFields(subject.value);
        Some(SubjectWithCalculationsOf(subject.value))
    }

    // -------------------------------------------------------------- simulation

    /** An unknown UE gives no proposal and "impossible"; otherwise the UE is simulated. */
    method SimulateMinimumGrades(ueId: Id) returns (result: SimulationResult)
      requires FindUE(academicYears, ueId).Some? ==> PositiveCoefficients(FindUE(academicYears, ueId).value.subjects)
      ensures FindUE(academicYears, ueId).None? ==> result == SimulationResult(map[], false)
      ensures FindUE(academicYears, ueId).Some? ==> result == Simulator.Simulate(FindUE(academicYears, ueId).value)
    {
      var ue := GetUE(ueId);
      if ue.None? {
        return SimulationResult(map[], false);
      }
      result := Simulator.SimulateMinimumGrades(ue.value);
    }
  }

  // ------------------------------------------------- walking the tree in parts

  /** The inner walk of `getUE`: the first UE with `id` over the semesters, in order. */
  method FindUEInSemesters(semesters: seq<Semester>, id: Id) returns (r: Option<UE>)
    ensures r == FindById(UEsOf(semesters), UEId, id)
  {
    var j := 0;
    while j < |semesters|
      invariant 0 <= j <= |semesters|
      invariant FindById(UEsOf(semesters[..j]), UEId, id).None?
    {
      var ue := FindById(semesters[j].ues, UEId, id);
      UEsAround(semesters, j);
      if ue.Some? {
        FoundAfterNothing(UEsOf(semesters[..j]), semesters[j].ues, UEsOf(semesters[j + 1..]), UEId, id);
        return ue;
      }
      FindInConcat(UEsOf(semesters[..j]), semesters[j].ues, UEId, id);
      j := j + 1;
    }
    assert semesters[..j] == semesters;
    return None;
  }

  /** The innermost walk of `getSubject`: the first subject with `id` over the UEs, in order. */
  method FindSubjectInUEs(ues: seq<UE>, id: Id) returns (r: Option<Subject>)
    ensures r == FindById(SubjectsOf(ues), SubjectId, id)
  {
    var k := 0;
    while k < |ues|
      invariant 0 <= k <= |ues|
      invariant FindById(SubjectsOf(ues[..k]), SubjectId, id).None?
    {
      var subject := FindById(ues[k].subjects, SubjectId, id);
      SubjectsAround(ues, k);
      if subject.Some? {
        FoundAfterNothing(SubjectsOf(ues[..k]), ues[k].subjects, SubjectsOf(ues[k + 1..]), SubjectId, id);
        return subject;
      }
      FindInConcat(SubjectsOf(ues[..k]), ues[k].subjects, SubjectId, id);
      k := k + 1;
    }
    assert ues[..k] == ues;
    return None;
  }

  lemma SemestersAround(ys: seq<AcademicYear>, i: nat)
    requires i < |ys|
    ensures SemestersOf(ys) == SemestersOf(ys[..i]) + (ys[i].semesters + SemestersOf(ys[i + 1..]))
    ensures SemestersOf(ys[..i + 1]) == SemestersOf(ys[..i]) + ys[i].semesters
  {
    assert ys == ys[..i] + ys[i..];
    SemestersOfConcat(ys[..i], ys[i..]);
    assert ys[i..][0] == ys[i] && ys[i..][1..] == ys[i + 1..];
    assert ys[..i + 1] == ys[..i] + [ys[i]];
    SemestersOfConcat(ys[..i], [ys[i]]);
    assert [ys[i]][1..] == [];
  }

  lemma UEsAround(ss: seq<Semester>, j: nat)
    requires j < |ss|
    ensures UEsOf(ss) == UEsOf(ss[..j]) + (ss[j].ues + UEsOf(ss[j + 1..]))
    ensures UEsOf(ss[..j + 1]) == UEsOf(ss[..j]) + ss[j].ues
  {
    assert ss == ss[..j] + ss[j..];
    UEsOfConcat(ss[..j], ss[j..]);
    assert ss[j..][0] == ss[j] && ss[j..][1..] == ss[j + 1..];
    assert ss[..j + 1] == ss[..j] + [ss[j]];
    UEsOfConcat(ss[..j], [ss[j]]);
    assert [ss[j]][1..] == [];
  }

  lemma SubjectsAround(us: seq<UE>, k: nat)
    requires k < |us|
    ensures SubjectsOf(us) == SubjectsOf(us[..k]) + (us[k].subjects + SubjectsOf(us[k + 1..]))
    ensures SubjectsOf(us[..k + 1]) == SubjectsOf(us[..k]) + us[k].subjects
  {
    assert us == us[..k] + us[k..];
    SubjectsOfConcat(us[..k], us[k..]);
    assert us[k..][0] == us[k] && us[k..][1..] == us[k + 1..];
    assert us[..k + 1] == us[..k] + [us[k]];
    SubjectsOfConcat(us[..k], [us[k]]);
    assert [us[k]][1..] == [];
  }

  /** The UEs of the first i + 1 years are those of the first i, then those of year i. */
  lemma UEsOfYearsPrefix(ys: seq<AcademicYear>, i: nat)
    requires i < |ys|
    ensures UEsOf(SemestersOf(ys[..i + 1])) == UEsOf(SemestersOf(ys[..i])) + UEsOf(ys[i].semesters)
  {
    SemestersAround(ys, i);
    UEsOfConcat(SemestersOf(ys[..i]), ys[i].semesters);
  }

  /** A UE found in year i, with nothing found before it, is what the whole walk finds. */
  lemma UEFoundInYear(ys: seq<AcademicYear>, i: nat, id: Id)
    requires i < |ys|
    requires FindById(UEsOf(SemestersOf(ys[..i])), UEId, id).None?
    requires FindById(UEsOf(ys[i].semesters), UEId, id).Some?
    ensures FindUE(ys, id) == FindById(UEsOf(ys[i].semesters), UEId, id)
  {
    SemestersAround(ys, i);
    UEsOfConcat(SemestersOf(ys[..i]), ys[i].semesters + SemestersOf(ys[i + 1..]));
    UEsOfConcat(ys[i].semesters, SemestersOf(ys[i + 1..]));
    FindInConcat(UEsOf(ys[i].semesters), UEsOf(SemestersOf(ys[i + 1..])), UEId, id);
    FindInConcat(UEsOf(SemestersOf(ys[..i])), UEsOf(ys[i].semesters) + UEsOf(SemestersOf(ys[i + 1..])), UEId, id);
  }

  /** Nothing found in a prefix, something found in the next part: that is what the whole search finds. */
  lemma FoundAfterNothing<T>(before: seq<T>, part: seq<T>, after: seq<T>, idOf: T -> Id, id: Id)
    requires FindById(before, idOf, id).None?
    requires FindById(part, idOf, id).Some?
    ensures FindById(before + (part + after), idOf, id) == FindById(part, idOf, id)
  {
    FindInConcat(part, after, idOf, id);
    FindInConcat(before, part + after, idOf, id);
  }

  lemma SubjectsOfSemestersPrefix(ss: seq<Semester>, j: nat)
    requires j < |ss|
    ensures SubjectsOf(UEsOf(ss[..j + 1])) == SubjectsOf(UEsOf(ss[..j])) + SubjectsOf(ss[j].ues)
  {
    UEsAround(ss, j);
    SubjectsOfConcat(UEsOf(ss[..j]), ss[j].ues);
  }

  lemma SubjectsOfYearsPrefix(ys: seq<AcademicYear>, i: nat)
    requires i < |ys|
    ensures SubjectsOf(UEsOf(SemestersOf(ys[..i + 1]))) ==
      SubjectsOf(UEsOf(SemestersOf(ys[..i]))) + SubjectsOf(UEsOf(ys[i].semesters))
  {
    UEsOfYearsPrefix(ys, i);
    SubjectsOfConcat(UEsOf(SemestersOf(ys[..i])), UEsOf(ys[i].semesters));
  }

  /** A subject found in the UEs of semester j, with nothing found before it, is what the semester walk finds. */
  lemma SubjectFoundInSemester(ss: seq<Semester>, j: nat, id: Id)
    requires j < |ss|
    requires FindById(SubjectsOf(UEsOf(ss[..j])), SubjectId, id).None?
    requires FindById(SubjectsOf(ss[j].ues), SubjectId, id).Some?
    ensures FindById(SubjectsOf(UEsOf(ss)), SubjectId, id) == FindById(SubjectsOf(ss[j].ues), SubjectId, id)
  {
    UEsAround(ss, j);
    SubjectsOfConcat(UEsOf(ss[..j]), ss[j].ues + UEsOf(ss[j + 1..]));
    SubjectsOfConcat(ss[j].ues, UEsOf(ss[j + 1..]));
    FoundAfterNothing(SubjectsOf(UEsOf(ss[..j])), SubjectsOf(ss[j].ues), SubjectsOf(UEsOf(ss[j + 1..])), SubjectId, id);
  }

  /** A subject found in year i, with nothing found before it, is what the whole walk finds. */
  lemma SubjectFoundInYear(ys: seq<AcademicYear>, i: nat, id: Id)
    requires i < |ys|
    requires FindById(SubjectsOf(UEsOf(SemestersOf(ys[..i]))), SubjectId, id).None?
    requires FindById(SubjectsOf(UEsOf(ys[i].semesters)), SubjectId, id).Some?
    ensures FindSubject(ys, id) == FindById(SubjectsOf(UEsOf(ys[i].semesters)), SubjectId, id)
  {
    SemestersAround(ys, i);
    UEsOfConcat(SemestersOf(ys[..i]), ys[i].semesters + SemestersOf(ys[i + 1..]));
    UEsOfConcat(ys[i].semesters, SemestersOf(ys[i + 1..]));
    SubjectsOfConcat(UEsOf(SemestersOf(ys[..i])), UEsOf(ys[i].semesters) + UEsOf(SemestersOf(ys[i + 1..])));
    SubjectsOfConcat(UEsOf(ys[i].semesters), UEsOf(SemestersOf(ys[i + 1..])));
    FoundAfterNothing(SubjectsOf(UEsOf(SemestersOf(ys[..i]))), SubjectsOf(UEsOf(ys[i].semesters)),
      SubjectsOf(UEsOf(SemestersOf(ys[i + 1..]))), SubjectId, id);
  }
}
