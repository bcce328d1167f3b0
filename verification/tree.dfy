/**
 * The academic tree years → semesters → UEs → subjects as values, with the
 * nested map/filter rebuilds every create, update and delete performs and the
 * first-match lookups (src/contexts/AcademicContext.tsx).
 */
module AcademicTree {
  import opened Wrappers
  import opened Types

  // ------------------------------------------------------ generic sequences

  function MapSeq<T>(s: seq<T>, g: T -> T): (r: seq<T>)
    ensures |r| == |s|
    ensures forall i :: 0 <= i < |s| ==> r[i] == g(s[i])
  {
    seq(|s|, i requires 0 <= i < |s| => g(s[i]))
  }

  /** Position of the first element carrying `id`, or -1 (Array.prototype.find). */
  function IndexOfId<T>(s: seq<T>, idOf: T -> Id, id: Id): (k: int)
    ensures -1 <= k < |s|
    ensures k >= 0 ==> idOf(s[k]) == id && forall j :: 0 <= j < k ==> idOf(s[j]) != id
    ensures k < 0 ==> forall j :: 0 <= j < |s| ==> idOf(s[j]) != id
  {
    if |s| == 0 then -1
    else if idOf(s[0]) == id then 0
    else
      var k := IndexOfId(s[1..], idOf, id);
      if k < 0 then -1 else k + 1
  }

  /** The first element carrying `id`, if any (Array.prototype.find). */
  function FindById<T>(s: seq<T>, idOf: T -> Id, id: Id): (r: Option<T>)
    ensures r.None? <==> forall j :: 0 <= j < |s| ==> idOf(s[j]) != id
    ensures r.Some? ==> r.value in s && idOf(r.value) == id
    ensures r.Some? ==> exists k :: 0 <= k < |s| && s[k] == r.value && forall j :: 0 <= j < k ==> idOf(s[j]) != id
  {
    var k := IndexOfId(s, idOf, id);
    if k < 0 then None else Some(s[k])
  }

  /** The elements not carrying `id`, in order (Array.prototype.filter). */
  function WithoutId<T(!new)>(s: seq<T>, idOf: T -> Id, id: Id): (r: seq<T>)
    ensures forall x :: x in r <==> x in s && idOf(x) != id
    ensures |r| <= |s|
  {
    if |s| == 0 then []
    else if idOf(s[0]) == id then WithoutId(s[1..], idOf, id)
    else [s[0]] + WithoutId(s[1..], idOf, id)
  }

  lemma MapSeqConcat<T>(a: seq<T>, b: seq<T>, g: T -> T)
    ensures MapSeq(a + b, g) == MapSeq(a, g) + MapSeq(b, g)
  {
  }

  /** A step that leaves every element as it is leaves the sequence as it is. */
  lemma MapSeqIdentity<T>(s: seq<T>, g: T -> T)
    requires forall i :: 0 <= i < |s| ==> g(s[i]) == s[i]
    ensures MapSeq(s, g) == s
  {
    var r := MapSeq(s, g);
    assert |r| == |s|;
    forall i | 0 <= i < |s| ensures r[i] == s[i] {
      assert r[i] == g(s[i]);
    }
    assert r == s;
  }

  lemma {:induction false} WithoutIdConcat<T(!new)>(a: seq<T>, b: seq<T>, idOf: T -> Id, id: Id)
    ensures WithoutId(a + b, idOf, id) == WithoutId(a, idOf, id) + WithoutId(b, idOf, id)
  {
    if |a| == 0 {
      assert a + b == b;
    } else {
      assert (a + b)[0] == a[0] && (a + b)[1..] == a[1..] + b;
      WithoutIdConcat(a[1..], b, idOf, id);
    }
  }

  /** Filtering out an id nobody carries changes nothing. */
  lemma {:induction false} WithoutAbsentId<T(!new)>(s: seq<T>, idOf: T -> Id, id: Id)
    requires forall j :: 0 <= j < |s| ==> idOf(s[j]) != id
    ensures WithoutId(s, idOf, id) == s
  {
    if |s| > 0 {
      WithoutAbsentId(s[1..], idOf, id);
    }
  }

  /** An id-preserving step keeps the first match in place and transforms it. */
  lemma FindAfterMap<T>(s: seq<T>, g: T -> T, idOf: T -> Id, id: Id)
    requires forall x :: idOf(g(x)) == idOf(x)
    ensures FindById(MapSeq(s, g), idOf, id) ==
      if FindById(s, idOf, id).Some? then Some(g(FindById(s, idOf, id).value)) else None
  {
    var r := MapSeq(s, g);
    assert forall j :: 0 <= j < |s| ==> idOf(r[j]) == idOf(s[j]);
  }

  /** After filtering out an id it is no longer found; every other id is found as before. */
  lemma {:induction false} FindAfterRemoval<T(!new)>(s: seq<T>, idOf: T -> Id, removed: Id, id: Id)
    ensures FindById(WithoutId(s, idOf, removed), idOf, id) ==
      if id == removed then None else FindById(s, idOf, id)
  {
    if |s| > 0 && id != removed {
      FindAfterRemoval(s[1..], idOf, removed, id);
      if idOf(s[0]) != removed {
        var r := WithoutId(s, idOf, removed);
        assert r == [s[0]] + WithoutId(s[1..], idOf, removed);
        assert r[1..] == WithoutId(s[1..], idOf, removed);
        if idOf(s[0]) != id {
          assert IndexOfId(r, idOf, id) == if IndexOfId(r[1..], idOf, id) < 0 then -1 else IndexOfId(r[1..], idOf, id) + 1;
        }
      }
    }
  }

  /** An element that is the only one carrying its id is what a lookup finds. */
  lemma FindOnly<T>(s: seq<T>, idOf: T -> Id, x: T)
    requires x in s
    requires forall y :: y in s && idOf(y) == idOf(x) ==> y == x
    ensures FindById(s, idOf, idOf(x)) == Some(x)
  {
  }

  /** A lookup that finds nothing means no element carries the id. */
  lemma NotFoundIsAbsent<T>(s: seq<T>, idOf: T -> Id, id: Id, x: T)
    requires FindById(s, idOf, id).None?
    requires x in s
    ensures idOf(x) != id
  {
    var i :| 0 <= i < |s| && s[i] == x;
  }

  /** Appending never hides an earlier match; the appended element is found only when nothing was. */
  lemma FindInAppended<T>(s: seq<T>, x: T, idOf: T -> Id, id: Id)
    ensures FindById(s + [x], idOf, id) ==
      if FindById(s, idOf, id).None? && idOf(x) == id then Some(x) else FindById(s, idOf, id)
  {
    var r := s + [x];
    var k, k' := IndexOfId(s, idOf, id), IndexOfId(r, idOf, id);
    assert forall j :: 0 <= j < |s| ==> r[j] == s[j];
    assert r[|s|] == x;
    if k >= 0 {
      assert idOf(r[k]) == id;
      assert k' == k;
    } else if idOf(x) == id {
      assert k' == |s|;
    }
  }

  // ----------------------------------------------------------------- ids

  function YearId(y: AcademicYear): Id { y.id }
  function SemesterId(s: Semester): Id { s.id }
  function UEId(u: UE): Id { u.id }
  function SubjectId(s: Subject): Id { s.id }

  // ------------------------------------------------------------ flattening

  /** Every semester, year by year. */
  function SemestersOf(ys: seq<AcademicYear>): seq<Semester>
  {
    if |ys| == 0 then [] else ys[0].semesters + SemestersOf(ys[1..])
  }

  /** Every UE, semester by semester. */
  function UEsOf(ss: seq<Semester>): seq<UE>
  {
    if |ss| == 0 then [] else ss[0].ues + UEsOf(ss[1..])
  }

  /** Every subject, UE by UE. */
  function SubjectsOf(us: seq<UE>): seq<Subject>
  {
    if |us| == 0 then [] else us[0].subjects + SubjectsOf(us[1..])
  }

  function AllUEs(ys: seq<AcademicYear>): seq<UE>
  {
    UEsOf(SemestersOf(ys))
  }

  function AllSubjects(ys: seq<AcademicYear>): seq<Subject>
  {
    SubjectsOf(AllUEs(ys))
  }

  lemma {:induction false} InSemestersOf(ys: seq<AcademicYear>, x: Semester)
    ensures x in SemestersOf(ys) <==> exists i :: 0 <= i < |ys| && x in ys[i].semesters
  {
    if |ys| > 0 {
      InSemestersOf(ys[1..], x);
      if x in SemestersOf(ys[1..]) {
        var i :| 0 <= i < |ys[1..]| && x in ys[1..][i].semesters;
        assert x in ys[i + 1].semesters;
      }
      if exists i :: 0 <= i < |ys| && x in ys[i].semesters {
        var i :| 0 <= i < |ys| && x in ys[i].semesters;
        if i > 0 {
          assert x in ys[1..][i - 1].semesters;
        }
      }
    }
  }

  lemma InSemestersOfYears(ys: seq<AcademicYear>, x: Semester)
    ensures x in SemestersOf(ys) <==> exists y :: y in ys && x in y.semesters
  {
    InSemestersOf(ys, x);
    if exists y :: y in ys && x in y.semesters {
      var y :| y in ys && x in y.semesters;
      var i :| 0 <= i < |ys| && ys[i] == y;
    }
  }

  lemma {:induction false} InUEsOf(ss: seq<Semester>, x: UE)
    ensures x in UEsOf(ss) <==> exists j :: 0 <= j < |ss| && x in ss[j].ues
  {
    if |ss| > 0 {
      InUEsOf(ss[1..], x);
      if x in UEsOf(ss[1..]) {
        var j :| 0 <= j < |ss[1..]| && x in ss[1..][j].ues;
        assert x in ss[j + 1].ues;
      }
      if exists j :: 0 <= j < |ss| && x in ss[j].ues {
        var j :| 0 <= j < |ss| && x in ss[j].ues;
        if j > 0 {
          assert x in ss[1..][j - 1].ues;
        }
      }
    }
  }

  lemma {:induction false} InSubjectsOf(us: seq<UE>, x: Subject)
    ensures x in SubjectsOf(us) <==> exists k :: 0 <= k < |us| && x in us[k].subjects
  {
    if |us| > 0 {
      InSubjectsOf(us[1..], x);
      if x in SubjectsOf(us[1..]) {
        var k :| 0 <= k < |us[1..]| && x in us[1..][k].subjects;
        assert x in us[k + 1].subjects;
      }
      if exists k :: 0 <= k < |us| && x in us[k].subjects {
        var k :| 0 <= k < |us| && x in us[k].subjects;
        if k > 0 {
          assert x in us[1..][k - 1].subjects;
        }
      }
    }
  }

  lemma {:induction false} SemestersOfConcat(a: seq<AcademicYear>, b: seq<AcademicYear>)
    ensures SemestersOf(a + b) == SemestersOf(a) + SemestersOf(b)
  {
    if |a| == 0 {
      assert a + b == b;
    } else {
      assert (a + b)[0] == a[0] && (a + b)[1..] == a[1..] + b;
      SemestersOfConcat(a[1..], b);
    }
  }

  lemma {:induction false} UEsOfConcat(a: seq<Semester>, b: seq<Semester>)
    ensures UEsOf(a + b) == UEsOf(a) + UEsOf(b)
  {
    if |a| == 0 {
      assert a + b == b;
    } else {
      assert (a + b)[0] == a[0] && (a + b)[1..] == a[1..] + b;
      UEsOfConcat(a[1..], b);
    }
  }

  lemma {:induction false} SubjectsOfConcat(a: seq<UE>, b: seq<UE>)
    ensures SubjectsOf(a + b) == SubjectsOf(a) + SubjectsOf(b)
  {
    if |a| == 0 {
      assert a + b == b;
    } else {
      assert (a + b)[0] == a[0] && (a + b)[1..] == a[1..] + b;
      SubjectsOfConcat(a[1..], b);
    }
  }

  /** Searching a concatenation searches the first part, then the second. */
  lemma FindInConcat<T>(a: seq<T>, b: seq<T>, idOf: T -> Id, id: Id)
    ensures FindById(a + b, idOf, id) ==
      if FindById(a, idOf, id).Some? then FindById(a, idOf, id) else FindById(b, idOf, id)
  {
    var r := a + b;
    var k, kb, k' := IndexOfId(a, idOf, id), IndexOfId(b, idOf, id), IndexOfId(r, idOf, id);
    assert forall j :: 0 <= j < |a| ==> r[j] == a[j];
    assert forall j :: 0 <= j < |b| ==> r[|a| + j] == b[j];
    if k >= 0 {
      assert idOf(r[k]) == id;
      assert k' == k;
    } else if kb >= 0 {
      assert idOf(r[|a| + kb]) == id;
      assert k' == |a| + kb;
    } else {
      assert forall j :: 0 <= j < |r| ==> idOf(r[j]) != id by {
        forall j | 0 <= j < |r| ensures idOf(r[j]) != id {
          if j >= |a| {
            assert r[j] == b[j - |a|];
          }
        }
      }
    }
  }

  // --------------------------------------------------------- lookups (get*)

  function FindYear(ys: seq<AcademicYear>, id: Id): Option<AcademicYear>
  {
    FindById(ys, YearId, id)
  }

  /** First semester with `id`, scanning year by year. */
  function FindSemester(ys: seq<AcademicYear>, id: Id): Option<Semester>
  {
    FindById(SemestersOf(ys), SemesterId, id)
  }

  /** First UE with `id`, scanning year by year, then semester by semester. */
  function FindUE(ys: seq<AcademicYear>, id: Id): Option<UE>
  {
    FindById(AllUEs(ys), UEId, id)
  }

  /** First subject with `id`, scanning years, semesters, then UEs. */
  function FindSubject(ys: seq<AcademicYear>, id: Id): Option<Subject>
  {
    FindById(AllSubjects(ys), SubjectId, id)
  }

  // ------------------------------------------------------ nested rebuilds

  /** `years.map(year => ({...year, semesters: year.semesters.map(g)}))` */
  function MapSemesters(ys: seq<AcademicYear>, g: Semester -> Semester): seq<AcademicYear>
  {
    MapSeq(ys, InYear(g))
  }

  function InYear(g: Semester -> Semester): AcademicYear -> AcademicYear
  {
    (y: AcademicYear) => y.(semesters := MapSeq(y.semesters, g))
  }

  /** The same rebuild one level deeper: every UE of every semester goes through `g`. */
  function MapUEs(ys: seq<AcademicYear>, g: UE -> UE): seq<AcademicYear>
  {
    MapSemesters(ys, InSemester(g))
  }

  function InSemester(g: UE -> UE): Semester -> Semester
  {
    (s: Semester) => s.(ues := MapSeq(s.ues, g))
  }

  /** The same rebuild down to the subjects. */
  function MapSubjects(ys: seq<AcademicYear>, g: Subject -> Subject): seq<AcademicYear>
  {
    MapUEs(ys, InUE(g))
  }

  function InUE(g: Subject -> Subject): UE -> UE
  {
    (u: UE) => u.(subjects := MapSeq(u.subjects, g))
  }

  lemma {:induction false} SemestersOfMapSemesters(ys: seq<AcademicYear>, g: Semester -> Semester)
    ensures SemestersOf(MapSemesters(ys, g)) == MapSeq(SemestersOf(ys), g)
  {
    if |ys| > 0 {
      assert MapSemesters(ys, g)[1..] == MapSemesters(ys[1..], g);
      SemestersOfMapSemesters(ys[1..], g);
      MapSeqConcat(ys[0].semesters, SemestersOf(ys[1..]), g);
    }
  }

  lemma {:induction false} UEsOfInSemester(ss: seq<Semester>, g: UE -> UE)
    ensures UEsOf(MapSeq(ss, InSemester(g))) == MapSeq(UEsOf(ss), g)
  {
    if |ss| > 0 {
      assert MapSeq(ss, InSemester(g))[1..] == MapSeq(ss[1..], InSemester(g));
      UEsOfInSemester(ss[1..], g);
      MapSeqConcat(ss[0].ues, UEsOf(ss[1..]), g);
    }
  }

  lemma {:induction false} SubjectsOfInUE(us: seq<UE>, g: Subject -> Subject)
    ensures SubjectsOf(MapSeq(us, InUE(g))) == MapSeq(SubjectsOf(us), g)
  {
    if |us| > 0 {
      assert MapSeq(us, InUE(g))[1..] == MapSeq(us[1..], InUE(g));
      SubjectsOfInUE(us[1..], g);
      MapSeqConcat(us[0].subjects, SubjectsOf(us[1..]), g);
    }
  }

  /** Rebuilding every UE with `g` acts on the flat list of UEs exactly like mapping `g`. */
  lemma AllUEsOfMapUEs(ys: seq<AcademicYear>, g: UE -> UE)
    ensures AllUEs(MapUEs(ys, g)) == MapSeq(AllUEs(ys), g)
  {
    SemestersOfMapSemesters(ys, InSemester(g));
    UEsOfInSemester(SemestersOf(ys), g);
  }

  /** Rebuilding every subject with `g` acts on the flat list of subjects exactly like mapping `g`. */
  lemma AllSubjectsOfMapSubjects(ys: seq<AcademicYear>, g: Subject -> Subject)
    ensures AllSubjects(MapSubjects(ys, g)) == MapSeq(AllSubjects(ys), g)
  {
    AllUEsOfMapUEs(ys, InUE(g));
    SubjectsOfInUE(AllUEs(ys), g);
  }

  /** A semester step that changes no semester of the tree leaves the tree unchanged. */
  lemma MapSemestersIdentity(ys: seq<AcademicYear>, g: Semester -> Semester)
    requires forall x :: x in SemestersOf(ys) ==> g(x) == x
    ensures MapSemesters(ys, g) == ys
  {
    forall i | 0 <= i < |ys| ensures InYear(g)(ys[i]) == ys[i] {
      forall j | 0 <= j < |ys[i].semesters| ensures g(ys[i].semesters[j]) == ys[i].semesters[j] {
        InSemestersOf(ys, ys[i].semesters[j]);
      }
      MapSeqIdentity(ys[i].semesters, g);
    }
    MapSeqIdentity(ys, InYear(g));
  }

  /** A UE step that changes no UE of the tree leaves the tree unchanged. */
  lemma MapUEsIdentity(ys: seq<AcademicYear>, g: UE -> UE)
    requires forall x :: x in AllUEs(ys) ==> g(x) == x
    ensures MapUEs(ys, g) == ys
  {
    forall s | s in SemestersOf(ys) ensures InSemester(g)(s) == s {
      forall k | 0 <= k < |s.ues| ensures g(s.ues[k]) == s.ues[k] {
        InUEsOf(SemestersOf(ys), s.ues[k]);
      }
      MapSeqIdentity(s.ues, g);
    }
    MapSemestersIdentity(ys, InSemester(g));
  }

  /** A subject step that changes no subject of the tree leaves the tree unchanged. */
  lemma MapSubjectsIdentity(ys: seq<AcademicYear>, g: Subject -> Subject)
    requires forall x :: x in AllSubjects(ys) ==> g(x) == x
    ensures MapSubjects(ys, g) == ys
  {
    forall u | u in AllUEs(ys) ensures InUE(g)(u) == u {
      forall k | 0 <= k < |u.subjects| ensures g(u.subjects[k]) == u.subjects[k] {
        InSubjectsOf(AllUEs(ys), u.subjects[k]);
      }
      MapSeqIdentity(u.subjects, g);
    }
    MapUEsIdentity(ys, InUE(g));
  }

  // ------------------------------------------------------ back-references

  predicate SubjectsBelong(u: UE)
  {
    forall x :: x in u.subjects ==> x.ueId == u.id
  }

  predicate UEsBelong(s: Semester)
  {
    forall u :: u in s.ues ==> u.semesterId == s.id && SubjectsBelong(u)
  }

  predicate SemestersBelong(y: AcademicYear)
  {
    forall s :: s in y.semesters ==> s.academicYearId == y.id && UEsBelong(s)
  }

  /** Every child's parent id names the parent it sits under. */
  predicate WellLinked(ys: seq<AcademicYear>)
  {
    forall y :: y in ys ==> SemestersBelong(y)
  }

  lemma WellLinkedMapSemesters(ys: seq<AcademicYear>, g: Semester -> Semester)
    requires WellLinked(ys)
    requires forall s :: s in SemestersOf(ys) ==> g(s).academicYearId == s.academicYearId && UEsBelong(g(s))
    ensures WellLinked(MapSemesters(ys, g))
  {
    var r := MapSemesters(ys, g);
    forall i | 0 <= i < |r| ensures SemestersBelong(r[i]) {
      assert r[i] == InYear(g)(ys[i]) && ys[i] in ys;
      forall j | 0 <= j < |r[i].semesters| ensures r[i].semesters[j].academicYearId == r[i].id && UEsBelong(r[i].semesters[j]) {
        var s := ys[i].semesters[j];
        InSemestersOf(ys, s);
        assert r[i].semesters[j] == g(s);
        assert s.academicYearId == ys[i].id;
      }
    }
  }

  lemma WellLinkedMapUEs(ys: seq<AcademicYear>, g: UE -> UE)
    requires WellLinked(ys)
    requires forall u :: u in AllUEs(ys) ==> g(u).semesterId == u.semesterId && SubjectsBelong(g(u))
    ensures WellLinked(MapUEs(ys, g))
  {
    forall s | s in SemestersOf(ys)
      ensures InSemester(g)(s).academicYearId == s.academicYearId && UEsBelong(InSemester(g)(s))
    {
      InSemestersOfYears(ys, s);
      var t := InSemester(g)(s);
      forall k | 0 <= k < |t.ues| ensures t.ues[k].semesterId == t.id && SubjectsBelong(t.ues[k]) {
        InUEsOf(SemestersOf(ys), s.ues[k]);
      }
    }
    WellLinkedMapSemesters(ys, InSemester(g));
  }

  lemma WellLinkedMapSubjects(ys: seq<AcademicYear>, g: Subject -> Subject)
    requires WellLinked(ys)
    requires forall x :: x in AllSubjects(ys) ==> g(x).ueId == x.ueId
    ensures WellLinked(MapSubjects(ys, g))
  {
    forall u | u in AllUEs(ys) ensures InUE(g)(u).semesterId == u.semesterId && SubjectsBelong(InUE(g)(u)) {
      InUEsOf(SemestersOf(ys), u);
      var j :| 0 <= j < |SemestersOf(ys)| && u in SemestersOf(ys)[j].ues;
      InSemestersOfYears(ys, SemestersOf(ys)[j]);
      var t := InUE(g)(u);
      forall k | 0 <= k < |t.subjects| ensures t.subjects[k].ueId == t.id {
        InSubjectsOf(AllUEs(ys), u.subjects[k]);
      }
    }
    WellLinkedMapUEs(ys, InUE(g));
  }
}

module AcademicOperations {
  import opened Wrappers
  import opened Types
  import opened AcademicTree

  // ------------------------------------------------------------ the steps

  function RenameYearStep(id: Id, title: string): AcademicYear -> AcademicYear
  {
    (y: AcademicYear) => if y.id == id then y.(title := title) else y
  }

  function AddSemesterStep(academicYearId: Id, semester: Semester): AcademicYear -> AcademicYear
  {
    (y: AcademicYear) => if y.id == academicYearId then y.(semesters := y.semesters + [semester]) else y
  }

  function RemoveSemesterStep(id: Id): AcademicYear -> AcademicYear
  {
    (y: AcademicYear) => y.(semesters := WithoutId(y.semesters, SemesterId, id))
  }

  function RenameSemesterStep(id: Id, title: string): Semester -> Semester
  {
    (s: Semester) => if s.id == id then s.(title := title) else s
  }

  function AddUEStep(semesterId: Id, ue: UE): Semester -> Semester
  {
    (s: Semester) => if s.id == semesterId then s.(ues := s.ues + [ue]) else s
  }

  function RemoveUEStep(id: Id): Semester -> Semester
  {
    (s: Semester) => s.(ues := WithoutId(s.ues, UEId, id))
  }

  function UpdateUEStep(id: Id, name: string, credits: real): UE -> UE
  {
    (u: UE) => if u.id == id then u.(name := name, credits := credits) else u
  }

  function AddSubjectStep(ueId: Id, subject: Subject): UE -> UE
  {
    (u: UE) => if u.id == ueId then u.(subjects := u.subjects + [subject]) else u
  }

  function RemoveSubjectStep(id: Id): UE -> UE
  {
    (u: UE) => u.(subjects := WithoutId(u.subjects, SubjectId, id))
  }

  function UpdateSubjectStep(id: Id, name: string, coefficient: real): Subject -> Subject
  {
    (x: Subject) => if x.id == id then x.(name := name, coefficient := coefficient) else x
  }

  function SetGradesStep(id: Id, interrogation: Option<real>, devoir: Option<real>, rattrapage: Option<real>): Subject -> Subject
  {
    (x: Subject) => if x.id == id then x.(interrogation := interrogation, devoir := devoir, rattrapage := rattrapage) else x
  }

  // ------------------------------------------------------- the operations

  function AddYear(ys: seq<AcademicYear>, year: AcademicYear): seq<AcademicYear>
  {
    ys + [year]
  }

  function RenameYear(ys: seq<AcademicYear>, id: Id, title: string): seq<AcademicYear>
  {
    MapSeq(ys, RenameYearStep(id, title))
  }

  function RemoveYear(ys: seq<AcademicYear>, id: Id): seq<AcademicYear>
  {
    WithoutId(ys, YearId, id)
  }

  function AddSemester(ys: seq<AcademicYear>, academicYearId: Id, semester: Semester): seq<AcademicYear>
  {
    MapSeq(ys, AddSemesterStep(academicYearId, semester))
  }

  function RenameSemester(ys: seq<AcademicYear>, id: Id, title: string): seq<AcademicYear>
  {
    MapSemesters(ys, RenameSemesterStep(id, title))
  }

  function RemoveSemester(ys: seq<AcademicYear>, id: Id): seq<AcademicYear>
  {
    MapSeq(ys, RemoveSemesterStep(id))
  }

  function AddUE(ys: seq<AcademicYear>, semesterId: Id, ue: UE): seq<AcademicYear>
  {
    MapSemesters(ys, AddUEStep(semesterId, ue))
  }

  function UpdateUE(ys: seq<AcademicYear>, id: Id, name: string, credits: real): seq<AcademicYear>
  {
    MapUEs(ys, UpdateUEStep(id, name, credits))
  }

  function RemoveUE(ys: seq<AcademicYear>, id: Id): seq<AcademicYear>
  {
    MapSemesters(ys, RemoveUEStep(id))
  }

  function AddSubject(ys: seq<AcademicYear>, ueId: Id, subject: Subject): seq<AcademicYear>
  {
    MapUEs(ys, AddSubjectStep(ueId, subject))
  }

  function UpdateSubject(ys: seq<AcademicYear>, id: Id, name: string, coefficient: real): seq<AcademicYear>
  {
    MapSubjects(ys, UpdateSubjectStep(id, name, coefficient))
  }

  function UpdateSubjectGrades(ys: seq<AcademicYear>, id: Id,
    interrogation: Option<real>, devoir: Option<real>, rattrapage: Option<real>): seq<AcademicYear>
  {
    MapSubjects(ys, SetGradesStep(id, interrogation, devoir, rattrapage))
  }

  function RemoveSubject(ys: seq<AcademicYear>, id: Id): seq<AcademicYear>
  {
    MapUEs(ys, RemoveSubjectStep(id))
  }

  // ------------------------------------------- removals on the flat lists

  lemma {:induction false} SemestersOfRemoveSemester(ys: seq<AcademicYear>, id: Id)
    ensures SemestersOf(RemoveSemester(ys, id)) == WithoutId(SemestersOf(ys), SemesterId, id)
  {
    if |ys| > 0 {
      assert RemoveSemester(ys, id)[1..] == RemoveSemester(ys[1..], id);
      SemestersOfRemoveSemester(ys[1..], id);
      WithoutIdConcat(ys[0].semesters, SemestersOf(ys[1..]), SemesterId, id);
    }
  }

  lemma {:induction false} UEsOfRemoveUE(ss: seq<Semester>, id: Id)
    ensures UEsOf(MapSeq(ss, RemoveUEStep(id))) == WithoutId(UEsOf(ss), UEId, id)
  {
    if |ss| > 0 {
      assert MapSeq(ss, RemoveUEStep(id))[1..] == MapSeq(ss[1..], RemoveUEStep(id));
      UEsOfRemoveUE(ss[1..], id);
      WithoutIdConcat(ss[0].ues, UEsOf(ss[1..]), UEId, id);
    }
  }

  lemma {:induction false} SubjectsOfRemoveSubject(us: seq<UE>, id: Id)
    ensures SubjectsOf(MapSeq(us, RemoveSubjectStep(id))) == WithoutId(SubjectsOf(us), SubjectId, id)
  {
    if |us| > 0 {
      assert MapSeq(us, RemoveSubjectStep(id))[1..] == MapSeq(us[1..], RemoveSubjectStep(id));
      SubjectsOfRemoveSubject(us[1..], id);
      WithoutIdConcat(us[0].subjects, SubjectsOf(us[1..]), SubjectId, id);
    }
  }

  /** Deleting a UE removes it from the flat list of UEs and keeps the others in order. */
  lemma AllUEsOfRemoveUE(ys: seq<AcademicYear>, id: Id)
    ensures AllUEs(RemoveUE(ys, id)) == WithoutId(AllUEs(ys), UEId, id)
  {
    SemestersOfMapSemesters(ys, RemoveUEStep(id));
    UEsOfRemoveUE(SemestersOf(ys), id);
  }

  /** Deleting a subject removes it from the flat list of subjects and keeps the others in order. */
  lemma AllSubjectsOfRemoveSubject(ys: seq<AcademicYear>, id: Id)
    ensures AllSubjects(RemoveSubject(ys, id)) == WithoutId(AllSubjects(ys), SubjectId, id)
  {
    AllUEsOfMapUEs(ys, RemoveSubjectStep(id));
    SubjectsOfRemoveSubject(AllUEs(ys), id);
  }

  // ------------------------------------------ additions on the flat lists

  /** Appending an element that carries the filtered id does not change the filtered list. */
  lemma WithoutAppended<T(!new)>(a: seq<T>, x: T, idOf: T -> Id)
    ensures WithoutId(a + [x], idOf, idOf(x)) == WithoutId(a, idOf, idOf(x))
  {
    WithoutIdConcat(a, [x], idOf, idOf(x));
    assert [x][1..] == [];
  }

  /** Apart from the new semester's id, the flat list of semesters is unchanged by a creation. */
  lemma {:induction false} SemestersOfAddSemester(ys: seq<AcademicYear>, academicYearId: Id, semester: Semester)
    ensures WithoutId(SemestersOf(AddSemester(ys, academicYearId, semester)), SemesterId, semester.id)
      == WithoutId(SemestersOf(ys), SemesterId, semester.id)
  {
    if |ys| > 0 {
      var r := AddSemester(ys, academicYearId, semester);
      assert r[1..] == AddSemester(ys[1..], academicYearId, semester);
      assert WithoutId(r[0].semesters, SemesterId, semester.id) == WithoutId(ys[0].semesters, SemesterId, semester.id) by {
        if ys[0].id == academicYearId {
          assert r[0].semesters == ys[0].semesters + [semester];
          WithoutAppended(ys[0].semesters, semester, SemesterId);
        }
      }
      calc {
        WithoutId(SemestersOf(r), SemesterId, semester.id);
        { WithoutIdConcat(r[0].semesters, SemestersOf(r[1..]), SemesterId, semester.id); }
        WithoutId(r[0].semesters, SemesterId, semester.id) + WithoutId(SemestersOf(r[1..]), SemesterId, semester.id);
        { SemestersOfAddSemester(ys[1..], academicYearId, semester); }
        WithoutId(ys[0].semesters, SemesterId, semester.id) + WithoutId(SemestersOf(ys[1..]), SemesterId, semester.id);
        { WithoutIdConcat(ys[0].semesters, SemestersOf(ys[1..]), SemesterId, semester.id); }
        WithoutId(SemestersOf(ys), SemesterId, semester.id);
      }
    }
  }

  lemma {:induction false} UEsOfAddUE(ss: seq<Semester>, semesterId: Id, ue: UE)
    ensures WithoutId(UEsOf(MapSeq(ss, AddUEStep(semesterId, ue))), UEId, ue.id)
      == WithoutId(UEsOf(ss), UEId, ue.id)
  {
    if |ss| > 0 {
      var r := MapSeq(ss, AddUEStep(semesterId, ue));
      assert r[1..] == MapSeq(ss[1..], AddUEStep(semesterId, ue));
      assert WithoutId(r[0].ues, UEId, ue.id) == WithoutId(ss[0].ues, UEId, ue.id) by {
        if ss[0].id == semesterId {
          assert r[0].ues == ss[0].ues + [ue];
          WithoutAppended(ss[0].ues, ue, UEId);
        }
      }
      calc {
        WithoutId(UEsOf(r), UEId, ue.id);
        { WithoutIdConcat(r[0].ues, UEsOf(r[1..]), UEId, ue.id); }
        WithoutId(r[0].ues, UEId, ue.id) + WithoutId(UEsOf(r[1..]), UEId, ue.id);
        { UEsOfAddUE(ss[1..], semesterId, ue); }
        WithoutId(ss[0].ues, UEId, ue.id) + WithoutId(UEsOf(ss[1..]), UEId, ue.id);
        { WithoutIdConcat(ss[0].ues, UEsOf(ss[1..]), UEId, ue.id); }
        WithoutId(UEsOf(ss), UEId, ue.id);
      }
    }
  }

  lemma {:induction false} SubjectsOfAddSubject(us: seq<UE>, ueId: Id, subject: Subject)
    ensures WithoutId(SubjectsOf(MapSeq(us, AddSubjectStep(ueId, subject))), SubjectId, subject.id)
      == WithoutId(SubjectsOf(us), SubjectId, subject.id)
  {
    if |us| > 0 {
      var r := MapSeq(us, AddSubjectStep(ueId, subject));
      assert r[1..] == MapSeq(us[1..], AddSubjectStep(ueId, subject));
      assert WithoutId(r[0].subjects, SubjectId, subject.id) == WithoutId(us[0].subjects, SubjectId, subject.id) by {
        if us[0].id == ueId {
          assert r[0].subjects == us[0].subjects + [subject];
          WithoutAppended(us[0].subjects, subject, SubjectId);
        }
      }
      calc {
        WithoutId(SubjectsOf(r), SubjectId, subject.id);
        { WithoutIdConcat(r[0].subjects, SubjectsOf(r[1..]), SubjectId, subject.id); }
        WithoutId(r[0].subjects, SubjectId, subject.id) + WithoutId(SubjectsOf(r[1..]), SubjectId, subject.id);
        { SubjectsOfAddSubject(us[1..], ueId, subject); }
        WithoutId(us[0].subjects, SubjectId, subject.id) + WithoutId(SubjectsOf(us[1..]), SubjectId, subject.id);
        { WithoutIdConcat(us[0].subjects, SubjectsOf(us[1..]), SubjectId, subject.id); }
        WithoutId(SubjectsOf(us), SubjectId, subject.id);
      }
    }
  }

  /** After a creation the flat list holds the old semesters and, when the parent exists, the new one. */
  lemma InSemestersAfterAdd(ys: seq<AcademicYear>, academicYearId: Id, semester: Semester, x: Semester)
    ensures x in SemestersOf(AddSemester(ys, academicYearId, semester)) <==>
      x in SemestersOf(ys) || (x == semester && FindYear(ys, academicYearId).Some?)
  {
    var r := AddSemester(ys, academicYearId, semester);
    InSemestersOf(r, x);
    InSemestersOf(ys, x);
    if FindYear(ys, academicYearId).Some? {
      var i := IndexOfId(ys, YearId, academicYearId);
      assert semester in r[i].semesters;
    }
    if x in SemestersOf(ys) {
      var i :| 0 <= i < |ys| && x in ys[i].semesters;
      assert x in r[i].semesters;
    }
  }

  lemma InUEsAfterAdd(ss: seq<Semester>, semesterId: Id, ue: UE, x: UE)
    ensures x in UEsOf(MapSeq(ss, AddUEStep(semesterId, ue))) <==>
      x in UEsOf(ss) || (x == ue && FindById(ss, SemesterId, semesterId).Some?)
  {
    var r := MapSeq(ss, AddUEStep(semesterId, ue));
    InUEsOf(r, x);
    InUEsOf(ss, x);
    if FindById(ss, SemesterId, semesterId).Some? {
      var j := IndexOfId(ss, SemesterId, semesterId);
      assert ue in r[j].ues;
    }
    if x in UEsOf(ss) {
      var j :| 0 <= j < |ss| && x in ss[j].ues;
      assert x in r[j].ues;
    }
  }

  lemma InSubjectsAfterAdd(us: seq<UE>, ueId: Id, subject: Subject, x: Subject)
    ensures x in SubjectsOf(MapSeq(us, AddSubjectStep(ueId, subject))) <==>
      x in SubjectsOf(us) || (x == subject && FindById(us, UEId, ueId).Some?)
  {
    var r := MapSeq(us, AddSubjectStep(ueId, subject));
    InSubjectsOf(r, x);
    InSubjectsOf(us, x);
    if FindById(us, UEId, ueId).Some? {
      var k := IndexOfId(us, UEId, ueId);
      assert subject in r[k].subjects;
    }
    if x in SubjectsOf(us) {
      var k :| 0 <= k < |us| && x in us[k].subjects;
      assert x in r[k].subjects;
    }
  }

  // ------------------------------------------------- academic year effects

  /** createAcademicYear appends: earlier lookups are unchanged and a fresh id finds the new year. */
  lemma CreateYearEffect(ys: seq<AcademicYear>, year: AcademicYear, k: Id)
    ensures FindYear(AddYear(ys, year), k) ==
      if k == year.id && FindYear(ys, k).None? then Some(year) else FindYear(ys, k)
  {
    FindInAppended(ys, year, YearId, k);
  }

  /** updateAcademicYear changes the title of the year found under `id` and nothing else. */
  lemma UpdateYearEffect(ys: seq<AcademicYear>, id: Id, title: string, k: Id)
    ensures FindYear(RenameYear(ys, id, title), k) ==
      if k == id && FindYear(ys, id).Some? then Some(FindYear(ys, id).value.(title := title))
      else FindYear(ys, k)
    ensures FindYear(ys, id).None? ==> RenameYear(ys, id, title) == ys
  {
    FindAfterMap(ys, RenameYearStep(id, title), YearId, k);
    if FindYear(ys, id).None? {
      MapSeqIdentity(ys, RenameYearStep(id, title));
    }
  }

  /**
   * deleteAcademicYear: the year is no longer found, every other lookup is
   * unchanged, and its semesters disappear with it.
   */
  lemma DeleteYearEffect(ys: seq<AcademicYear>, id: Id, k: Id, x: Semester)
    ensures FindYear(RemoveYear(ys, id), k) == if k == id then None else FindYear(ys, k)
    ensures x in SemestersOf(RemoveYear(ys, id)) <==> exists y :: y in ys && y.id != id && x in y.semesters
    ensures FindYear(ys, id).None? ==> RemoveYear(ys, id) == ys
  {
    FindAfterRemoval(ys, YearId, id, k);
    InSemestersOfYears(RemoveYear(ys, id), x);
    if FindYear(ys, id).None? {
      WithoutAbsentId(ys, YearId, id);
    }
  }

  // ------------------------------------------------------ semester effects

  /**
   * createSemester: without a year `academicYearId` nothing changes; the year
   * found under `academicYearId` gains the semester at the end; lookups of other
   * ids are unchanged; with the year present a fresh id finds the new semester.
   */
  lemma CreateSemesterEffect(ys: seq<AcademicYear>, academicYearId: Id, semester: Semester, k: Id)
    ensures FindYear(ys, academicYearId).None? ==> AddSemester(ys, academicYearId, semester) == ys
    ensures FindYear(ys, academicYearId).Some? ==>
      FindYear(AddSemester(ys, academicYearId, semester), academicYearId) ==
        Some(FindYear(ys, academicYearId).value.(semesters := FindYear(ys, academicYearId).value.semesters + [semester]))
    ensures k != semester.id ==> FindSemester(AddSemester(ys, academicYearId, semester), k) == FindSemester(ys, k)
    ensures FindYear(ys, academicYearId).Some? && FindSemester(ys, semester.id).None? ==>
      FindSemester(AddSemester(ys, academicYearId, semester), semester.id) == Some(semester)
  {
    var r := AddSemester(ys, academicYearId, semester);
    FindAfterMap(ys, AddSemesterStep(academicYearId, semester), YearId, academicYearId);
    if FindYear(ys, academicYearId).None? {
      MapSeqIdentity(ys, AddSemesterStep(academicYearId, semester));
    }
    SemestersOfAddSemester(ys, academicYearId, semester);
    FindAfterRemoval(SemestersOf(r), SemesterId, semester.id, k);
    FindAfterRemoval(SemestersOf(ys), SemesterId, semester.id, k);
    if FindYear(ys, academicYearId).Some? && FindSemester(ys, semester.id).None? {
      InSemestersAfterAdd(ys, academicYearId, semester, semester);
      forall x | x in SemestersOf(r) && x.id == semester.id ensures x == semester {
        InSemestersAfterAdd(ys, academicYearId, semester, x);
        if x in SemestersOf(ys) {
          NotFoundIsAbsent(SemestersOf(ys), SemesterId, semester.id, x);
        }
      }
      FindOnly(SemestersOf(r), SemesterId, semester);
    }
  }

  /** updateSemester changes the title of the semester found under `id` and nothing else. */
  lemma UpdateSemesterEffect(ys: seq<AcademicYear>, id: Id, title: string, k: Id)
    ensures FindSemester(RenameSemester(ys, id, title), k) ==
      if k == id && FindSemester(ys, id).Some? then Some(FindSemester(ys, id).value.(title := title))
      else FindSemester(ys, k)
    ensures FindYear(RenameSemester(ys, id, title), k) ==
      if FindYear(ys, k).Some?
      then Some(FindYear(ys, k).value.(semesters := MapSeq(FindYear(ys, k).value.semesters, RenameSemesterStep(id, title))))
      else None
    ensures FindSemester(ys, id).None? ==> RenameSemester(ys, id, title) == ys
  {
    FindAfterMap(ys, InYear(RenameSemesterStep(id, title)), YearId, k);
    SemestersOfMapSemesters(ys, RenameSemesterStep(id, title));
    FindAfterMap(SemestersOf(ys), RenameSemesterStep(id, title), SemesterId, k);
    if FindSemester(ys, id).None? {
      forall x | x in SemestersOf(ys) ensures RenameSemesterStep(id, title)(x) == x {
        NotFoundIsAbsent(SemestersOf(ys), SemesterId, id, x);
      }
      MapSemestersIdentity(ys, RenameSemesterStep(id, title));
    }
  }

  /**
   * deleteSemester: the semester is no longer found, other lookups are
   * unchanged, and the UEs left are exactly those of the remaining semesters.
   */
  lemma DeleteSemesterEffect(ys: seq<AcademicYear>, id: Id, k: Id)
    ensures FindSemester(RemoveSemester(ys, id), k) == if k == id then None else FindSemester(ys, k)
    ensures AllUEs(RemoveSemester(ys, id)) == UEsOf(WithoutId(SemestersOf(ys), SemesterId, id))
    ensures FindYear(RemoveSemester(ys, id), k) ==
      if FindYear(ys, k).Some?
      then Some(FindYear(ys, k).value.(semesters := WithoutId(FindYear(ys, k).value.semesters, SemesterId, id)))
      else None
    ensures FindSemester(ys, id).None? ==> RemoveSemester(ys, id) == ys
  {
    FindAfterMap(ys, RemoveSemesterStep(id), YearId, k);
    SemestersOfRemoveSemester(ys, id);
    FindAfterRemoval(SemestersOf(ys), SemesterId, id, k);
    if FindSemester(ys, id).None? {
      forall i | 0 <= i < |ys| ensures RemoveSemesterStep(id)(ys[i]) == ys[i] {
        forall j | 0 <= j < |ys[i].semesters| ensures ys[i].semesters[j].id != id {
          InSemestersOf(ys, ys[i].semesters[j]);
          NotFoundIsAbsent(SemestersOf(ys), SemesterId, id, ys[i].semesters[j]);
        }
        WithoutAbsentId(ys[i].semesters, SemesterId, id);
      }
      MapSeqIdentity(ys, RemoveSemesterStep(id));
    }
  }

  // ------------------------------------------------------------ UE effects

  /**
   * createUE: without a semester `semesterId` nothing changes; lookups of other
   * ids are unchanged; the semester found under `semesterId` gains the UE at
   * the end; with that semester present a fresh id finds the new UE.
   */
  lemma CreateUEEffect(ys: seq<AcademicYear>, semesterId: Id, ue: UE, k: Id)
    ensures FindSemester(ys, semesterId).None? ==> AddUE(ys, semesterId, ue) == ys
    ensures k != ue.id ==> FindUE(AddUE(ys, semesterId, ue), k) == FindUE(ys, k)
    ensures FindSemester(ys, semesterId).Some? ==>
      FindSemester(AddUE(ys, semesterId, ue), semesterId) ==
        Some(FindSemester(ys, semesterId).value.(ues := FindSemester(ys, semesterId).value.ues + [ue]))
    ensures FindSemester(ys, semesterId).Some? && FindUE(ys, ue.id).None? ==>
      FindUE(AddUE(ys, semesterId, ue), ue.id) == Some(ue)
  {
    var r := AddUE(ys, semesterId, ue);
    var ss := SemestersOf(ys);
    SemestersOfMapSemesters(ys, AddUEStep(semesterId, ue));
    assert AllUEs(r) == UEsOf(MapSeq(ss, AddUEStep(semesterId, ue)));
    FindAfterMap(ss, AddUEStep(semesterId, ue), SemesterId, semesterId);
    if FindSemester(ys, semesterId).None? {
      forall x | x in ss ensures AddUEStep(semesterId, ue)(x) == x {
        NotFoundIsAbsent(ss, SemesterId, semesterId, x);
      }
      MapSemestersIdentity(ys, AddUEStep(semesterId, ue));
    }
    UEsOfAddUE(ss, semesterId, ue);
    FindAfterRemoval(AllUEs(r), UEId, ue.id, k);
    FindAfterRemoval(AllUEs(ys), UEId, ue.id, k);
    if FindSemester(ys, semesterId).Some? && FindUE(ys, ue.id).None? {
      InUEsAfterAdd(ss, semesterId, ue, ue);
      forall x | x in AllUEs(r) && x.id == ue.id ensures x == ue {
        InUEsAfterAdd(ss, semesterId, ue, x);
        if x in AllUEs(ys) {
          NotFoundIsAbsent(AllUEs(ys), UEId, ue.id, x);
        }
      }
      FindOnly(AllUEs(r), UEId, ue);
    }
  }

  /**
   * updateUE changes the name and credits of the UE found under `id` and
   * nothing else; every semester is rebuilt with the same step.
   */
  lemma UpdateUEEffect(ys: seq<AcademicYear>, id: Id, name: string, credits: real, k: Id)
    ensures FindUE(UpdateUE(ys, id, name, credits), k) ==
      if k == id && FindUE(ys, id).Some? then Some(FindUE(ys, id).value.(name := name, credits := credits))
      else FindUE(ys, k)
    ensures FindSemester(UpdateUE(ys, id, name, credits), k) ==
      if FindSemester(ys, k).Some?
      then Some(FindSemester(ys, k).value.(ues := MapSeq(FindSemester(ys, k).value.ues, UpdateUEStep(id, name, credits))))
      else None
    ensures FindUE(ys, id).None? ==> UpdateUE(ys, id, name, credits) == ys
  {
    var g := UpdateUEStep(id, name, credits);
    AllUEsOfMapUEs(ys, g);
    FindAfterMap(AllUEs(ys), g, UEId, k);
    SemestersOfMapSemesters(ys, InSemester(g));
    FindAfterMap(SemestersOf(ys), InSemester(g), SemesterId, k);
    if FindUE(ys, id).None? {
      forall x | x in AllUEs(ys) ensures g(x) == x {
        NotFoundIsAbsent(AllUEs(ys), UEId, id, x);
      }
      MapUEsIdentity(ys, g);
    }
  }

  /**
   * deleteUE: the UE is no longer found, other lookups are unchanged, and the
   * subjects left are exactly those of the remaining UEs.
   */
  lemma DeleteUEEffect(ys: seq<AcademicYear>, id: Id, k: Id)
    ensures FindUE(RemoveUE(ys, id), k) == if k == id then None else FindUE(ys, k)
    ensures AllSubjects(RemoveUE(ys, id)) == SubjectsOf(WithoutId(AllUEs(ys), UEId, id))
    ensures FindSemester(RemoveUE(ys, id), k) ==
      if FindSemester(ys, k).Some?
      then Some(FindSemester(ys, k).value.(ues := WithoutId(FindSemester(ys, k).value.ues, UEId, id)))
      else None
    ensures FindUE(ys, id).None? ==> RemoveUE(ys, id) == ys
  {
    SemestersOfMapSemesters(ys, RemoveUEStep(id));
    FindAfterMap(SemestersOf(ys), RemoveUEStep(id), SemesterId, k);
    AllUEsOfRemoveUE(ys, id);
    FindAfterRemoval(AllUEs(ys), UEId, id, k);
    if FindUE(ys, id).None? {
      forall x | x in SemestersOf(ys) ensures RemoveUEStep(id)(x) == x {
        forall j | 0 <= j < |x.ues| ensures x.ues[j].id != id {
          InUEsOf(SemestersOf(ys), x.ues[j]);
          NotFoundIsAbsent(AllUEs(ys), UEId, id, x.ues[j]);
        }
        WithoutAbsentId(x.ues, UEId, id);
      }
      MapSemestersIdentity(ys, RemoveUEStep(id));
    }
  }

  // ------------------------------------------------------- subject effects

  /**
   * createSubject: without a UE `ueId` nothing changes; the UE found under
   * `ueId` gains the subject at the end; lookups of other ids are unchanged;
   * with the UE present a fresh id finds the new subject.
   */
  lemma CreateSubjectEffect(ys: seq<AcademicYear>, ueId: Id, subject: Subject, k: Id)
    ensures FindUE(ys, ueId).None? ==> AddSubject(ys, ueId, subject) == ys
    ensures FindUE(ys, ueId).Some? ==>
      FindUE(AddSubject(ys, ueId, subject), ueId) ==
        Some(FindUE(ys, ueId).value.(subjects := FindUE(ys, ueId).value.subjects + [subject]))
    ensures k != subject.id ==> FindSubject(AddSubject(ys, ueId, subject), k) == FindSubject(ys, k)
    ensures FindUE(ys, ueId).Some? && FindSubject(ys, subject.id).None? ==>
      FindSubject(AddSubject(ys, ueId, subject), subject.id) == Some(subject)
  {
    var r := AddSubject(ys, ueId, subject);
    var us := AllUEs(ys);
    AllUEsOfMapUEs(ys, AddSubjectStep(ueId, subject));
    FindAfterMap(us, AddSubjectStep(ueId, subject), UEId, ueId);
    if FindUE(ys, ueId).None? {
      forall x | x in us ensures AddSubjectStep(ueId, subject)(x) == x {
        NotFoundIsAbsent(us, UEId, ueId, x);
      }
      MapUEsIdentity(ys, AddSubjectStep(ueId, subject));
    }
    SubjectsOfAddSubject(us, ueId, subject);
    FindAfterRemoval(AllSubjects(r), SubjectId, subject.id, k);
    FindAfterRemoval(AllSubjects(ys), SubjectId, subject.id, k);
    if FindUE(ys, ueId).Some? && FindSubject(ys, subject.id).None? {
      InSubjectsAfterAdd(us, ueId, subject, subject);
      forall x | x in AllSubjects(r) && x.id == subject.id ensures x == subject {
        InSubjectsAfterAdd(us, ueId, subject, x);
        if x in AllSubjects(ys) {
          NotFoundIsAbsent(AllSubjects(ys), SubjectId, subject.id, x);
        }
      }
      FindOnly(AllSubjects(r), SubjectId, subject);
    }
  }

  /** Rebuilding every subject with a step rebuilds the subjects of the UE found under any id. */
  lemma FindUEAfterMapSubjects(ys: seq<AcademicYear>, g: Subject -> Subject, k: Id)
    ensures FindUE(MapSubjects(ys, g), k) ==
      if FindUE(ys, k).Some? then Some(FindUE(ys, k).value.(subjects := MapSeq(FindUE(ys, k).value.subjects, g))) else None
  {
    AllUEsOfMapUEs(ys, InUE(g));
    FindAfterMap(AllUEs(ys), InUE(g), UEId, k);
  }

  /** updateSubject changes the name and coefficient of the subject found under `id` and nothing else. */
  lemma UpdateSubjectEffect(ys: seq<AcademicYear>, id: Id, name: string, coefficient: real, k: Id)
    ensures FindSubject(UpdateSubject(ys, id, name, coefficient), k) ==
      if k == id && FindSubject(ys, id).Some?
      then Some(FindSubject(ys, id).value.(name := name, coefficient := coefficient))
      else FindSubject(ys, k)
    ensures FindUE(UpdateSubject(ys, id, name, coefficient), k) ==
      if FindUE(ys, k).Some?
      then Some(FindUE(ys, k).value.(subjects := MapSeq(FindUE(ys, k).value.subjects, UpdateSubjectStep(id, name, coefficient))))
      else None
    ensures FindSubject(ys, id).None? ==> UpdateSubject(ys, id, name, coefficient) == ys
  {
    var g := UpdateSubjectStep(id, name, coefficient);
    FindUEAfterMapSubjects(ys, g, k);
    AllSubjectsOfMapSubjects(ys, g);
    FindAfterMap(AllSubjects(ys), g, SubjectId, k);
    if FindSubject(ys, id).None? {
      forall x | x in AllSubjects(ys) ensures g(x) == x {
        NotFoundIsAbsent(AllSubjects(ys), SubjectId, id, x);
      }
      MapSubjectsIdentity(ys, g);
    }
  }

  /** updateSubjectGrades replaces the three grades of the subject found under `id` and nothing else. */
  lemma UpdateSubjectGradesEffect(ys: seq<AcademicYear>, id: Id,
    interrogation: Option<real>, devoir: Option<real>, rattrapage: Option<real>, k: Id)
    ensures FindSubject(UpdateSubjectGrades(ys, id, interrogation, devoir, rattrapage), k) ==
      if k == id && FindSubject(ys, id).Some?
      then Some(FindSubject(ys, id).value.(interrogation := interrogation, devoir := devoir, rattrapage := rattrapage))
      else FindSubject(ys, k)
    ensures FindUE(UpdateSubjectGrades(ys, id, interrogation, devoir, rattrapage), k) ==
      if FindUE(ys, k).Some?
      then Some(FindUE(ys, k).value.(subjects :=
        MapSeq(FindUE(ys, k).value.subjects, SetGradesStep(id, interrogation, devoir, rattrapage))))
      else None
    ensures FindSubject(ys, id).None? ==> UpdateSubjectGrades(ys, id, interrogation, devoir, rattrapage) == ys
  {
    var g := SetGradesStep(id, interrogation, devoir, rattrapage);
    FindUEAfterMapSubjects(ys, g, k);
    AllSubjectsOfMapSubjects(ys, g);
    FindAfterMap(AllSubjects(ys), g, SubjectId, k);
    if FindSubject(ys, id).None? {
      forall x | x in AllSubjects(ys) ensures g(x) == x {
        NotFoundIsAbsent(AllSubjects(ys), SubjectId, id, x);
      }
      MapSubjectsIdentity(ys, g);
    }
  }

  /**
   * deleteSubject: the subject is no longer found, every other lookup is
   * unchanged, and each UE loses the subject from its list.
   */
  lemma DeleteSubjectEffect(ys: seq<AcademicYear>, id: Id, k: Id)
    ensures FindSubject(RemoveSubject(ys, id), k) == if k == id then None else FindSubject(ys, k)
    ensures FindUE(RemoveSubject(ys, id), k) ==
      if FindUE(ys, k).Some?
      then Some(FindUE(ys, k).value.(subjects := WithoutId(FindUE(ys, k).value.subjects, SubjectId, id)))
      else None
    ensures FindSubject(ys, id).None? ==> RemoveSubject(ys, id) == ys
  {
    AllUEsOfMapUEs(ys, RemoveSubjectStep(id));
    FindAfterMap(AllUEs(ys), RemoveSubjectStep(id), UEId, k);
    AllSubjectsOfRemoveSubject(ys, id);
    FindAfterRemoval(AllSubjects(ys), SubjectId, id, k);
    if FindSubject(ys, id).None? {
      forall x | x in AllUEs(ys) ensures RemoveSubjectStep(id)(x) == x {
        forall j | 0 <= j < |x.subjects| ensures x.subjects[j].id != id {
          InSubjectsOf(AllUEs(ys), x.subjects[j]);
          NotFoundIsAbsent(AllSubjects(ys), SubjectId, id, x.subjects[j]);
        }
        WithoutAbsentId(x.subjects, SubjectId, id);
      }
      MapUEsIdentity(ys, RemoveSubjectStep(id));
    }
  }

  // ---------------------------------------------- back-references are kept

  /** Year operations keep every back-reference, given a new year whose semesters point to it. */
  lemma YearOperationsKeepLinks(ys: seq<AcademicYear>, year: AcademicYear, id: Id, title: string)
    requires WellLinked(ys)
    ensures SemestersBelong(year) ==> WellLinked(AddYear(ys, year))
    ensures WellLinked(RenameYear(ys, id, title))
    ensures WellLinked(RemoveYear(ys, id))
  {
    var r := RenameYear(ys, id, title);
    forall i | 0 <= i < |r| ensures SemestersBelong(r[i]) {
      assert ys[i] in ys;
    }
  }

  /** Semester operations keep every back-reference, given a new semester that points to its year. */
  lemma SemesterOperationsKeepLinks(ys: seq<AcademicYear>, academicYearId: Id, semester: Semester, id: Id, title: string)
    requires WellLinked(ys)
    ensures semester.academicYearId == academicYearId && UEsBelong(semester) ==>
      WellLinked(AddSemester(ys, academicYearId, semester))
    ensures WellLinked(RenameSemester(ys, id, title))
    ensures WellLinked(RemoveSemester(ys, id))
  {
    if semester.academicYearId == academicYearId && UEsBelong(semester) {
      var r := AddSemester(ys, academicYearId, semester);
      forall i | 0 <= i < |r| ensures SemestersBelong(r[i]) {
        assert ys[i] in ys;
      }
    }
    forall s | s in SemestersOf(ys)
      ensures RenameSemesterStep(id, title)(s).academicYearId == s.academicYearId
      ensures UEsBelong(RenameSemesterStep(id, title)(s))
    {
      InSemestersOfYears(ys, s);
    }
    WellLinkedMapSemesters(ys, RenameSemesterStep(id, title));
    var r := RemoveSemester(ys, id);
    forall i | 0 <= i < |r| ensures SemestersBelong(r[i]) {
      assert ys[i] in ys;
    }
  }

  /** UE operations keep every back-reference, given a new UE that points to its semester. */
  lemma UEOperationsKeepLinks(ys: seq<AcademicYear>, semesterId: Id, ue: UE, id: Id, name: string, credits: real)
    requires WellLinked(ys)
    ensures ue.semesterId == semesterId && SubjectsBelong(ue) ==> WellLinked(AddUE(ys, semesterId, ue))
    ensures WellLinked(UpdateUE(ys, id, name, credits))
    ensures WellLinked(RemoveUE(ys, id))
  {
    forall s | s in SemestersOf(ys) ensures UEsBelong(s) {
      InSemestersOfYears(ys, s);
    }
    if ue.semesterId == semesterId && SubjectsBelong(ue) {
      WellLinkedMapSemesters(ys, AddUEStep(semesterId, ue));
    }
    forall u | u in AllUEs(ys)
      ensures UpdateUEStep(id, name, credits)(u).semesterId == u.semesterId
      ensures SubjectsBelong(UpdateUEStep(id, name, credits)(u))
    {
      InUEsOf(SemestersOf(ys), u);
      var j :| 0 <= j < |SemestersOf(ys)| && u in SemestersOf(ys)[j].ues;
      InSemestersOfYears(ys, SemestersOf(ys)[j]);
      assert SubjectsBelong(u);
      var v := UpdateUEStep(id, name, credits)(u);
      assert v.id == u.id && v.subjects == u.subjects && v.semesterId == u.semesterId;
    }
    WellLinkedMapUEs(ys, UpdateUEStep(id, name, credits));
    WellLinkedMapSemesters(ys, RemoveUEStep(id));
  }

  /** Subject operations keep every back-reference, given a new subject that points to its UE. */
  lemma SubjectOperationsKeepLinks(ys: seq<AcademicYear>, ueId: Id, subject: Subject, id: Id,
    name: string, coefficient: real, interrogation: Option<real>, devoir: Option<real>, rattrapage: Option<real>)
    requires WellLinked(ys)
    ensures subject.ueId == ueId ==> WellLinked(AddSubject(ys, ueId, subject))
    ensures WellLinked(UpdateSubject(ys, id, name, coefficient))
    ensures WellLinked(UpdateSubjectGrades(ys, id, interrogation, devoir, rattrapage))
    ensures WellLinked(RemoveSubject(ys, id))
  {
    forall u | u in AllUEs(ys) ensures SubjectsBelong(u) {
      InUEsOf(SemestersOf(ys), u);
      var j :| 0 <= j < |SemestersOf(ys)| && u in SemestersOf(ys)[j].ues;
      InSemestersOfYears(ys, SemestersOf(ys)[j]);
    }
    if subject.ueId == ueId {
      WellLinkedMapUEs(ys, AddSubjectStep(ueId, subject));
    }
    WellLinkedMapSubjects(ys, UpdateSubjectStep(id, name, coefficient));
    WellLinkedMapSubjects(ys, SetGradesStep(id, interrogation, devoir, rattrapage));
    WellLinkedMapUEs(ys, RemoveSubjectStep(id));
  }
}
