/**
 * The semester page's guard on UE credits: a semester holds at most 30
 * credits, checked when a UE is created or edited, and the form bounds that
 * follow from the credits left (src/pages/academic/SemesterDetail.tsx).
 */
module SemesterDetail {
  import opened Wrappers
  import opened Types
  import opened GradeEngine
  import opened Projections
  import opened AcademicTree
  import opened AcademicOperations
  import Store

  const MaxSemesterCredits: real := 30.0
  const MinUECredits: real := 1.0

  /** Why a submission was refused; the ExceedsCap payload is the total the change would give. */
  datatype CapError = UENotFound | ExceedsCap(newTotalCredits: real)

  function UEViewId(v: UEWithCalculations): Id { v.id }

  /** Credits still available in the semester (may be negative). */
  function RemainingCredits(view: SemesterWithCalculations): real
  {
    MaxSemesterCredits - ViewCredits(view.ues)
  }

  /** The "new UE" button is disabled once nothing is left. */
  predicate CreateButtonEnabled(view: SemesterWithCalculations)
  {
    RemainingCredits(view) > 0.0
  }

  /** The create form accepts 1 up to the remaining credits. */
  predicate CreateFormAccepts(view: SemesterWithCalculations, credits: real)
  {
    MinUECredits <= credits <= RemainingCredits(view)
  }

  /** The edit form accepts 1 up to the remaining credits plus the UE's own. */
  predicate EditFormAccepts(view: SemesterWithCalculations, ue: UEWithCalculations, credits: real)
  {
    MinUECredits <= credits <= RemainingCredits(view) + ue.credits
  }

  /** The create handler's check: the semester total with the new UE may not pass 30. */
  function CheckCreate(view: SemesterWithCalculations, credits: real): (r: Result<real, CapError>)
    ensures r.Ok? <==> ViewCredits(view.ues) + credits <= MaxSemesterCredits
    ensures r.Ok? ==> r.value == ViewCredits(view.ues) + credits
  {
    var newTotalCredits := ViewCredits(view.ues) + credits;
    if newTotalCredits > MaxSemesterCredits then Err(ExceedsCap(newTotalCredits)) else Ok(newTotalCredits)
  }

  /**
   * The edit handler's check: the UE must be in the semester, and the other
   * UEs' credits plus the new value may not pass 30.
   */
  function CheckEdit(view: SemesterWithCalculations, editingId: Id, credits: real): (r: Result<real, CapError>)
    ensures r == Err(UENotFound) <==> forall i :: 0 <= i < |view.ues| ==> view.ues[i].id != editingId
    ensures r.Ok? ==> r.value == ViewCredits(WithoutId(view.ues, UEViewId, editingId)) + credits <= MaxSemesterCredits
    ensures ((exists i :: 0 <= i < |view.ues| && view.ues[i].id == editingId)
             && ViewCredits(WithoutId(view.ues, UEViewId, editingId)) + credits <= MaxSemesterCredits)
            ==> r.Ok?
  {
    if FindById(view.ues, UEViewId, editingId).None? then Err(UENotFound)
    else
      var newTotalCredits := ViewCredits(WithoutId(view.ues, UEViewId, editingId)) + credits;
      if newTotalCredits > MaxSemesterCredits then Err(ExceedsCap(newTotalCredits)) else Ok(newTotalCredits)
  }

  /**
   * Submitting the create form: a refusal leaves the store as it was; an
   * accepted UE is created in the semester.
   */
  method OnCreateSubmit(store: Store.AcademicStore, semesterId: Id, newId: Id, name: string, credits: real)
    returns (r: Result<UE, CapError>)
    requires store.GetSemesterWithCalculations(semesterId).Some?
    modifies store
    ensures var view := old(store.GetSemesterWithCalculations(semesterId)).value;
      match CheckCreate(view, credits)
      case Err(e) => r == Err(e) && store.academicYears == old(store.academicYears)
      case Ok(_) =>
        && r == Ok(UE(newId, name, credits, semesterId, []))
        && store.academicYears == AddUE(old(store.academicYears), semesterId, r.value)
  {
    var view := store.GetSemesterWithCalculations(semesterId).value;
    var check := CheckCreate(view, credits);
    if check.Err? {
      return Err(check.error);
    }
    var ue := store.CreateUE(semesterId, newId, name, credits);
    return Ok(ue);
  }

  /**
   * Submitting the edit form: without a UE being edited nothing happens; a
   * refusal leaves the store as it was; an accepted edit updates the UE.
   */
  method OnEditSubmit(store: Store.AcademicStore, semesterId: Id, editingId: Option<Id>, name: string, credits: real)
    returns (r: Option<Result<real, CapError>>)
    requires store.GetSemesterWithCalculations(semesterId).Some?
    modifies store
    ensures editingId.None? ==> r.None? && store.academicYears == old(store.academicYears)
    ensures editingId.Some? ==>
      var view := old(store.GetSemesterWithCalculations(semesterId)).value;
      && r == Some(CheckEdit(view, editingId.value, credits))
      && (r.value.Err? ==> store.academicYears == old(store.academicYears))
      && (r.value.Ok? ==>
        store.academicYears == AcademicOperations.UpdateUE(old(store.academicYears), editingId.value, name, credits))
  {
    if editingId.None? {
      return None;
    }
    var view := store.GetSemesterWithCalculations(semesterId).value;
    var check := CheckEdit(view, editingId.value, credits);
    if check.Ok? {
      store.UpdateUE(editingId.value, name, credits);
    }
    return Some(check);
  }

  // ------------------------------------------------------------ properties

  predicate DistinctUEIds(ues: seq<UE>)
  {
    forall i, j :: 0 <= i < j < |ues| ==> ues[i].id != ues[j].id
  }

  lemma {:induction false} TotalCreditsConcat(a: seq<UE>, b: seq<UE>)
    ensures TotalCredits(a + b) == TotalCredits(a) + TotalCredits(b)
  {
    if |b| == 0 {
      assert a + b == a;
    } else {
      assert (a + b)[..|a + b| - 1] == a + b[..|b| - 1];
      TotalCreditsConcat(a, b[..|b| - 1]);
    }
  }

  lemma TotalCreditsCons(u: UE, rest: seq<UE>)
    ensures TotalCredits([u] + rest) == u.credits + TotalCredits(rest)
  {
    TotalCreditsConcat([u], rest);
    assert [u][..0] == [];
  }

  /** Decorating a non-empty list decorates its head, then its tail. */
  lemma UEViewsCons(ues: seq<UE>)
    requires |ues| > 0
    ensures UEViews(ues) == [UEWithCalculationsOf(ues[0])] + UEViews(ues[1..])
  {
    var r := [UEWithCalculationsOf(ues[0])] + UEViews(ues[1..]);
    forall i | 0 <= i < |ues| ensures UEViews(ues)[i] == r[i] {
      if i > 0 {
        assert ues[1..][i - 1] == ues[i];
      }
    }
  }

  /** Filtering decorated UEs by id is decorating the filtered UEs. */
  lemma {:induction false} ViewsWithoutId(ues: seq<UE>, id: Id)
    ensures WithoutId(UEViews(ues), UEViewId, id) == UEViews(WithoutId(ues, UEId, id))
  {
    if |ues| > 0 {
      var rest := ues[1..];
      var v := UEWithCalculationsOf(ues[0]);
      UEViewsCons(ues);
      assert UEViews(ues)[1..] == UEViews(rest);
      ViewsWithoutId(rest, id);
      if ues[0].id != id {
        var kept := WithoutId(rest, UEId, id);
        assert WithoutId(ues, UEId, id) == [ues[0]] + kept;
        UEViewsCons([ues[0]] + kept);
        assert ([ues[0]] + kept)[1..] == kept;
      }
    }
  }

  /** With distinct ids, the total is the credits of the others plus those of the UE with `id`. */
  lemma {:induction false} TotalWithoutOne(ues: seq<UE>, k: nat)
    requires k < |ues| && DistinctUEIds(ues)
    ensures TotalCredits(ues) == TotalCredits(WithoutId(ues, UEId, ues[k].id)) + ues[k].credits
  {
    var id := ues[k].id;
    TotalCreditsCons(ues[0], ues[1..]);
    assert ues == [ues[0]] + ues[1..];
    if k == 0 {
      WithoutAbsentId(ues[1..], UEId, id);
    } else {
      TotalWithoutOne(ues[1..], k - 1);
      TotalCreditsCons(ues[0], WithoutId(ues[1..], UEId, id));
    }
  }

  /** Distinct ids stay distinct in the tail, and none of them is the head's. */
  lemma DistinctTail(ues: seq<UE>)
    requires |ues| > 0 && DistinctUEIds(ues)
    ensures DistinctUEIds(ues[1..])
    ensures forall i :: 0 <= i < |ues[1..]| ==> ues[1..][i].id != ues[0].id
  {
    forall i, j | 0 <= i < j < |ues[1..]| ensures ues[1..][i].id != ues[1..][j].id {
      assert ues[1..][i] == ues[i + 1] && ues[1..][j] == ues[j + 1];
    }
    forall i | 0 <= i < |ues[1..]| ensures ues[1..][i].id != ues[0].id {
      assert ues[1..][i] == ues[i + 1];
    }
  }

  /** Updating an id no UE carries changes no credits. */
  lemma UpdateAbsentTotal(ues: seq<UE>, id: Id, name: string, credits: real)
    requires forall i :: 0 <= i < |ues| ==> ues[i].id != id
    ensures TotalCredits(MapSeq(ues, UpdateUEStep(id, name, credits))) == TotalCredits(WithoutId(ues, UEId, id))
  {
    MapSeqIdentity(ues, UpdateUEStep(id, name, credits));
    WithoutAbsentId(ues, UEId, id);
  }

  /** Mapping over a non-empty sequence maps its head, then its tail. */
  lemma MapSeqCons(ues: seq<UE>, g: UE -> UE)
    requires |ues| > 0
    ensures MapSeq(ues, g) == [g(ues[0])] + MapSeq(ues[1..], g)
  {
    assert ues == [ues[0]] + ues[1..];
    MapSeqConcat([ues[0]], ues[1..], g);
  }

  /** With distinct ids, updating the UE with `id` gives the others' credits plus the new value. */
  lemma {:induction false} UpdatedTotal(ues: seq<UE>, k: nat, name: string, credits: real)
    requires k < |ues| && DistinctUEIds(ues)
    ensures TotalCredits(MapSeq(ues, UpdateUEStep(ues[k].id, name, credits))) ==
      TotalCredits(WithoutId(ues, UEId, ues[k].id)) + credits
  {
    var id := ues[k].id;
    var g := UpdateUEStep(id, name, credits);
    var rest := ues[1..];
    if k == 0 {
      calc {
        TotalCredits(MapSeq(ues, g));
      == { MapSeqCons(ues, g); }
        TotalCredits([g(ues[0])] + MapSeq(rest, g));
      == { TotalCreditsCons(g(ues[0]), MapSeq(rest, g)); }
        g(ues[0]).credits + TotalCredits(MapSeq(rest, g));
      == { DistinctTail(ues); UpdateAbsentTotal(rest, id, name, credits); }
        credits + TotalCredits(WithoutId(rest, UEId, id));
      == { assert WithoutId(ues, UEId, id) == WithoutId(rest, UEId, id); }
        credits + TotalCredits(WithoutId(ues, UEId, id));
      }
    } else {
      calc {
        TotalCredits(MapSeq(ues, g));
      == { MapSeqCons(ues, g); }
        TotalCredits([g(ues[0])] + MapSeq(rest, g));
      == { TotalCreditsCons(g(ues[0]), MapSeq(rest, g)); }
        g(ues[0]).credits + TotalCredits(MapSeq(rest, g));
      == { DistinctTail(ues); assert g(ues[0]) == ues[0]; assert rest[k - 1].id == id;
           UpdatedTotal(rest, k - 1, name, credits); }
        ues[0].credits + TotalCredits(WithoutId(rest, UEId, id)) + credits;
      == { TotalCreditsCons(ues[0], WithoutId(rest, UEId, id)); }
        TotalCredits([ues[0]] + WithoutId(rest, UEId, id)) + credits;
      == { assert ues[0].id != id by { DistinctTail(ues); assert rest[k - 1] == ues[k]; }
           assert WithoutId(ues, UEId, id) == [ues[0]] + WithoutId(rest, UEId, id); }
        TotalCredits(WithoutId(ues, UEId, id)) + credits;
      }
    }
  }

  /**
   * A UE the create check accepts leaves the semester it was added to with
   * at most 30 credits.
   */
  lemma CreateKeepsSemesterWithinCap(ys: seq<AcademicYear>, semesterId: Id, ue: UE)
    requires FindSemester(ys, semesterId).Some?
    requires CheckCreate(SemesterWithCalculationsOf(FindSemester(ys, semesterId).value), ue.credits).Ok?
    ensures FindSemester(AddUE(ys, semesterId, ue), semesterId).Some?
    ensures TotalCredits(FindSemester(AddUE(ys, semesterId, ue), semesterId).value.ues) <= MaxSemesterCredits
  {
    var semester := FindSemester(ys, semesterId).value;
    CreateUEEffect(ys, semesterId, ue, semesterId);
    ViewCreditsAgree(semester.ues);
    TotalCreditsConcat(semester.ues, [ue]);
    assert [ue][..0] == [];
  }

  /**
   * An edit the check accepts leaves the semester the page shows with at most
   * 30 credits, when the UE ids in that semester are distinct.
   */
  lemma EditKeepsSemesterWithinCap(ys: seq<AcademicYear>, semesterId: Id, id: Id, name: string, credits: real)
    requires FindSemester(ys, semesterId).Some?
    requires DistinctUEIds(FindSemester(ys, semesterId).value.ues)
    requires CheckEdit(SemesterWithCalculationsOf(FindSemester(ys, semesterId).value), id, credits).Ok?
    ensures FindSemester(AcademicOperations.UpdateUE(ys, id, name, credits), semesterId).Some?
    ensures TotalCredits(FindSemester(AcademicOperations.UpdateUE(ys, id, name, credits), semesterId).value.ues)
      <= MaxSemesterCredits
  {
    var semester := FindSemester(ys, semesterId).value;
    var views := UEViews(semester.ues);
    UpdateUEEffect(ys, id, name, credits, semesterId);
    var k := IndexOfId(views, UEViewId, id);
    assert semester.ues[k].id == id;
    UpdatedTotal(semester.ues, k, name, credits);
    ViewsWithoutId(semester.ues, id);
    ViewCreditsAgree(WithoutId(semester.ues, UEId, id));
  }

  /**
   * The form bounds are enough for the handlers: any value the create form
   * accepts passes the create check, and any value the edit form accepts for
   * a UE of the semester passes the edit check when UE ids are distinct.
   */
  lemma FormBoundsPassChecks(semester: Semester, k: nat, credits: real)
    requires DistinctUEIds(semester.ues)
    ensures CreateFormAccepts(SemesterWithCalculationsOf(semester), credits) ==>
      CheckCreate(SemesterWithCalculationsOf(semester), credits).Ok?
    ensures k < |semester.ues| ==>
      var view := SemesterWithCalculationsOf(semester);
      EditFormAccepts(view, view.ues[k], credits) ==> CheckEdit(view, view.ues[k].id, credits).Ok?
  {
    if k < |semester.ues| {
      var id := semester.ues[k].id;
      TotalWithoutOne(semester.ues, k);
      ViewsWithoutId(semester.ues, id);
      ViewCreditsAgree(WithoutId(semester.ues, UEId, id));
      ViewCreditsAgree(semester.ues);
    }
  }
}
