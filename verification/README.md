# validEtu grade engine and academic tree, in Dafny

validEtu tracks a student's academic years, organised as
year → semester → UE (teaching unit) → subject. Each subject carries
three optional grades: `interrogation`, `devoir` and `rattrapage` (the retake).
From these, the application derives:

- the subject averages and a status colour;
- UE averages and validity;
- semester averages and validated credits;
- year progression;
- the minimum retake grades that would rescue a UE.

This project models that core and proves what it promises.

| File | Module | What it models |
|---|---|---|
| `wrappers.dfy` | `Wrappers` | `Option` and `Result`. |
| `types.dfy` | `Types` | The raw records (`AcademicYear`, `Semester`, `UE`, `Subject`, with `Option<real>` grades), the `*WithCalculations` views, the three-valued `Status` and `SimulationResult`. |
| `grades.dfy` | `GradeEngine` | The subject, UE, semester and year rules. The two accumulator loops (`calculateUEAverage`, `calculateSemesterAverage`) are methods proved equal to recursive specification functions. |
| `projections.dfy` | `Projections` | The four `get*WithCalculations` decorations. It proves that they keep every raw field, agree with each other and carry the documented credit totals. |
| `simulator.dfy` | `Simulator` | `simulateMinimumGrades`: the retake set, the no-retake, single-retake and multi-retake branches, rounding up to half a point, and the loops that accumulate points and coefficients and fill the grade map. |
| `tree.dfy` | `AcademicTree` | The tree, flattened year by year for the lookups, which return the first match (`Array.prototype.find`). It also has the nested `map` rebuilds (`MapSemesters`, `MapUEs`, `MapSubjects`) and the back-reference invariant `WellLinked`. |
| `tree.dfy` | `AcademicOperations` | Every create, update and delete as a function on `seq<AcademicYear>`, with lemmas about what each one changes and what it leaves alone. |
| `store.dfy` | `Store` | The React context's `academicYears` state as the class `AcademicStore`. Its methods replace the field as the source's `setAcademicYears` does. The `get*` lookups are nested loops with early return, proved to find the first match. |
| `simulations_page.dfy` | `SimulationsPage` | The what-if page: the reset on a year change, the seeding of simulated grades, the [0, 20] input filter and `runSimulation`'s verdict. |
| `semester_detail.dfy` | `SemesterDetail` | The 30-credit cap checked before creating or editing a UE, the remaining-credits bound and the form limits. |

Grades, coefficients and credits are `real`, so the arithmetic is exact.
`Date.now()` identifiers are passed in as a `newId` argument. The signed-in
user is passed to `CreateAcademicYear` as an `Option<Id>`. A parsed form value
is an `Option<real>`, where `None` stands for `NaN`.

## Model

| member | source | states |
|---|---|---|
| GradeEngine.InitialAverage | src/contexts/AcademicContext.tsx:87-92 | the initial average exists exactly when both interrogation and devoir are set |
| GradeEngine.FinalAverage | src/contexts/AcademicContext.tsx:95-114 | the final average is absent iff the initial one is, and is never below it |
| GradeEngine.InitialAverageWeights | src/contexts/AcademicContext.tsx:87-92 | the initial average is exactly 0.4·interrogation + 0.6·devoir and lies between the two grades |
| GradeEngine.FinalAverageRule | src/contexts/AcademicContext.tsx:95-114 | at or above 7 the retake is ignored; below 7 with a retake the final is max(initial, retake); below 7 without one it stays the initial average |
| GradeEngine.SubjectValidatedIff | src/contexts/AcademicContext.tsx:117-120 | a subject is validated iff its final average is at least 7: it passed outright, or it was below 7 and a retake of at least 7 rescued it |
| GradeEngine.RetakeAloneGivesNoAverage | src/contexts/AcademicContext.tsx:87-120 | with interrogation or devoir missing there is no final average whatever the retake, so the subject is not validated and its status is warning |
| GradeEngine.AveragesInRange | src/contexts/AcademicContext.tsx:87-114 | grades within 0..20 give initial and final averages within 0..20 |
| GradeEngine.SubjectStatus | src/contexts/AcademicContext.tsx:274-283 | the status colour: success when the initial average is at least 7, danger when the final average is below 7, warning otherwise; its meaning is proved in StatusMeaning |
| GradeEngine.IsSubjectValidated | src/contexts/AcademicContext.tsx:117-120 | a subject is validated when its final average exists and is at least 7; both directions are proved in SubjectValidatedIff |
| GradeEngine.UEAverage | src/contexts/AcademicContext.tsx:123-147 | the UE average as a specification function; when it exists and what it equals is proved in UEAverageDefined and UEAverageBetween, and the loop is proved equal to it in CalculateUEAverage |
| GradeEngine.IsUEValidated | src/contexts/AcademicContext.tsx:150-160 | a UE is validated when it has an average of at least 10 and every subject is validated; consequences in ValidUEIsComplete, EmptyUEIsNotValid, PassingSubjectsDoNotSuffice and HighAverageDoesNotSuffice |
| GradeEngine.StatusMeaning | src/contexts/AcademicContext.tsx:274-283 | status is success iff the initial average is at least 7, danger iff the final average is below 7, and warning otherwise (no final, or rescued by a retake); validated iff status is not danger and a final exists |
| GradeEngine.CompleteCoefficientsAreAll | src/contexts/AcademicContext.tsx:128-146 | when no subject lacks a final average, the loop's coefficient total is the sum over all subjects |
| GradeEngine.CoefficientSumPositive | src/contexts/AcademicContext.tsx:123-147 | positive coefficients on a non-empty UE sum to a positive divisor |
| GradeEngine.UEAverageDefined | src/contexts/AcademicContext.tsx:123-147 | the UE average exists iff the UE has subjects, none lacks a final average and the coefficient sum is non-zero, and it is then Σ(final·coef)/Σcoef (missing grades never count as 0) |
| GradeEngine.UEAverageWithPositiveCoefficients | src/contexts/AcademicContext.tsx:123-147 | with positive coefficients the UE average exists iff the UE is non-empty and complete |
| GradeEngine.CompletedPointsBounds | src/contexts/AcademicContext.tsx:128-140 | when every final average lies in [lo, hi], the weighted sum lies between lo and hi times the weights |
| GradeEngine.UEAverageBetween | src/contexts/AcademicContext.tsx:123-147 | the UE average is a mean: it lies between the lowest and highest final averages |
| GradeEngine.ValidUEIsComplete | src/contexts/AcademicContext.tsx:150-160 | a valid UE has every final average and an average of at least 10 |
| GradeEngine.EmptyUEIsNotValid | src/contexts/AcademicContext.tsx:150-160 | a UE without subjects has no average and is never valid |
| GradeEngine.PassingSubjectsDoNotSuffice | src/contexts/AcademicContext.tsx:150-160 | every subject passed (all at 8) is not enough: the average of 8 fails the UE |
| GradeEngine.HighAverageDoesNotSuffice | src/contexts/AcademicContext.tsx:150-160 | an average of 12.5 is not enough when one subject is below 7 |
| GradeEngine.CalculateUEAverage | src/contexts/AcademicContext.tsx:123-147 | the accumulator loop returns exactly the UE average specified by UEAverage |
| GradeEngine.ValidatedCredits | src/contexts/AcademicContext.tsx:190-194 | the credits of the validated UEs, summed; bounds in ValidatedCreditsBounded |
| GradeEngine.ValidatedCreditsBounded | src/contexts/AcademicContext.tsx:190-194 | validated credits count only valid UEs: they lie between 0 and the semester total, equal the total when every UE is valid and are 0 when none is |
| GradeEngine.SemesterAverage | src/contexts/AcademicContext.tsx:163-187 | the semester average as a specification function; when it exists and what it equals is proved in SemesterAverageDefined, and the loop is proved equal to it in CalculateSemesterAverage |
| GradeEngine.SemesterAverageDefined | src/contexts/AcademicContext.tsx:163-187 | the semester average exists exactly when there is at least one UE, every UE has an average and the credits sum to a non-zero total; it is then Σ(avg·credits)/Σcredits |
| GradeEngine.CompleteCreditsAreAll | src/contexts/AcademicContext.tsx:168-186 | when every UE has an average, the loop's credit total is the semester total |
| GradeEngine.CalculateSemesterAverage | src/contexts/AcademicContext.tsx:163-187 | the accumulator loop returns exactly the semester average specified by SemesterAverage |
| GradeEngine.CanProgress | src/contexts/AcademicContext.tsx:296-305 | a year allows progression when its semesters' validated credits reach 48; tied to the year view in Projections.YearViewCredits |
| GradeEngine.YearValidatedCreditsBounded | src/contexts/AcademicContext.tsx:296-305 | a year's validated credits lie between 0 and the credits entered in it |
| Projections.SubjectWithCalculationsOf | src/contexts/AcademicContext.tsx:674-696 | decorates one subject with the engine's averages and status; properties in SubjectViewKeepsRawFields |
| Projections.UEWithCalculationsOf | src/contexts/AcademicContext.tsx:514-543 | decorates one UE with its average, validity and decorated subjects; properties in UEViewKeepsRawFields |
| Projections.SemesterWithCalculationsOf | src/contexts/AcademicContext.tsx:382-428 | decorates one semester with its average, credit totals and decorated UEs; properties in SemesterViewKeepsRawFields and SemesterViewCredits |
| Projections.AcademicYearWithCalculationsOf | src/contexts/AcademicContext.tsx:253-308 | decorates one year with its semesters, 60 total credits, the validated sum and canProgress; properties in YearViewKeepsRawFields and YearViewCredits |
| Projections.SubjectViews | src/contexts/AcademicContext.tsx:514-543 | each subject, in order, keeps its raw fields and carries the engine's initial average, final average and status |
| Projections.UEViews | src/contexts/AcademicContext.tsx:386-412 | each UE, in order, keeps its raw fields and carries the engine's UE average, its validity and its decorated subjects |
| Projections.YearSemesterViews | src/contexts/AcademicContext.tsx:257-294 | each semester, in order, keeps its raw fields and carries the engine's semester average, its credit total, its validated credits and its decorated UEs |
| Projections.SubjectViewKeepsRawFields | src/models/types.ts:47-51 | a subject view holds every raw field unchanged; its final average is absent iff the initial is, is never below it, and status is danger iff the final is below 7 |
| Projections.UEViewKeepsRawFields | src/models/types.ts:53-57 | a UE view holds the raw UE unchanged, down to its subjects |
| Projections.SemesterViewKeepsRawFields | src/models/types.ts:59-64 | both semester decorations hold the raw semester unchanged |
| Projections.YearViewKeepsRawFields | src/models/types.ts:66-71 | a year view holds the raw year unchanged, down to its subjects |
| Projections.ViewCreditsAgree | src/contexts/AcademicContext.tsx:416-419 | summing credits over decorated UEs gives the raw total and the validated credits of calculateSemesterValidatedCredits |
| Projections.ProjectionsAgreeOnSemesters | src/contexts/AcademicContext.tsx:257-294 | the year projection decorates each semester exactly as getSemesterWithCalculations does |
| Projections.SemesterViewsValidatedIsYearCredits | src/contexts/AcademicContext.tsx:297-300 | the year's reduce over decorated semesters is the sum of their validated credits |
| Projections.YearViewCredits | src/contexts/AcademicContext.tsx:296-307 | year totalCredits is always 60, validatedCredits is the semesters' sum, canProgress iff at least 48, and validated never exceeds entered credits |
| Projections.SemesterViewCredits | src/contexts/AcademicContext.tsx:416-419 | a semester view has 0 ≤ validatedCredits ≤ totalCredits, and totalCredits is the sum of its UE credits |
| Projections.SubjectDecoratedAlike | src/contexts/AcademicContext.tsx:271-289 | the year, semester and UE projections decorate each subject identically (same averages and status) |
| Simulator.RetakeSubjects | src/contexts/AcademicContext.tsx:710-713 | the retake set is exactly the subjects whose final average is missing or below 7 |
| Simulator.Simulate | src/contexts/AcademicContext.tsx:699-812 | the simulator as a specification function; its branches are characterised by NoRetakeOutcome, SingleRetakeOutcome and MultiRetakeOutcome, and the loop version is proved equal to it in SimulateMinimumGrades |
| Simulator.RetakeSubjectsConcat | src/contexts/AcademicContext.tsx:709-712 | the retake filter keeps UE order: filtering a concatenation concatenates the filtered parts |
| Simulator.RoundUpToHalf | src/contexts/AcademicContext.tsx:763 | the rounded value is the least half point at or above x |
| Simulator.GradesFor | src/contexts/AcademicContext.tsx:798-805 | the grade map has exactly the retake ids as keys, each mapped to the same grade |
| Simulator.RetakeCoefficientsPositive | src/contexts/AcademicContext.tsx:776-783 | the retake coefficient total is non-negative, and positive as soon as one subject is retaken |
| Simulator.RetakeWeightPositive | src/contexts/AcademicContext.tsx:776-788 | with at least one retake subject the division at line 788 has a positive divisor |
| Simulator.AccumulateOtherPoints | src/contexts/AcademicContext.tsx:740-747 | the single-retake loop totals final·coef over the other subjects that have a final average |
| Simulator.AccumulateRetakeWeights | src/contexts/AcademicContext.tsx:776-783 | the multi-retake loop totals the points outside the retake set and the coefficients inside it |
| Simulator.FillMinimumGrades | src/contexts/AcademicContext.tsx:798-805 | the forEach maps every retake subject's id to the proposed grade |
| Simulator.SimulateMinimumGrades | src/contexts/AcademicContext.tsx:708-812 | the loop-based simulator returns exactly the result specified by Simulate |
| Simulator.NoRetakeOutcome | src/contexts/AcademicContext.tsx:716-731 | with nothing to retake there are no proposals, and the result is impossible iff the UE average exists and is below 10 (for a non-empty UE: possible iff validated) |
| Simulator.SingleRetakeOutcome | src/contexts/AcademicContext.tsx:734-767 | with one retake subject the target g solves the pass-mark equation g·coefficient + the other subjects' points = 10·Σcoefficients (subjects without a final average contribute nothing to the left side); above 20 the result is impossible with 20 proposed, otherwise g rounded up to a half point (g ≤ proposal < g + 0.5) is proposed |
| Simulator.MultiRetakeOutcome | src/contexts/AcademicContext.tsx:771-811 | with several retake subjects the shared target g solves g·Σretake coefficients + the points outside the retake set = 10·Σcoefficients; above 20 every retake subject gets 20 and the result is impossible, otherwise each gets max(7, g rounded up), which is at least 7 and at least g |
| Simulator.ImpossibleRetakesShowMaxGrade | src/contexts/AcademicContext.tsx:754-760 | whenever a retake path is declared impossible, every retake subject is shown 20 |
| Simulator.SingleRetakeProposalNotFloored | src/contexts/AcademicContext.tsx:762-766 | a concrete UE where the single-retake proposal is 2, below 7, and where reaching it leaves the UE invalid |
| Simulator.RetakeIdsExact | src/contexts/AcademicContext.tsx:710-713 | with distinct subject ids, an id is in the retake set iff its subject needs a retake |
| Simulator.PointsExceptIsNonRetake | src/contexts/AcademicContext.tsx:740-747 | the single-retake loop's total is the multi-retake loop's total outside the set holding the retaken id alone |
| Simulator.RetakeCoefficientsOfOne | src/contexts/AcademicContext.tsx:776-783 | with distinct ids, the retake weight of one subject's id is that subject's coefficient |
| Simulator.PointsWithRetakesAtSplits | src/contexts/AcademicContext.tsx:776-788 | crediting p on the retake set and keeping the other finals gives the non-retake points plus p times the retake coefficients |
| Simulator.RetakenPointsAtLeast | src/contexts/AcademicContext.tsx:95-114 | entering retake grade p on the ids yields a weighted total of at least the final points outside them plus p per retake coefficient, since a retake never lowers a final average |
| Simulator.RetakeGradesValidate | src/contexts/AcademicContext.tsx:733-811 | on a fully graded UE, a retake grade p ≥ 7 that is at least a solution g of the pass-mark equation, entered on exactly the subjects needing a retake, validates the UE |
| Simulator.MultiRetakeProposalValidates | src/contexts/AcademicContext.tsx:769-811 | with every subject graded and distinct ids, a multi-retake answer of possible means entering its proposed grades validates the UE |
| Simulator.SingleRetakeProposalValidates | src/contexts/AcademicContext.tsx:734-767 | with every subject graded and distinct ids, a single-retake answer of possible with a proposal of at least 7 means entering it validates the UE |
| Simulator.RetakenPointsAtMost | src/contexts/AcademicContext.tsx:95-114 | entering retake grades of at most 20 on subjects that need a retake earns at most the final points outside them plus 20 per retake coefficient |
| Simulator.ImpossibleShortfall | src/contexts/AcademicContext.tsx:749-796 | with distinct ids, an impossible answer means the other subjects' points plus 20 on the whole retake weight fall short of 10·Σcoefficients |
| Simulator.ImpossibleRetakesCannotValidate | src/contexts/AcademicContext.tsx:749-796 | with distinct ids, when the simulator answers impossible, no retake grade of at most 20 entered on the retake subjects validates the UE (the converse of the proposal lemmas) |
| Simulator.UngradedSubjectDeclaredReachable | src/contexts/AcademicContext.tsx:710-767 | a concrete UE whose subject lacks a devoir: the simulator answers possible with 10, yet even a retake of 20 leaves the UE invalid |
| AcademicTree.FindYear | src/contexts/AcademicContext.tsx:249-251 | the first year with the id; properties in FindById |
| AcademicTree.FindSemester | src/contexts/AcademicContext.tsx:374-380 | the first semester with the id in year order; properties in FindById and InSemestersOf |
| AcademicTree.FindUE | src/contexts/AcademicContext.tsx:504-512 | the first UE with the id in year, then semester order; properties in FindById and InUEsOf |
| AcademicTree.FindSubject | src/contexts/AcademicContext.tsx:662-672 | the first subject with the id in year, semester, then UE order; properties in FindById and InSubjectsOf |
| AcademicTree.FindById | src/contexts/AcademicContext.tsx:249-251 | a lookup finds nothing iff no element carries the id; otherwise it returns the first element carrying it |
| AcademicTree.WithoutId | src/contexts/AcademicContext.tsx:243 | the filter keeps exactly the elements whose id differs |
| AcademicTree.WithoutIdConcat | src/contexts/AcademicContext.tsx:243 | the id filter keeps order: filtering a concatenation concatenates the filtered parts |
| AcademicTree.FindAfterMap | src/contexts/AcademicContext.tsx:225-231 | an id-preserving rebuild keeps the first match in place and transforms it |
| AcademicTree.FindAfterRemoval | src/contexts/AcademicContext.tsx:237-247 | after filtering out an id it is no longer found, and every other id is found as before |
| AcademicTree.FindInAppended | src/contexts/AcademicContext.tsx:197-219 | appending never hides an earlier match, and the appended element is found only when nothing was |
| AcademicTree.InSemestersOf | src/contexts/AcademicContext.tsx:374-380 | the year-by-year walk visits exactly the semesters of the years |
| AcademicTree.InUEsOf | src/contexts/AcademicContext.tsx:504-512 | the semester-by-semester walk visits exactly the UEs of the semesters |
| AcademicTree.InSubjectsOf | src/contexts/AcademicContext.tsx:662-672 | the UE-by-UE walk visits exactly the subjects of the UEs |
| AcademicTree.SemestersOfMapSemesters | src/contexts/AcademicContext.tsx:344-351 | rebuilding every year's semesters with a step acts on the flat semester list as mapping that step |
| AcademicTree.AllUEsOfMapUEs | src/contexts/AcademicContext.tsx:468-478 | rebuilding every UE with a step acts on the flat UE list as mapping that step |
| AcademicTree.AllSubjectsOfMapSubjects | src/contexts/AcademicContext.tsx:588-601 | rebuilding every subject with a step acts on the flat subject list as mapping that step |
| AcademicTree.MapSemestersIdentity | src/contexts/AcademicContext.tsx:338-355 | a semester step that changes no semester leaves the tree unchanged |
| AcademicTree.MapUEsIdentity | src/contexts/AcademicContext.tsx:462-482 | a UE step that changes no UE leaves the tree unchanged |
| AcademicTree.MapSubjectsIdentity | src/contexts/AcademicContext.tsx:582-605 | a subject step that changes no subject leaves the tree unchanged |
| AcademicTree.WellLinkedMapSemesters | src/models/types.ts:15-20 | a semester rebuild that keeps back-references keeps the tree well linked |
| AcademicTree.WellLinkedMapUEs | src/models/types.ts:22-28 | a UE rebuild that keeps back-references keeps the tree well linked |
| AcademicTree.WellLinkedMapSubjects | src/models/types.ts:30-38 | a subject rebuild that keeps back-references keeps the tree well linked |
| AcademicOperations.AddYear | src/contexts/AcademicContext.tsx:197-219 | appends the year; effect in CreateYearEffect |
| AcademicOperations.RenameYear | src/contexts/AcademicContext.tsx:221-235 | retitles every year with the id; effect in UpdateYearEffect |
| AcademicOperations.RemoveYear | src/contexts/AcademicContext.tsx:237-247 | filters the year out; effect in DeleteYearEffect |
| AcademicOperations.AddSemester | src/contexts/AcademicContext.tsx:311-336 | appends the semester to every year with the parent id; effect in CreateSemesterEffect |
| AcademicOperations.RenameSemester | src/contexts/AcademicContext.tsx:338-355 | retitles every semester with the id; effect in UpdateSemesterEffect |
| AcademicOperations.RemoveSemester | src/contexts/AcademicContext.tsx:357-372 | filters the semester out of every year; effect in DeleteSemesterEffect |
| AcademicOperations.AddUE | src/contexts/AcademicContext.tsx:431-460 | appends the UE to every semester with the parent id; effect in CreateUEEffect |
| AcademicOperations.UpdateUE | src/contexts/AcademicContext.tsx:462-482 | renames and recredits every UE with the id; effect in UpdateUEEffect |
| AcademicOperations.RemoveUE | src/contexts/AcademicContext.tsx:484-502 | filters the UE out of every semester; effect in DeleteUEEffect |
| AcademicOperations.AddSubject | src/contexts/AcademicContext.tsx:546-580 | appends the subject to every UE with the parent id; effect in CreateSubjectEffect |
| AcademicOperations.UpdateSubject | src/contexts/AcademicContext.tsx:582-605 | renames and recoefficients every subject with the id; effect in UpdateSubjectEffect |
| AcademicOperations.UpdateSubjectGrades | src/contexts/AcademicContext.tsx:607-637 | replaces the three grades of every subject with the id; effect in UpdateSubjectGradesEffect |
| AcademicOperations.RemoveSubject | src/contexts/AcademicContext.tsx:639-660 | filters the subject out of every UE; effect in DeleteSubjectEffect |
| AcademicOperations.SemestersOfRemoveSemester | src/contexts/AcademicContext.tsx:357-372 | deleting a semester removes exactly that id from the flat semester list, keeping the order |
| AcademicOperations.AllUEsOfRemoveUE | src/contexts/AcademicContext.tsx:484-502 | deleting a UE removes exactly that id from the flat UE list, keeping the order |
| AcademicOperations.AllSubjectsOfRemoveSubject | src/contexts/AcademicContext.tsx:639-660 | deleting a subject removes exactly that id from the flat subject list, keeping the order |
| AcademicOperations.SemestersOfAddSemester | src/contexts/AcademicContext.tsx:311-336 | apart from the new id, creating a semester leaves the flat semester list unchanged |
| AcademicOperations.UEsOfAddUE | src/contexts/AcademicContext.tsx:431-460 | apart from the new id, creating a UE leaves the flat UE list unchanged |
| AcademicOperations.SubjectsOfAddSubject | src/contexts/AcademicContext.tsx:546-580 | apart from the new id, creating a subject leaves the flat subject list unchanged |
| AcademicOperations.InSemestersAfterAdd | src/contexts/AcademicContext.tsx:311-336 | after createSemester the semesters are the old ones plus the new one for each year with the parent id |
| AcademicOperations.InUEsAfterAdd | src/contexts/AcademicContext.tsx:431-460 | after createUE the UEs are the old ones plus the new one for each semester with the parent id |
| AcademicOperations.InSubjectsAfterAdd | src/contexts/AcademicContext.tsx:546-580 | after createSubject the subjects are the old ones plus the new one for each UE with the parent id |
| AcademicOperations.CreateYearEffect | src/contexts/AcademicContext.tsx:197-219 | createAcademicYear appends: earlier lookups are unchanged and a fresh id finds the new year |
| AcademicOperations.UpdateYearEffect | src/contexts/AcademicContext.tsx:221-235 | only the title of the year with that id changes; an absent id leaves the tree unchanged |
| AcademicOperations.DeleteYearEffect | src/contexts/AcademicContext.tsx:237-247 | the year is no longer found, other lookups are unchanged, its semesters go with it, and an absent id is a no-op |
| AcademicOperations.CreateSemesterEffect | src/contexts/AcademicContext.tsx:311-336 | with no such year nothing changes; the year found under the id gains the semester at the end of its list; lookups of other ids are unchanged; with the year present a fresh id finds the new semester |
| AcademicOperations.UpdateSemesterEffect | src/contexts/AcademicContext.tsx:338-355 | only the title of the semester with that id changes; every year's semester list is rebuilt with that retitling; an absent id is a no-op |
| AcademicOperations.DeleteSemesterEffect | src/contexts/AcademicContext.tsx:357-372 | the semester is no longer found, other lookups are unchanged, every year loses it from its list, the UEs left are those of the remaining semesters, and an absent id is a no-op |
| AcademicOperations.CreateUEEffect | src/contexts/AcademicContext.tsx:431-460 | with no such semester nothing changes; other lookups are unchanged; the parent semester gains the UE at its end; a fresh id finds the new UE |
| AcademicOperations.UpdateUEEffect | src/contexts/AcademicContext.tsx:462-482 | only the name and credits of the UE with that id change, inside every semester; an absent id is a no-op |
| AcademicOperations.DeleteUEEffect | src/contexts/AcademicContext.tsx:484-502 | the UE is no longer found, other lookups are unchanged, every semester loses it from its list, the subjects left are those of the remaining UEs, and an absent id is a no-op |
| AcademicOperations.CreateSubjectEffect | src/contexts/AcademicContext.tsx:546-580 | with no such UE nothing changes; the UE found under the id gains the subject at the end of its list; other lookups are unchanged; with the UE present a fresh id finds the new subject |
| AcademicOperations.UpdateSubjectEffect | src/contexts/AcademicContext.tsx:582-605 | only the name and coefficient of the subject with that id change, inside every UE's list; an absent id is a no-op |
| AcademicOperations.UpdateSubjectGradesEffect | src/contexts/AcademicContext.tsx:607-637 | only the three grades of the subject with that id are replaced, inside every UE's list; an absent id is a no-op |
| AcademicOperations.DeleteSubjectEffect | src/contexts/AcademicContext.tsx:639-660 | the subject is no longer found, every other lookup is unchanged, every UE loses it from its list, and an absent id is a no-op |
| AcademicOperations.YearOperationsKeepLinks | src/contexts/AcademicContext.tsx:197-247 | year create, update and delete keep every back-reference |
| AcademicOperations.SemesterOperationsKeepLinks | src/contexts/AcademicContext.tsx:311-372 | semester operations keep every back-reference when the new semester points to its year, as createSemester sets it at line 320 |
| AcademicOperations.UEOperationsKeepLinks | src/contexts/AcademicContext.tsx:431-502 | UE operations keep every back-reference when the new UE points to its semester, as createUE sets it at line 440 |
| AcademicOperations.SubjectOperationsKeepLinks | src/contexts/AcademicContext.tsx:546-660 | subject operations keep every back-reference when the new subject points to its UE, as createSubject sets it at line 556 |
| Store.AcademicStore.constructor | src/contexts/AcademicContext.tsx:62 | the store starts from the given years |
| Store.AcademicStore.CreateAcademicYear | src/contexts/AcademicContext.tsx:197-219 | without a signed-in user it fails and changes nothing; otherwise it appends an empty year owned by that user |
| Store.AcademicStore.UpdateAcademicYear | src/contexts/AcademicContext.tsx:221-235 | the new state is the year-title rebuild of the old one |
| Store.AcademicStore.DeleteAcademicYear | src/contexts/AcademicContext.tsx:237-247 | the new state is the old one without that year |
| Store.AcademicStore.GetAcademicYear | src/contexts/AcademicContext.tsx:249-251 | returns the first year with that id, or none iff no year carries it |
| Store.AcademicStore.GetAcademicYearWithCalculations | src/contexts/AcademicContext.tsx:253-308 | present iff the year is; holds the raw year, 60 total credits, the sum of its semesters' validated credits, and canProgress iff at least 48 of them |
| Store.AcademicStore.CreateSemester | src/contexts/AcademicContext.tsx:311-336 | returns an empty semester pointing to the year and appends it to every year with that id |
| Store.AcademicStore.UpdateSemester | src/contexts/AcademicContext.tsx:338-355 | the new state is the semester-title rebuild of the old one |
| Store.AcademicStore.DeleteSemester | src/contexts/AcademicContext.tsx:357-372 | the new state filters that semester out of every year |
| Store.AcademicStore.GetSemester | src/contexts/AcademicContext.tsx:374-380 | the loop returns the first semester with the id in year order, or none |
| Store.AcademicStore.GetSemesterWithCalculations | src/contexts/AcademicContext.tsx:382-428 | present iff the semester is; holds the raw semester, the engine's semester average, the credit sum and the validated-credit sum |
| Store.AcademicStore.CreateUE | src/contexts/AcademicContext.tsx:431-460 | returns an empty UE pointing to the semester and appends it to every semester with that id |
| Store.AcademicStore.UpdateUE | src/contexts/AcademicContext.tsx:462-482 | the new state is the UE name-and-credits rebuild of the old one |
| Store.AcademicStore.DeleteUE | src/contexts/AcademicContext.tsx:484-502 | the new state filters that UE out of every semester |
| Store.FindUEInSemesters | src/contexts/AcademicContext.tsx:506-509 | the walk over one year's semesters returns the first UE with the id among their UEs, or none |
| Store.AcademicStore.GetUE | src/contexts/AcademicContext.tsx:504-512 | the nested loops return the first UE with the id in year, then semester order, or none |
| Store.AcademicStore.GetUEWithCalculations | src/contexts/AcademicContext.tsx:514-543 | present iff the UE is; holds the raw UE, the engine's UE average, and isValid iff the UE is validated |
| Store.AcademicStore.CreateSubject | src/contexts/AcademicContext.tsx:546-580 | returns a subject without grades pointing to the UE and appends it to every UE with that id |
| Store.AcademicStore.UpdateSubject | src/contexts/AcademicContext.tsx:582-605 | the new state is the subject name-and-coefficient rebuild of the old one |
| Store.AcademicStore.UpdateSubjectGrades | src/contexts/AcademicContext.tsx:607-637 | the new state is the subject-grades rebuild of the old one |
| Store.AcademicStore.DeleteSubject | src/contexts/AcademicContext.tsx:639-660 | the new state filters that subject out of every UE |
| Store.FindSubjectInUEs | src/contexts/AcademicContext.tsx:665-668 | the walk over one semester's UEs returns the first subject with the id among their subjects, or none |
| Store.AcademicStore.GetSubject | src/contexts/AcademicContext.tsx:662-672 | the nested loops return the first subject with the id in year, semester, then UE order, or none |
| Store.AcademicStore.GetSubjectWithCalculations | src/contexts/AcademicContext.tsx:674-696 | present iff the subject is; holds the raw subject and the engine's initial average, final average and status, so status is danger iff the final average is below 7 |
| Store.AcademicStore.SimulateMinimumGrades | src/contexts/AcademicContext.tsx:699-812 | an unknown UE gives an empty map and isPossible false; a known one gives the simulator's result |
| SimulationsPage.SeedOfStoredSubjects | src/pages/Simulations.tsx:43-52 | with distinct ids, seeding from a stored UE gives each subject its final average, or 0 without one |
| SimulationsPage.SeedGrades | src/pages/Simulations.tsx:43-52 | the seeded grades have exactly one key per subject id of the UE |
| SimulationsPage.SeedInitialGrades | src/pages/Simulations.tsx:43-53 | the forEach builds exactly the seeded grade map |
| SimulationsPage.SimulationsPage.constructor | src/pages/Simulations.tsx:8-16 | the page starts with no year, no UE, no grades and no verdict |
| SimulationsPage.SimulationsPage.OnSelectedYearChange | src/pages/Simulations.tsx:29-34 | choosing a year records it, then clears the selected UE, the grades, the loaded UE and the verdict |
| SimulationsPage.SimulationsPage.OnSelectedUEChange | src/pages/Simulations.tsx:37-60 | the chosen UE id is recorded; no UE clears the loaded UE and grades; a found UE is loaded with its seeded grades; an unknown one changes neither; the verdict is cleared |
| SimulationsPage.SimulationsPage.HandleGradeChange | src/pages/Simulations.tsx:62-70 | a value within [0, 20] is recorded for the subject, anything else leaves the grades unchanged, so grades stay within 0..20 |
| SimulationsPage.EveryGraded | src/pages/Simulations.tsx:76-78 | answers true exactly when every subject of the UE has a simulated grade |
| SimulationsPage.EveryAtLeastPassMark | src/pages/Simulations.tsx:90-92 | answers true exactly when every simulated grade is at least 7 |
| SimulationsPage.SumWeightedGrades | src/pages/Simulations.tsx:104-110 | accumulates exactly Σ grade·coefficient and Σ coefficient over the subjects |
| SimulationsPage.EvaluateSimulation | src/pages/Simulations.tsx:72-127 | the verdict of runSimulation as a function: missing grades, a grade below 7, or the weighted average and whether it reaches 10; its range in SimulatedAverageInScale and its agreement with the engine in SimulatingCurrentGradesAgrees |
| SimulationsPage.SimulationsPage.RunSimulation | src/pages/Simulations.tsx:72-127 | without a loaded UE nothing changes; otherwise the verdict is EvaluateSimulation of the loaded subjects and grades |
| SimulationsPage.SeedGradesLookup | src/pages/Simulations.tsx:43-52 | with distinct ids each subject is seeded with its own seed value |
| SimulationsPage.SeedValuesComeFromSubjects | src/pages/Simulations.tsx:43-52 | every seeded grade is some subject's final average, initial average or 0 |
| SimulationsPage.SeedFromProjection | src/pages/Simulations.tsx:45-50 | for a decorated stored subject the seed is its final average, or 0 without one: the initial-average fallback never fires |
| SimulationsPage.SeedWithinScale | src/pages/Simulations.tsx:43-52 | grades within 0..20 give seeded grades within 0..20 |
| SimulationsPage.SeededSumsAreCompletedSums | src/pages/Simulations.tsx:104-110 | summing seeded grades gives the grade engine's weighted total and coefficient sum |
| SimulationsPage.WeightedGradesBetween | src/pages/Simulations.tsx:104-110 | grades in [lo, hi] with positive coefficients give a weighted total between lo and hi times the coefficients |
| SimulationsPage.CoefficientsPositive | src/pages/Simulations.tsx:104-112 | a non-empty UE with positive coefficients divides by a positive total |
| SimulationsPage.SimulatedAverageInScale | src/pages/Simulations.tsx:104-126 | a computed simulated average lies within 7..20 |
| SimulationsPage.SimulatingCurrentGradesAgrees | src/pages/Simulations.tsx:72-127 | simulating a UE with the grades seeded from it is valid iff the UE is validated, and then reports the UE average |
| SemesterDetail.RemainingCredits | src/pages/academic/SemesterDetail.tsx:122-123 | 30 minus the semester's credit total; used by the form bounds in FormBoundsPassChecks |
| SemesterDetail.CreateButtonEnabled | src/pages/academic/SemesterDetail.tsx:180 | the add button is enabled exactly while the remaining credits are positive, that is, while the total is below 30 |
| SemesterDetail.CreateFormAccepts | src/pages/academic/SemesterDetail.tsx:244-253 | the create form accepts credits from 1 to the remaining credits; FormBoundsPassChecks shows these pass CheckCreate |
| SemesterDetail.EditFormAccepts | src/pages/academic/SemesterDetail.tsx:339-349 | the edit form accepts credits from 1 to the remaining credits plus the edited UE's own; FormBoundsPassChecks shows these pass CheckEdit |
| SemesterDetail.CheckCreate | src/pages/academic/SemesterDetail.tsx:54-60 | a new UE is accepted iff current total + credits ≤ 30, reaching exactly 30 included |
| SemesterDetail.CheckEdit | src/pages/academic/SemesterDetail.tsx:78-90 | "UE non trouvée" iff the UE is not in the semester; otherwise accepted iff the other UEs' credits plus the new value are ≤ 30 |
| SemesterDetail.OnCreateSubmit | src/pages/academic/SemesterDetail.tsx:51-71 | a refusal leaves the store unchanged; an acceptance creates the UE in the semester |
| SemesterDetail.OnEditSubmit | src/pages/academic/SemesterDetail.tsx:73-100 | no UE being edited does nothing; a refusal leaves the store unchanged; an acceptance updates the UE |
| SemesterDetail.ViewsWithoutId | src/pages/academic/SemesterDetail.tsx:82-84 | filtering decorated UEs by id is decorating the filtered UEs |
| SemesterDetail.TotalWithoutOne | src/pages/academic/SemesterDetail.tsx:82-86 | with distinct ids the total is the other UEs' credits plus the edited UE's |
| SemesterDetail.UpdatedTotal | src/pages/academic/SemesterDetail.tsx:82-92 | with distinct ids, after updateUE the total is the other UEs' credits plus the new value |
| SemesterDetail.CreateKeepsSemesterWithinCap | src/pages/academic/SemesterDetail.tsx:55-62 | an accepted create leaves the semester with at most 30 credits |
| SemesterDetail.EditKeepsSemesterWithinCap | src/pages/academic/SemesterDetail.tsx:79-92 | an accepted edit leaves the semester with at most 30 credits |
| SemesterDetail.FormBoundsPassChecks | src/pages/academic/SemesterDetail.tsx:122-123 | any credits the create form accepts (1..remaining) pass the create check; any the edit form accepts (1..remaining + own) pass the edit check |

## Left out

- Persistence: loading from and saving to `localStorage` with JSON (`src/contexts/AcademicContext.tsx:67-84`) is I/O.
- The simulated latency (`setTimeout`/`await`), the `loading` flag and the try/catch around each operation are left out. The operations are synchronous.
- `Date.now().toString()` identifiers are a clock read, and two may collide in the source. Each create takes the new id as an argument. The lemmas about finding the new entity require that id to be fresh at its level.
- Floating point and `toFixed` are left out, and the human-readable `message` strings are left out. Numbers are exact `real`s. `SimulationResult` keeps `minimumGrades` and `isPossible` only, and the page verdict records which of its three messages applies (`Outcome`).
- Authentication is left out, except the signed-in user passed to `createAcademicYear`. The `User` record (`src/models/types.ts:1-6`) is not modelled.
- The `ValidationStatus` interface (`src/models/types.ts:40-45`) is left out: no core function produces it.
- Rendering is left out: the JSX, toasts, form plumbing, `startEdit`, `handleDelete`'s confirmation and the `availableUEs` list on the simulation page.
- `parseFloat` is left out: `HandleGradeChange` receives its outcome as an `Option<real>`.
- Store.AcademicStore.SimulateMinimumGrades requires positive coefficients on the UE it finds. With a zero coefficient sum the source divides by zero and produces `NaN` or `Infinity`, which the model does not represent. The forms enforce a positive coefficient.
- Simulator.SimulateMinimumGrades: same precondition as above.
- SimulationsPage.SimulatingCurrentGradesAgrees requires distinct subject ids and positive coefficients. With repeated ids the seeded map keeps only the last subject's value.
- Simulator.MultiRetakeProposalValidates requires every subject to have both regular grades and distinct subject ids. Without the grades the promise is false (`Simulator.UngradedSubjectDeclaredReachable`). With repeated ids the grade map cannot tell the copies apart.
- Simulator.SingleRetakeProposalValidates: same requirements, and also a proposal of at least 7. Below 7 the promise is false (`Simulator.SingleRetakeProposalNotFloored`).
- Simulator.ImpossibleRetakesCannotValidate requires distinct subject ids, for the same reason as the proposal lemmas. It covers grades up to 20, the top of the scale.
- SemesterDetail.EditKeepsSemesterWithinCap requires distinct UE ids in the semester. With duplicate ids, `updateUE` rewrites every copy while the check counts one.
- SemesterDetail.FormBoundsPassChecks: the edit half requires distinct UE ids, for the same reason.
- SemesterDetail.OnCreateSubmit requires the semester to be loaded. Otherwise the page shows only a spinner, warns and navigates away, so no form is shown (`src/pages/academic/SemesterDetail.tsx:37-49`).
- SemesterDetail.OnEditSubmit: same requirement as `OnCreateSubmit`.

## Notes on the code

- The single-retake branch of `simulateMinimumGrades` proposes the rounded target with no floor at 7 (`src/contexts/AcademicContext.tsx:762-766`). The multi-retake branch floors at 7 (line 802). A single-retake proposal can therefore be below 7. A retake at that grade leaves the UE invalid, as `Simulator.SingleRetakeProposalNotFloored` exhibits. The model keeps the behaviour as written.
- The retake set of `simulateMinimumGrades` includes subjects with no final average (line 711), that is, subjects missing an interrogation or a devoir. The pass-mark equations give such a subject a target and the branch can answer that a retake will validate the UE (line 765). A retake alone never gives such a subject an average (lines 87-114), so the UE stays invalid: `Simulator.UngradedSubjectDeclaredReachable` exhibits a UE answered possible with 10 that a retake of 20 does not validate. When every subject has both regular grades and ids are distinct, the promise holds: the multi-retake proposal validates the UE (`Simulator.MultiRetakeProposalValidates`), and so does a single-retake proposal of at least 7 (`Simulator.SingleRetakeProposalValidates`). The impossible answer is always right: with distinct ids no retake grade up to 20 validates such a UE (`Simulator.ImpossibleRetakesCannotValidate`). The model keeps the behaviour as written.
- On the simulation page, the seed falls back to the initial average when there is no final average. That fallback is unreachable, because a final average exists whenever an initial one does (`SimulationsPage.SeedFromProjection`).
- The create and update operations act on every entity whose id matches. The `get*` lookups return the first match in year → semester → UE order. The model keeps both behaviours.
