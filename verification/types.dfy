/**
 * The raw entities of the academic tree and the derived views computed
 * from them (src/models/types.ts).
 */
module Types {
  import opened Wrappers

  /** Opaque identifiers; the application derives them from a clock. */
  type Id = string

  /** A grade-bearing subject; each of the three grades may be unset. */
  datatype Subject = Subject(
    id: Id,
    name: string,
    coefficient: real,
    ueId: Id,
    interrogation: Option<real>,
    devoir: Option<real>,
    rattrapage: Option<real>)

  /** A teaching unit ("UE"): a credit-bearing group of subjects. */
  datatype UE = UE(id: Id, name: string, credits: real, semesterId: Id, subjects: seq<Subject>)

  datatype Semester = Semester(id: Id, title: string, academicYearId: Id, ues: seq<UE>)

  datatype AcademicYear = AcademicYear(id: Id, title: string, userId: Id, semesters: seq<Semester>)

  /** The three-valued colour a subject is shown with. */
  datatype Status = Success | Warning | Danger

  /** A subject with every raw field plus its derived averages and status. */
  datatype SubjectWithCalculations = SubjectWithCalculations(
    id: Id,
    name: string,
    coefficient: real,
    ueId: Id,
    interrogation: Option<real>,
    devoir: Option<real>,
    rattrapage: Option<real>,
    initialAverage: Option<real>,
    finalAverage: Option<real>,
    status: Status)

  /** A UE with its raw fields, its average and validity, and decorated subjects. */
  datatype UEWithCalculations = UEWithCalculations(
    id: Id,
    name: string,
    credits: real,
    semesterId: Id,
    average: Option<real>,
    isValid: bool,
    subjects: seq<SubjectWithCalculations>)

  /** A semester with its raw fields, credit totals, average and decorated UEs. */
  datatype SemesterWithCalculations = SemesterWithCalculations(
    id: Id,
    title: string,
    academicYearId: Id,
    average: Option<real>,
    totalCredits: real,
    validatedCredits: real,
    ues: seq<UEWithCalculations>)

  /** A year with its raw fields, credit totals, progression flag and decorated semesters. */
  datatype AcademicYearWithCalculations = AcademicYearWithCalculations(
    id: Id,
    title: string,
    userId: Id,
    totalCredits: real,
    validatedCredits: real,
    canProgress: bool,
    semesters: seq<SemesterWithCalculations>)

  /** The outcome of the retake simulator: proposed grade per subject id and feasibility. */
  datatype SimulationResult = SimulationResult(minimumGrades: map<Id, real>, isPossible: bool)

  /** The raw subject a decorated subject was built from. */
  function RawSubject(v: SubjectWithCalculations): Subject
  {
    Subject(v.id, v.name, v.coefficient, v.ueId, v.interrogation, v.devoir, v.rattrapage)
  }

  /** Grades are expected on the 0..20 scale. */
  predicate GradeInRange(g: Option<real>)
  {
    g.Some? ==> 0.0 <= g.value <= 20.0
  }

  predicate GradesInRange(s: Subject)
  {
    GradeInRange(s.interrogation) && GradeInRange(s.devoir) && GradeInRange(s.rattrapage)
  }
}
