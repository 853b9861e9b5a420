/** The three tables of the grade store (`Alunos`, `modules`, `module_data`), the
    constraints the schema itself enforces, and the "complete grid" invariant that
    the two enrollment cascades are meant to keep. */
module Schema {
  import opened Basics

  /** A row of `Alunos`. `number` is `numero_matricula`, the UNIQUE column. */
  datatype Student = Student(
    id: nat,
    name: string,
    number: string,
    enrolledOn: string,
    certificates: int,
    referral: Option<string>,
    notes: Option<string>)

  /** A row of `modules`; `name` is UNIQUE. */
  datatype Module = Module(id: nat, name: string)

  /** The five value columns of `module_data`. The REAL grade columns are only ever
      copied, never computed with, so they are modelled as integers. */
  datatype Grades = Grades(absences: int, tutorGrade: int, regularGrade: int, makeupGrade: int, finalGrade: int)

  /** The values a cascade writes: absences and all four grades zero. */
  const NoGrades := Grades(0, 0, 0, 0, 0)

  /** A row of `module_data`. The two references are plain integers: foreign keys are
      declared but never enforced, so nothing ties them to existing parents. */
  datatype GradeRow = GradeRow(id: nat, studentId: int, moduleId: int, grades: Grades)

  /** The database. Each table is kept in rowid order; each `last…Id` is the largest id
      AUTOINCREMENT has issued for that table, so the next insert gets `last…Id + 1`
      and a deleted id is never reissued. */
  datatype Store = Store(
    students: seq<Student>,
    modules: seq<Module>,
    rows: seq<GradeRow>,
    lastStudentId: nat,
    lastModuleId: nat,
    lastRowId: nat)

  /** A freshly initialised database. */
  const EmptyStore := Store([], [], [], 0, 0, 0)

  /** Why a request was answered with 400. */
  datatype Rejection = MissingField | Duplicate | NothingToUpdate

  /** The HTTP status of a handler's reply. */
  datatype Status = Ok | Created | BadRequest(why: Rejection) | NotFound | ServerError

  /** What a mutating handler returns: its status and the database after it. */
  datatype Outcome = Outcome(status: Status, store: Store)

  function StudentIdBefore(a: Student, b: Student): bool { a.id < b.id }
  function NumbersDiffer(a: Student, b: Student): bool { a.number != b.number }
  function ModuleIdBefore(a: Module, b: Module): bool { a.id < b.id }
  function NamesDiffer(a: Module, b: Module): bool { a.name != b.name }
  function RowIdBefore(a: GradeRow, b: GradeRow): bool { a.id < b.id }

  /** What the schema itself guarantees: primary keys issued in increasing order and
      never beyond the AUTOINCREMENT counter, `numero_matricula` and module `nome` UNIQUE. */
  ghost predicate Consistent(st: Store) {
    && Pairwise(st.students, StudentIdBefore)
    && Pairwise(st.students, NumbersDiffer)
    && (forall s :: s in st.students ==> s.id <= st.lastStudentId)
    && Pairwise(st.modules, ModuleIdBefore)
    && Pairwise(st.modules, NamesDiffer)
    && (forall m :: m in st.modules ==> m.id <= st.lastModuleId)
    && Pairwise(st.rows, RowIdBefore)
    && (forall r :: r in st.rows ==> r.id <= st.lastRowId)
  }

  predicate HasStudentId(students: seq<Student>, id: int) {
    exists i | 0 <= i < |students| :: students[i].id == id
  }

  predicate HasModuleId(modules: seq<Module>, id: int) {
    exists i | 0 <= i < |modules| :: modules[i].id == id
  }

  /** Whether a grade row belongs to the (student, module) pair. */
  predicate RowOf(r: GradeRow, studentId: int, moduleId: int) {
    r.studentId == studentId && r.moduleId == moduleId
  }

  /** The number of grade rows for the pair. */
  function CountPair(rows: seq<GradeRow>, studentId: int, moduleId: int): nat {
    if |rows| == 0 then 0
    else (if RowOf(rows[0], studentId, moduleId) then 1 else 0) + CountPair(rows[1..], studentId, moduleId)
  }

  /** The enrollment invariant: exactly one grade row for every (student, module) pair,
      and no row naming an id that AUTOINCREMENT has not issued yet (such a row would
      collide with the cascade of the student or module that later gets that id). */
  ghost predicate CompleteGrid(st: Store) {
    && (forall r :: r in st.rows ==> r.studentId <= st.lastStudentId && r.moduleId <= st.lastModuleId)
    && (forall s, m :: s in st.students && m in st.modules ==> CountPair(st.rows, s.id, m.id) == 1)
  }

  ghost predicate Invariant(st: Store) {
    Consistent(st) && CompleteGrid(st)
  }

  /** Counting distributes over concatenation. */
  /** In a table in strict id order, an id names at most one position. */
  lemma StudentIdNamesOnePosition(students: seq<Student>, i: nat, k: nat)
    requires Pairwise(students, StudentIdBefore)
    requires i < |students| && k < |students| && students[i].id == students[k].id
    ensures i == k
  {
  }

  lemma {:induction false} CountPairAppend(a: seq<GradeRow>, b: seq<GradeRow>, studentId: int, moduleId: int)
    ensures CountPair(a + b, studentId, moduleId) == CountPair(a, studentId, moduleId) + CountPair(b, studentId, moduleId)
  {
    if |a| == 0 {
      assert a + b == b;
    } else {
      assert (a + b)[1..] == a[1..] + b;
      CountPairAppend(a[1..], b, studentId, moduleId);
    }
  }

  /** A pair no row belongs to has no rows. */
  lemma {:induction false} CountPairAbsent(rows: seq<GradeRow>, studentId: int, moduleId: int)
    requires forall r :: r in rows ==> !RowOf(r, studentId, moduleId)
    ensures CountPair(rows, studentId, moduleId) == 0
  {
    if |rows| > 0 {
      assert rows[0] in rows;
      assert forall r :: r in rows[1..] ==> r in rows;
      CountPairAbsent(rows[1..], studentId, moduleId);
    }
  }

  /** A pair with at least one row has a row that belongs to it. */
  lemma {:induction false} CountPairWitness(rows: seq<GradeRow>, studentId: int, moduleId: int)
    requires CountPair(rows, studentId, moduleId) > 0
    ensures exists i :: 0 <= i < |rows| && RowOf(rows[i], studentId, moduleId)
  {
    if !RowOf(rows[0], studentId, moduleId) {
      CountPairWitness(rows[1..], studentId, moduleId);
      var i :| 0 <= i < |rows[1..]| && RowOf(rows[1..][i], studentId, moduleId);
      assert RowOf(rows[i + 1], studentId, moduleId);
    }
  }

  /** A pair that owns some row has at least one row. */
  lemma {:induction false} CountPairPresent(rows: seq<GradeRow>, studentId: int, moduleId: int, j: nat)
    requires j < |rows| && RowOf(rows[j], studentId, moduleId)
    ensures CountPair(rows, studentId, moduleId) > 0
  {
    if j > 0 {
      CountPairPresent(rows[1..], studentId, moduleId, j - 1);
    }
  }

  /** A pair with no rows owns none of them. */
  lemma {:induction false} CountPairZero(rows: seq<GradeRow>, studentId: int, moduleId: int)
    requires CountPair(rows, studentId, moduleId) == 0
    ensures forall j :: 0 <= j < |rows| ==> !RowOf(rows[j], studentId, moduleId)
  {
    if |rows| > 0 {
      CountPairZero(rows[1..], studentId, moduleId);
      assert forall j :: 1 <= j < |rows| ==> rows[j] == rows[1..][j - 1];
    }
  }

  /** Whether two row tables agree position by position on which pair each row belongs to. */
  ghost predicate SamePairs(a: seq<GradeRow>, b: seq<GradeRow>) {
    && |a| == |b|
    && forall i :: 0 <= i < |a| ==> a[i].studentId == b[i].studentId && a[i].moduleId == b[i].moduleId
  }

  /** Rewriting grade values never changes how many rows a pair has. */
  lemma {:induction false} SamePairsSameCount(a: seq<GradeRow>, b: seq<GradeRow>, studentId: int, moduleId: int)
    requires SamePairs(a, b)
    ensures CountPair(a, studentId, moduleId) == CountPair(b, studentId, moduleId)
  {
    if |a| > 0 {
      assert SamePairs(a[1..], b[1..]) by {
        forall i | 0 <= i < |a[1..]| ensures a[1..][i].studentId == b[1..][i].studentId && a[1..][i].moduleId == b[1..][i].moduleId {
          assert a[1..][i] == a[i + 1] && b[1..][i] == b[i + 1];
        }
      }
      SamePairsSameCount(a[1..], b[1..], studentId, moduleId);
    }
  }
}
