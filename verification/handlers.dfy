/** The Flask handlers of app.py as pure functions from a store (and the request's
    fields) to a status and the store after the request. A handler that fails before
    committing leaves the store exactly as it was. */
module Handlers {
  import opened Basics
  import opened Schema
  import opened Cascade

  /** Python truthiness of an optional JSON string: present, not null, not empty. */
  predicate Given(s: Option<string>) {
    s.Some? && s.value != ""
  }

  /** Python truthiness of an optional JSON number: present, not null, not zero. */
  predicate Truthy(v: Option<int>) {
    v.Some? && v.value != 0
  }

  predicate HasModuleNamed(modules: seq<Module>, name: string) {
    exists i | 0 <= i < |modules| :: modules[i].name == name
  }

  predicate HasStudentNumber(students: seq<Student>, number: string) {
    exists i | 0 <= i < |students| :: students[i].number == number
  }

  // ---------------------------------------------------------------------------
  // Creating modules and students, with their cascades

  /** `criar_modulo`: a non-empty, not yet used name creates the module and a zero
      row for every student, all in one transaction; otherwise nothing is written. */
  function CreateModule(st: Store, name: Option<string>): (r: Outcome)
    ensures r.status == Created || r.status == BadRequest(MissingField) || r.status == BadRequest(Duplicate)
    ensures r.status == BadRequest(MissingField) <==> !Given(name)
    ensures r.status == BadRequest(Duplicate) <==> Given(name) && HasModuleNamed(st.modules, name.value)
    ensures r.status != Created ==> r.store == st
    ensures r.status == Created ==>
      && r.store.students == st.students
      && r.store.lastStudentId == st.lastStudentId
      && r.store.modules == st.modules + [Module(st.lastModuleId + 1, name.value)]
      && r.store.lastModuleId == st.lastModuleId + 1
      && |r.store.rows| == |st.rows| + |st.students|
      && r.store.rows[..|st.rows|] == st.rows
      && r.store.lastRowId == st.lastRowId + |st.students|
      && (forall i :: |st.rows| <= i < |r.store.rows| ==>
            r.store.rows[i].id == st.lastRowId + 1 + (i - |st.rows|)
            && r.store.rows[i].moduleId == st.lastModuleId + 1
            && r.store.rows[i].grades == NoGrades)
  {
    if !Given(name) then Outcome(BadRequest(MissingField), st)
    else if HasModuleNamed(st.modules, name.value) then Outcome(BadRequest(Duplicate), st)
    else
      var id := st.lastModuleId + 1;
      Outcome(Created, st.(
        modules := st.modules + [Module(id, name.value)],
        rows := st.rows + ModuleCascade(st.students, id, st.lastRowId + 1),
        lastModuleId := id,
        lastRowId := st.lastRowId + |st.students|))
  }

  /** The JSON body of `adicionar_aluno`; `None` is a missing key or a null. */
  datatype NewStudent = NewStudent(
    name: Option<string>,
    number: Option<string>,
    enrolledOn: Option<string>,
    certificates: Option<int>,
    referral: Option<string>,
    notes: Option<string>)

  /** The three text fields must be non-empty; `atestados` only has to be present,
      so zero certificates is accepted. */
  predicate StudentFieldsGiven(p: NewStudent) {
    Given(p.name) && Given(p.number) && Given(p.enrolledOn) && p.certificates.Some?
  }

  /** The `Alunos` row a request with complete fields inserts under `id`. */
  function NewRecord(id: nat, p: NewStudent): Student
    requires StudentFieldsGiven(p)
  {
    Student(id, p.name.value, p.number.value, p.enrolledOn.value, p.certificates.value, p.referral, p.notes)
  }

  /** `adicionar_aluno`: complete fields and an unused `numero_matricula` add the student
      and a zero row for every module, in one transaction; otherwise nothing is written. */
  function AddStudent(st: Store, p: NewStudent): (r: Outcome)
    ensures r.status == Created || r.status == BadRequest(MissingField) || r.status == BadRequest(Duplicate)
    ensures r.status == BadRequest(MissingField) <==> !StudentFieldsGiven(p)
    ensures r.status == BadRequest(Duplicate) <==> StudentFieldsGiven(p) && HasStudentNumber(st.students, p.number.value)
    ensures r.status != Created ==> r.store == st
    ensures r.status == Created ==>
      && r.store.students == st.students + [NewRecord(st.lastStudentId + 1, p)]
      && r.store.lastStudentId == st.lastStudentId + 1
      && r.store.modules == st.modules
      && r.store.lastModuleId == st.lastModuleId
      && |r.store.rows| == |st.rows| + |st.modules|
      && r.store.rows[..|st.rows|] == st.rows
      && r.store.lastRowId == st.lastRowId + |st.modules|
      && (forall i :: |st.rows| <= i < |r.store.rows| ==>
            r.store.rows[i].id == st.lastRowId + 1 + (i - |st.rows|)
            && r.store.rows[i].studentId == st.lastStudentId + 1
            && r.store.rows[i].grades == NoGrades)
  {
    if !StudentFieldsGiven(p) then Outcome(BadRequest(MissingField), st)
    else if HasStudentNumber(st.students, p.number.value) then Outcome(BadRequest(Duplicate), st)
    else
      var id := st.lastStudentId + 1;
      Outcome(Created, st.(
        students := st.students + [NewRecord(id, p)],
        rows := st.rows + StudentCascade(st.modules, id, st.lastRowId + 1),
        lastStudentId := id,
        lastRowId := st.lastRowId + |st.modules|))
  }

  // ---------------------------------------------------------------------------
  // Editing and deleting students and modules

  /** The JSON body of `editar_aluno`. */
  datatype StudentEdit = StudentEdit(
    name: Option<string>,
    enrolledOn: Option<string>,
    certificates: Option<int>,
    referral: Option<string>,
    notes: Option<string>)

  /** A null written to a NOT NULL column raises an IntegrityError the handler does
      not catch: the request fails with a server error and nothing is committed. */
  predicate ViolatesNotNull(e: StudentEdit) {
    e.name.None? || e.enrolledOn.None? || e.certificates.None?
  }

  /** `editar_aluno`: every column except `id` and `numero_matricula` is overwritten with
      the request's value, so an absent `encaminhamento` or `obs` is cleared. */
  function EditStudent(st: Store, number: string, e: StudentEdit): (r: Outcome)
    ensures r.status == Ok || r.status == NotFound || r.status == ServerError
    ensures r.status == NotFound <==> !HasStudentNumber(st.students, number)
    ensures r.status == ServerError <==> HasStudentNumber(st.students, number) && ViolatesNotNull(e)
    ensures r.status != Ok ==> r.store == st
    ensures r.status == Ok ==>
      && r.store == st.(students := r.store.students)
      && |r.store.students| == |st.students|
      && forall i :: 0 <= i < |st.students| ==>
           var before, after := st.students[i], r.store.students[i];
           && after.id == before.id
           && after.number == before.number
           && (before.number != number ==> after == before)
           && (before.number == number ==>
                 && after.name == e.name.value
                 && after.enrolledOn == e.enrolledOn.value
                 && after.certificates == e.certificates.value
                 && after.referral == e.referral
                 && after.notes == e.notes)
  {
    if !HasStudentNumber(st.students, number) then Outcome(NotFound, st)
    else if ViolatesNotNull(e) then Outcome(ServerError, st)
    else
      var students := seq(|st.students|, i requires 0 <= i < |st.students| =>
        var s := st.students[i];
        if s.number == number
        then s.(name := e.name.value, enrolledOn := e.enrolledOn.value, certificates := e.certificates.value,
                referral := e.referral, notes := e.notes)
        else s);
      Outcome(Ok, st.(students := students))
  }

  /** `excluir_aluno`: removes the student row only. Foreign keys are not enforced, so
      the student's grade rows stay behind. */
  function DeleteStudent(st: Store, number: string): (r: Outcome)
    ensures r.status == Ok || r.status == NotFound
    ensures r.status == NotFound <==> !HasStudentNumber(st.students, number)
    ensures r.status == NotFound ==> r.store == st
    ensures r.status == Ok ==> r.store == st.(students := r.store.students)
    ensures r.status == Ok ==> forall s :: s in r.store.students <==> s in st.students && s.number != number
  {
    if !HasStudentNumber(st.students, number) then Outcome(NotFound, st)
    else Outcome(Ok, st.(students := Filter(st.students, (s: Student) => s.number != number)))
  }

  /** `excluir_modulo`: removes the module row only; its grade rows stay behind. */
  function DeleteModule(st: Store, name: Option<string>): (r: Outcome)
    ensures r.status == Ok || r.status == NotFound || r.status == BadRequest(MissingField)
    ensures r.status == BadRequest(MissingField) <==> !Given(name)
    ensures r.status == NotFound <==> Given(name) && !HasModuleNamed(st.modules, name.value)
    ensures r.status != Ok ==> r.store == st
    ensures r.status == Ok ==> r.store == st.(modules := r.store.modules)
    ensures r.status == Ok ==> forall m :: m in r.store.modules <==> m in st.modules && m.name != name.value
  {
    if !Given(name) then Outcome(BadRequest(MissingField), st)
    else if !HasModuleNamed(st.modules, name.value) then Outcome(NotFound, st)
    else Outcome(Ok, st.(modules := Filter(st.modules, (m: Module) => m.name != name.value)))
  }

  // ---------------------------------------------------------------------------
  // Writing grade rows

  /** Rewrites the grades of every row of the pair with `f`; there may be none, or
      several, since nothing makes the pair unique. */
  function UpdateRows(rows: seq<GradeRow>, studentId: int, moduleId: int, f: Grades -> Grades): (r: seq<GradeRow>)
    ensures SamePairs(rows, r)
    ensures forall i :: 0 <= i < |rows| ==> r[i].id == rows[i].id
  {
    seq(|rows|, i requires 0 <= i < |rows| =>
      if RowOf(rows[i], studentId, moduleId) then rows[i].(grades := f(rows[i].grades)) else rows[i])
  }

  /** Five optional grade values: the JSON body of both grade-update requests. */
  datatype GradeFields = GradeFields(
    absences: Option<int>,
    tutorGrade: Option<int>,
    regularGrade: Option<int>,
    makeupGrade: Option<int>,
    finalGrade: Option<int>)

  predicate NoFieldPresent(p: GradeFields) {
    p.absences.None? && p.tutorGrade.None? && p.regularGrade.None? && p.makeupGrade.None? && p.finalGrade.None?
  }

  /** `g` with each field the patch carries replaced. */
  function ApplyPatch(g: Grades, p: GradeFields): Grades {
    Grades(
      if p.absences.Some? then p.absences.value else g.absences,
      if p.tutorGrade.Some? then p.tutorGrade.value else g.tutorGrade,
      if p.regularGrade.Some? then p.regularGrade.value else g.regularGrade,
      if p.makeupGrade.Some? then p.makeupGrade.value else g.makeupGrade,
      if p.finalGrade.Some? then p.finalGrade.value else g.finalGrade)
  }

  /** One column after a partial update: the new value if the row was selected and
      the request carried one, the old value otherwise. */
  predicate ColumnAfter(before: int, after: int, v: Option<int>, selected: bool) {
    after == if selected && v.Some? then v.value else before
  }

  /** Row `after` is row `before` after a partial update of the pair. */
  predicate PatchedRow(before: GradeRow, after: GradeRow, studentId: int, moduleId: int, p: GradeFields) {
    var sel := RowOf(before, studentId, moduleId);
    && after.id == before.id
    && after.studentId == before.studentId
    && after.moduleId == before.moduleId
    && ColumnAfter(before.grades.absences, after.grades.absences, p.absences, sel)
    && ColumnAfter(before.grades.tutorGrade, after.grades.tutorGrade, p.tutorGrade, sel)
    && ColumnAfter(before.grades.regularGrade, after.grades.regularGrade, p.regularGrade, sel)
    && ColumnAfter(before.grades.makeupGrade, after.grades.makeupGrade, p.makeupGrade, sel)
    && ColumnAfter(before.grades.finalGrade, after.grades.finalGrade, p.finalGrade, sel)
  }

  /** `editar_informacoes_modulo`: writes only the fields present and non-null, only in
      the rows of the pair. It reports success even when no row belongs to the pair. */
  function EditModuleData(st: Store, studentId: nat, moduleId: nat, p: GradeFields): (r: Outcome)
    ensures r.status == Ok || r.status == BadRequest(NothingToUpdate)
    ensures r.status == BadRequest(NothingToUpdate) <==> NoFieldPresent(p)
    ensures r.status != Ok ==> r.store == st
    ensures r.status == Ok ==>
      && r.store == st.(rows := r.store.rows)
      && |r.store.rows| == |st.rows|
      && forall i :: 0 <= i < |st.rows| ==> PatchedRow(st.rows[i], r.store.rows[i], studentId, moduleId, p)
  {
    if NoFieldPresent(p) then Outcome(BadRequest(NothingToUpdate), st)
    else Outcome(Ok, st.(rows := UpdateRows(st.rows, studentId, moduleId, (g: Grades) => ApplyPatch(g, p))))
  }

  /** Every one of the five values is truthy: present, non-null and non-zero. */
  predicate AllTruthy(p: GradeFields) {
    Truthy(p.absences) && Truthy(p.tutorGrade) && Truthy(p.regularGrade) && Truthy(p.makeupGrade) && Truthy(p.finalGrade)
  }

  function GradesOf(p: GradeFields): Grades
    requires AllTruthy(p)
  {
    Grades(p.absences.value, p.tutorGrade.value, p.regularGrade.value, p.makeupGrade.value, p.finalGrade.value)
  }

  /** `atualizar_informacoes_modulo`: all five values are required and, through
      `all([...])`, must also be non-zero; then they overwrite every row of the pair. */
  function UpdateModuleData(st: Store, studentId: nat, moduleId: nat, p: GradeFields): (r: Outcome)
    ensures r.status == Ok || r.status == BadRequest(MissingField)
    ensures r.status == BadRequest(MissingField) <==> !AllTruthy(p)
    ensures r.status != Ok ==> r.store == st
    ensures r.status == Ok ==>
      && r.store == st.(rows := r.store.rows)
      && SamePairs(st.rows, r.store.rows)
      && forall i :: 0 <= i < |st.rows| ==>
           && r.store.rows[i].id == st.rows[i].id
           && r.store.rows[i].grades == if RowOf(st.rows[i], studentId, moduleId) then GradesOf(p) else st.rows[i].grades
  {
    if !AllTruthy(p) then Outcome(BadRequest(MissingField), st)
    else Outcome(Ok, st.(rows := UpdateRows(st.rows, studentId, moduleId, (g: Grades) => GradesOf(p))))
  }

  /** The JSON body of `adicionar_modulo_aluno`. */
  datatype ManualRow = ManualRow(studentId: Option<int>, moduleId: Option<int>, values: GradeFields)

  /** `adicionar_modulo_aluno`: inserts one row with the given values. Nothing checks
      that the student or the module exists, or that the pair has no row yet. */
  function AddModuleData(st: Store, p: ManualRow): (r: Outcome)
    ensures r.status == Created || r.status == BadRequest(MissingField)
    ensures r.status == BadRequest(MissingField) <==> !(Truthy(p.studentId) && Truthy(p.moduleId) && AllTruthy(p.values))
    ensures r.status != Created ==> r.store == st
    ensures r.status == Created ==>
      && r.store.students == st.students && r.store.lastStudentId == st.lastStudentId
      && r.store.modules == st.modules && r.store.lastModuleId == st.lastModuleId
      && |r.store.rows| == |st.rows| + 1
      && r.store.rows[..|st.rows|] == st.rows
      && r.store.lastRowId == st.lastRowId + 1
      && var added := r.store.rows[|st.rows|];
         && added.id == r.store.lastRowId
         && RowOf(added, p.studentId.value, p.moduleId.value)
         && added.grades.absences == p.values.absences.value
         && added.grades.tutorGrade == p.values.tutorGrade.value
         && added.grades.regularGrade == p.values.regularGrade.value
         && added.grades.makeupGrade == p.values.makeupGrade.value
         && added.grades.finalGrade == p.values.finalGrade.value
  {
    if !(Truthy(p.studentId) && Truthy(p.moduleId) && AllTruthy(p.values)) then Outcome(BadRequest(MissingField), st)
    else
      var row := GradeRow(st.lastRowId + 1, p.studentId.value, p.moduleId.value, GradesOf(p.values));
      Outcome(Created, st.(rows := st.rows + [row], lastRowId := st.lastRowId + 1))
  }

  // ---------------------------------------------------------------------------
  // Lookups

  /** A reply carrying data, or an error status. */
  datatype Answer<T> = Found(value: T) | Failed(status: Status)

  /** What `obter_dados_modulo_aluno` returns on success. */
  datatype ModuleDataView = ModuleDataView(name: string, number: string, grades: Grades)

  /** Selects the student with the given id. */
  function WithId(id: int): Student -> bool {
    (s: Student) => s.id == id
  }

  /** Selects the grade rows of the pair. */
  function OfPair(studentId: int, moduleId: int): GradeRow -> bool {
    (g: GradeRow) => RowOf(g, studentId, moduleId)
  }

  /** `obter_dados_modulo_aluno`: the student's name and number with the values of the
      first row of the pair; not found if either the student or such a row is missing. */
  function GetModuleData(st: Store, studentId: nat, moduleId: nat): (r: Answer<ModuleDataView>)
    ensures r.Failed? ==> r.status == NotFound
    ensures r.Failed? <==> !HasStudentId(st.students, studentId) || CountPair(st.rows, studentId, moduleId) == 0
    ensures r.Found? ==>
      exists i, j :: 0 <= i < |st.students| && 0 <= j < |st.rows| && st.students[i].id == studentId
        && RowOf(st.rows[j], studentId, moduleId)
        && r.value == ModuleDataView(st.students[i].name, st.students[i].number, st.rows[j].grades)
  {
    var i := FirstIndex(st.students, WithId(studentId));
    var j := FirstIndex(st.rows, OfPair(studentId, moduleId));
    if i == |st.students| then Failed(NotFound)
    else if j == |st.rows| then
      CountPairAbsent(st.rows, studentId, moduleId);
      Failed(NotFound)
    else
      CountPairPresent(st.rows, studentId, moduleId, j);
      Found(ModuleDataView(st.students[i].name, st.students[i].number, st.rows[j].grades))
  }

  /** The students of `students` joined with one grade row. */
  function WithRow(students: seq<Student>, g: GradeRow): (r: seq<(Student, GradeRow)>)
    ensures forall e :: e in r <==> e.0 in students && e.1 == g
    ensures |r| == |students| && forall i :: 0 <= i < |r| ==> r[i].0 == students[i]
  {
    var r := seq(|students|, i requires 0 <= i < |students| => (students[i], g));
    assert forall e :: e in r ==> e.0 in students by {
      forall e | e in r ensures e.0 in students {
        var i :| 0 <= i < |r| && r[i] == e;
      }
    }
    assert forall s :: s in students ==> (s, g) in r by {
      forall s | s in students ensures (s, g) in r {
        var i :| 0 <= i < |students| && students[i] == s;
        assert r[i] == (s, g);
      }
    }
    r
  }

  /** The join of `Alunos` with `module_data` on the student id, restricted to one module. */
  function Roster(students: seq<Student>, rows: seq<GradeRow>, moduleId: int): (r: seq<(Student, GradeRow)>)
    ensures forall e :: e in r <==> e.0 in students && e.1 in rows && e.1.moduleId == moduleId && e.0.id == e.1.studentId
  {
    if |rows| == 0 then []
    else
      var g := rows[0];
      var owners := if g.moduleId == moduleId then Filter(students, WithId(g.studentId)) else [];
      assert rows == [g] + rows[1..];
      WithRow(owners, g) + Roster(students, rows[1..], moduleId)
  }

  function EntriesDiffer(a: (Student, GradeRow), b: (Student, GradeRow)): bool { a != b }

  /** With student ids and row ids each distinct, the join lists every pair once. */
  lemma {:induction false} RosterNoDuplicates(students: seq<Student>, rows: seq<GradeRow>, moduleId: int)
    ensures Pairwise(students, StudentIdBefore) && Pairwise(rows, RowIdBefore) ==>
      Pairwise(Roster(students, rows, moduleId), EntriesDiffer)
  {
    if |rows| > 0 && Pairwise(students, StudentIdBefore) && Pairwise(rows, RowIdBefore) {
      var g := rows[0];
      var owners := if g.moduleId == moduleId then Filter(students, WithId(g.studentId)) else [];
      FilterKeepsPairwise(students, WithId(g.studentId), StudentIdBefore);
      PairwiseTail(rows, RowIdBefore);
      RosterNoDuplicates(students, rows[1..], moduleId);
      var head := WithRow(owners, g);
      var tail := Roster(students, rows[1..], moduleId);
      assert Roster(students, rows, moduleId) == head + tail;
      WithRowNoDuplicates(owners, g);
      forall i, k | 0 <= i < |head| && 0 <= k < |tail| ensures EntriesDiffer(head[i], tail[k]) {
        LaterRowDiffers(rows, tail[k].1);
        assert head[i] in head && tail[k] in tail;
      }
      PairwiseAppend(head, tail, EntriesDiffer);
    }
  }

  /** A row of the tail of an id-ordered table is not its first row. */
  lemma LaterRowDiffers(rows: seq<GradeRow>, x: GradeRow)
    requires |rows| > 0 && Pairwise(rows, RowIdBefore) && x in rows[1..]
    ensures x != rows[0]
  {
    var m :| 0 <= m < |rows[1..]| && rows[1..][m] == x;
    assert RowIdBefore(rows[0], rows[m + 1]);
  }

  lemma WithRowNoDuplicates(owners: seq<Student>, g: GradeRow)
    requires Pairwise(owners, StudentIdBefore)
    ensures Pairwise(WithRow(owners, g), EntriesDiffer)
  {
    var head := WithRow(owners, g);
    forall i, j | 0 <= i < j < |head| ensures EntriesDiffer(head[i], head[j]) {
      assert StudentIdBefore(owners[i], owners[j]);
    }
  }

  /** `ver_alunos_modulo`: every (student, row) pair of the module, or not found when
      there is none. */
  function StudentsOfModule(st: Store, moduleId: nat): (r: Answer<seq<(Student, GradeRow)>>)
    ensures r.Failed? ==> r.status == NotFound
    ensures r.Found? ==> |r.value| > 0
    ensures r.Found? ==> forall e :: e in r.value <==>
      e.0 in st.students && e.1 in st.rows && e.1.moduleId == moduleId && e.0.id == e.1.studentId
    ensures r.Failed? ==> forall s, g :: s in st.students && g in st.rows && g.moduleId == moduleId ==> s.id != g.studentId
    ensures r.Found? && Consistent(st) ==> forall i, j :: 0 <= i < j < |r.value| ==> r.value[i] != r.value[j]
  {
    var roster := Roster(st.students, st.rows, moduleId);
    RosterNoDuplicates(st.students, st.rows, moduleId);
    if |roster| == 0 then
      assert forall s, g :: s in st.students && g in st.rows && g.moduleId == moduleId && s.id == g.studentId ==> (s, g) in roster;
      Failed(NotFound)
    else Found(roster)
  }

  /** Whether `part` occurs in `text`: the name search with the SQL `LIKE` wildcards and
      case folding left out. */
  predicate Contains(text: string, part: string) {
    exists i | 0 <= i <= |text| - |part| :: OccursAt(text, part, i)
  }

  predicate OccursAt(text: string, part: string, i: nat) {
    i + |part| <= |text| && text[i..i + |part|] == part
  }

  /** `pesquisar_aluno`: by `numero_matricula` if one is given, otherwise by name. */
  function SearchStudent(st: Store, number: Option<string>, name: Option<string>): (r: Answer<seq<Student>>)
    ensures r.Failed? ==> r.status == if Given(number) || Given(name) then NotFound else BadRequest(MissingField)
    ensures Given(number) ==> (r.Found? <==> HasStudentNumber(st.students, number.value))
    ensures Given(number) && r.Found? ==>
      |r.value| == 1 && r.value[0] in st.students && r.value[0].number == number.value
    ensures !Given(number) && Given(name) && r.Found? ==>
      forall s :: s in r.value <==> s in st.students && Contains(s.name, name.value)
    ensures !Given(number) && Given(name) && r.Failed? ==>
      forall s :: s in st.students ==> !Contains(s.name, name.value)
    ensures !Given(number) && Given(name) && r.Found? ==> |r.value| > 0
    ensures !Given(number) && !Given(name) ==> r == Failed(BadRequest(MissingField))
    ensures !Given(number) && Given(name) && r.Found? && Consistent(st) ==> Pairwise(r.value, StudentIdBefore)
  {
    if Given(number) then
      var i := FirstIndex(st.students, (s: Student) => s.number == number.value);
      if i == |st.students| then Failed(NotFound) else Found([st.students[i]])
    else if Given(name) then
      var hits := Filter(st.students, (s: Student) => Contains(s.name, name.value));
      MatchesKeepIdOrder(st.students, (s: Student) => Contains(s.name, name.value));
      if |hits| == 0 then Failed(NotFound) else Found(hits)
    else Failed(BadRequest(MissingField))
  }

  /** The students a search selects keep the table's strict id order, so each one is
      listed once. */
  lemma MatchesKeepIdOrder(students: seq<Student>, keep: Student -> bool)
    ensures Pairwise(students, StudentIdBefore) ==> Pairwise(Filter(students, keep), StudentIdBefore)
  {
    if Pairwise(students, StudentIdBefore) {
      FilterKeepsPairwise(students, keep, StudentIdBefore);
    }
  }

  // ---------------------------------------------------------------------------
  // The mutating routes

  /** A request to one of the mutating routes, with its URL and JSON fields. */
  datatype Request =
    | CreateModuleRequest(moduleName: Option<string>)
    | AddStudentRequest(student: NewStudent)
    | EditStudentRequest(number: string, edit: StudentEdit)
    | DeleteStudentRequest(number: string)
    | DeleteModuleRequest(moduleName: Option<string>)
    | EditModuleDataRequest(studentId: nat, moduleId: nat, patch: GradeFields)
    | UpdateModuleDataRequest(studentId: nat, moduleId: nat, values: GradeFields)
    | AddModuleDataRequest(row: ManualRow)

  function Handle(st: Store, req: Request): Outcome {
    match req
    case CreateModuleRequest(name) => CreateModule(st, name)
    case AddStudentRequest(p) => AddStudent(st, p)
    case EditStudentRequest(number, e) => EditStudent(st, number, e)
    case DeleteStudentRequest(number) => DeleteStudent(st, number)
    case DeleteModuleRequest(name) => DeleteModule(st, name)
    case EditModuleDataRequest(a, m, p) => EditModuleData(st, a, m, p)
    case UpdateModuleDataRequest(a, m, p) => UpdateModuleData(st, a, m, p)
    case AddModuleDataRequest(row) => AddModuleData(st, row)
  }

  /** The database after serving the requests one after another. */
  function Replay(st: Store, reqs: seq<Request>): Store
    decreases |reqs|
  {
    if |reqs| == 0 then st else Replay(Handle(st, reqs[0]).store, reqs[1..])
  }
}
