/** What the read-only routes report after the mutating ones: a write read back, a
    fresh enrollment starting at zero, a search finding what was added, and the
    grade rows that deletes leave behind. */
module QueryProofs {
  import opened Basics
  import opened Schema
  import opened Cascade
  import opened Handlers
  import opened GridProofs

  /** On a complete grid, the grade data of any existing student in any existing
      module can be read. */
  lemma EnrolledPairIsFound(st: Store, s: Student, m: Module)
    requires Invariant(st)
    requires s in st.students && m in st.modules
    ensures GetModuleData(st, s.id, m.id).Found?
  {
    var k :| 0 <= k < |st.students| && st.students[k] == s;
    assert HasStudentId(st.students, s.id);
  }

  /** A partial update is read back as the old values with the patch applied, and a
      pair that could not be read before still cannot be. */
  lemma EditModuleDataReadBack(st: Store, studentId: nat, moduleId: nat, p: GradeFields)
    requires !NoFieldPresent(p)
    ensures var after := EditModuleData(st, studentId, moduleId, p).store;
      GetModuleData(after, studentId, moduleId)
        == match GetModuleData(st, studentId, moduleId)
           case Found(v) => Found(v.(grades := ApplyPatch(v.grades, p)))
           case Failed(e) => Failed(e)
  {
    var after := EditModuleData(st, studentId, moduleId, p).store;
    assert after.rows == UpdateRows(st.rows, studentId, moduleId, (g: Grades) => ApplyPatch(g, p));
    FirstIndexAgrees(st.rows, after.rows, OfPair(studentId, moduleId), OfPair(studentId, moduleId));
  }

  /** A full update is read back as exactly the values written. */
  lemma UpdateModuleDataReadBack(st: Store, studentId: nat, moduleId: nat, p: GradeFields)
    requires AllTruthy(p)
    ensures var after := UpdateModuleData(st, studentId, moduleId, p).store;
      GetModuleData(after, studentId, moduleId)
        == match GetModuleData(st, studentId, moduleId)
           case Found(v) => Found(v.(grades := GradesOf(p)))
           case Failed(e) => Failed(e)
  {
    var after := UpdateModuleData(st, studentId, moduleId, p).store;
    assert after.rows == UpdateRows(st.rows, studentId, moduleId, (g: Grades) => GradesOf(p));
    FirstIndexAgrees(st.rows, after.rows, OfPair(studentId, moduleId), OfPair(studentId, moduleId));
  }

  /** A student just added reads back, in every module, with zero absences and grades. */
  lemma NewStudentStartsAtZero(st: Store, p: NewStudent, m: Module)
    requires Invariant(st)
    requires AddStudent(st, p).status == Created
    requires m in st.modules
    ensures GetModuleData(AddStudent(st, p).store, st.lastStudentId + 1, m.id)
              == Found(ModuleDataView(p.name.value, p.number.value, NoGrades))
  {
    var id := st.lastStudentId + 1;
    var after := AddStudent(st, p).store;
    var s := NewRecord(id, p);
    assert after.students[|st.students|] == s;
    AddStudentPairCount(st, p, s, m);
    assert HasStudentId(after.students, id);
    forall i | 0 <= i < |st.students| ensures after.students[i].id != id {
      assert st.students[i] in st.students;
    }
    forall j | 0 <= j < |st.rows| ensures !RowOf(after.rows[j], id, m.id) {
      assert after.rows[j] == st.rows[j];
      assert st.rows[j] in st.rows;
    }
  }

  /** The students of a module just created read back with zero absences and grades. */
  lemma NewModuleStartsAtZero(st: Store, name: Option<string>, s: Student)
    requires Invariant(st)
    requires CreateModule(st, name).status == Created
    requires s in st.students
    ensures GetModuleData(CreateModule(st, name).store, s.id, st.lastModuleId + 1)
              == Found(ModuleDataView(s.name, s.number, NoGrades))
  {
    var id := st.lastModuleId + 1;
    var cascade := ModuleCascade(st.students, id, st.lastRowId + 1);
    CreateModuleShape(st, name);
    var after := CreateModule(st, name).store;
    assert after.students == st.students && after.rows == st.rows + cascade;
    CreateModulePairCount(st, name, s, Module(id, name.value));
    var k :| 0 <= k < |st.students| && st.students[k] == s;
    assert HasStudentId(after.students, s.id);
    var r := GetModuleData(after, s.id, id);
    var i, j :| 0 <= i < |after.students| && 0 <= j < |after.rows| && after.students[i].id == s.id
        && RowOf(after.rows[j], s.id, id)
        && r.value == ModuleDataView(after.students[i].name, after.students[i].number, after.rows[j].grades);
    StudentIdNamesOnePosition(st.students, i, k);
    CascadeRowsAreZero(st.rows, cascade, st.students, s.id, id, st.lastRowId + 1);
  }

  /** Rows appended after a table that has no row for module `id` are the only rows
      for it, and a cascade writes zeros into all of them. */
  lemma CascadeRowsAreZero(rows: seq<GradeRow>, cascade: seq<GradeRow>, students: seq<Student>,
                           studentId: int, id: nat, firstRowId: nat)
    requires forall g :: g in rows ==> g.moduleId < id
    requires cascade == ModuleCascade(students, id, firstRowId)
    ensures forall j :: 0 <= j < |rows + cascade| && RowOf((rows + cascade)[j], studentId, id) ==>
              (rows + cascade)[j].grades == NoGrades
  {
    forall j | 0 <= j < |rows| ensures (rows + cascade)[j].moduleId != id {
      assert rows[j] in rows;
    }
    forall j | |rows| <= j < |rows + cascade| ensures (rows + cascade)[j].grades == NoGrades {
      assert (rows + cascade)[j] == cascade[j - |rows|];
    }
  }

  /** A manual row for a pair that had none is what the pair reads back: found exactly
      when the student exists, and then with the values the request carried. */
  lemma ManualRowReadBack(st: Store, studentId: nat, moduleId: nat, values: GradeFields)
    requires studentId != 0 && moduleId != 0 && AllTruthy(values)
    requires CountPair(st.rows, studentId, moduleId) == 0
    ensures var after := AddModuleData(st, ManualRow(Some(studentId), Some(moduleId), values)).store;
      var r := GetModuleData(after, studentId, moduleId);
      && (r.Found? <==> HasStudentId(st.students, studentId))
      && (r.Found? ==> r.value.grades == GradesOf(values))
  {
    var after := AddModuleData(st, ManualRow(Some(studentId), Some(moduleId), values)).store;
    var row := GradeRow(st.lastRowId + 1, studentId, moduleId, GradesOf(values));
    assert after.rows == st.rows + [row];
    CountPairZero(st.rows, studentId, moduleId);
    var j := FirstIndex(after.rows, OfPair(studentId, moduleId));
    assert OfPair(studentId, moduleId)(after.rows[|st.rows|]);
    assert j == |st.rows|;
    CountPairPresent(after.rows, studentId, moduleId, j);
  }

  /** A student just added is what a search by its `numero_matricula` returns. */
  lemma AddedStudentIsFoundByNumber(st: Store, p: NewStudent, name: Option<string>)
    requires AddStudent(st, p).status == Created
    ensures SearchStudent(AddStudent(st, p).store, p.number, name) == Found([NewRecord(st.lastStudentId + 1, p)])
  {
    var after := AddStudent(st, p).store;
    var n := |st.students|;
    assert after.students[n] == NewRecord(st.lastStudentId + 1, p);
    forall i | 0 <= i < n ensures after.students[i].number != p.number.value {
      assert after.students[i] == st.students[i];
    }
  }

  /** After a successful delete, a search by that `numero_matricula` finds nothing. */
  lemma DeletedStudentIsNotFound(st: Store, number: string, name: Option<string>)
    requires number != ""
    requires DeleteStudent(st, number).status == Ok
    ensures SearchStudent(DeleteStudent(st, number).store, Some(number), name) == Failed(NotFound)
  {
    var after := DeleteStudent(st, number).store;
    forall i | 0 <= i < |after.students| ensures after.students[i].number != number {
      assert after.students[i] in after.students;
    }
  }

  /** Deleting a module does not delete its grade rows: the module's students are
      still listed under its id. */
  lemma DeletedModuleStillListsStudents(st: Store, s: Student, m: Module)
    requires Invariant(st)
    requires s in st.students && m in st.modules && m.name != ""
    ensures var r := DeleteModule(st, Some(m.name));
      && r.status == Ok
      && StudentsOfModule(r.store, m.id).Found?
      && exists g :: (s, g) in StudentsOfModule(r.store, m.id).value
  {
    var k :| 0 <= k < |st.modules| && st.modules[k] == m;
    assert HasModuleNamed(st.modules, m.name);
    var r := DeleteModule(st, Some(m.name));
    assert CountPair(st.rows, s.id, m.id) == 1;
    CountPairWitness(st.rows, s.id, m.id);
    var j :| 0 <= j < |st.rows| && RowOf(st.rows[j], s.id, m.id);
    assert st.rows[j] in r.store.rows;
    assert (s, st.rows[j]) in Roster(r.store.students, r.store.rows, m.id);
  }
}
