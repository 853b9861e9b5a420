/** The enrollment invariant across the handlers: which requests keep every
    (student, module) pair at exactly one grade row, and which one breaks it. */
module GridProofs {
  import opened Basics
  import opened Schema
  import opened Cascade
  import opened Handlers

  /** A freshly initialised database satisfies the invariant. */
  lemma EmptyStoreInvariant()
    ensures Invariant(EmptyStore)
  {
  }

  // ---------------------------------------------------------------------------
  // The two cascades keep the grid complete

  /** Rows whose ids continue past every existing id keep the row table ordered. */
  lemma AppendFreshRows(rows: seq<GradeRow>, extra: seq<GradeRow>, last: nat)
    requires Pairwise(rows, RowIdBefore) && (forall r :: r in rows ==> r.id <= last)
    requires forall i :: 0 <= i < |extra| ==> extra[i].id == last + 1 + i
    ensures Pairwise(rows + extra, RowIdBefore)
    ensures forall r :: r in rows + extra ==> r.id <= last + |extra|
  {
    forall i, j | 0 <= i < |rows| && 0 <= j < |extra| ensures RowIdBefore(rows[i], extra[j]) {
      assert rows[i] in rows;
    }
    PairwiseAppend(rows, extra, RowIdBefore);
  }

  /** A successful `criar_modulo` gives the new module exactly one row per existing
      student, and gives no other pair a row. */
  lemma CreateModuleEnrollsEveryStudent(st: Store, name: Option<string>, studentId: int, moduleId: int)
    requires Consistent(st)
    requires CreateModule(st, name).status == Created
    ensures var added := CreateModule(st, name).store.rows[|st.rows|..];
      CountPair(added, studentId, moduleId)
        == if moduleId == st.lastModuleId + 1 && HasStudentId(st.students, studentId) then 1 else 0
  {
    var id := st.lastModuleId + 1;
    var r := CreateModule(st, name);
    assert r.store.rows == st.rows + ModuleCascade(st.students, id, st.lastRowId + 1);
    assert r.store.rows[|st.rows|..] == ModuleCascade(st.students, id, st.lastRowId + 1);
    ModuleCascadeCount(st.students, id, st.lastRowId + 1, studentId, moduleId);
  }

  /** The store a successful `criar_modulo` leaves behind. */
  lemma CreateModuleShape(st: Store, name: Option<string>)
    requires CreateModule(st, name).status == Created
    ensures var id := st.lastModuleId + 1;
      CreateModule(st, name).store
        == st.(modules := st.modules + [Module(id, name.value)],
               rows := st.rows + ModuleCascade(st.students, id, st.lastRowId + 1),
               lastModuleId := id, lastRowId := st.lastRowId + |st.students|)
  {
  }

  lemma CreateModuleKeepsConsistent(st: Store, name: Option<string>)
    requires Consistent(st)
    requires CreateModule(st, name).status == Created
    ensures Consistent(CreateModule(st, name).store)
  {
    var id := st.lastModuleId + 1;
    var mod := Module(id, name.value);
    CreateModuleShape(st, name);
    forall i, j | 0 <= i < |st.modules| && 0 <= j < 1
      ensures ModuleIdBefore(st.modules[i], [mod][j]) && NamesDiffer(st.modules[i], [mod][j])
    {
      assert st.modules[i] in st.modules;
    }
    PairwiseAppend(st.modules, [mod], ModuleIdBefore);
    PairwiseAppend(st.modules, [mod], NamesDiffer);
    AppendFreshRows(st.rows, ModuleCascade(st.students, id, st.lastRowId + 1), st.lastRowId);
  }

  /** The count of one pair after a successful `criar_modulo`. */
  lemma CreateModulePairCount(st: Store, name: Option<string>, s: Student, m: Module)
    requires Invariant(st)
    requires CreateModule(st, name).status == Created
    requires s in st.students && (m in st.modules || m == Module(st.lastModuleId + 1, name.value))
    ensures CountPair(CreateModule(st, name).store.rows, s.id, m.id) == 1
  {
    var id := st.lastModuleId + 1;
    var cascade := ModuleCascade(st.students, id, st.lastRowId + 1);
    CreateModuleShape(st, name);
    CountPairAppend(st.rows, cascade, s.id, m.id);
    ModuleCascadeCount(st.students, id, st.lastRowId + 1, s.id, m.id);
    var k :| 0 <= k < |st.students| && st.students[k] == s;
    assert HasStudentId(st.students, s.id);
    if m in st.modules {
      assert m.id <= st.lastModuleId;
    } else {
      CountPairAbsent(st.rows, s.id, id);
    }
  }

  /** Every row after a successful `CreateModule` names ids already issued. */
  lemma CreateModuleRowsBounded(st: Store, name: Option<string>)
    requires Invariant(st)
    requires CreateModule(st, name).status == Created
    ensures var st' := CreateModule(st, name).store;
      forall g :: g in st'.rows ==> g.studentId <= st'.lastStudentId && g.moduleId <= st'.lastModuleId
  {
    var id := st.lastModuleId + 1;
    var cascade := ModuleCascade(st.students, id, st.lastRowId + 1);
    CreateModuleShape(st, name);
    forall g | g in cascade ensures g.studentId <= st.lastStudentId && g.moduleId == id {
      var i :| 0 <= i < |cascade| && cascade[i] == g;
      assert st.students[i] in st.students;
    }
  }

  lemma CreateModuleCompletesGrid(st: Store, name: Option<string>)
    requires Invariant(st)
    requires CreateModule(st, name).status == Created
    ensures CompleteGrid(CreateModule(st, name).store)
  {
    var r := CreateModule(st, name);
    CreateModuleRowsBounded(st, name);
    var added := Module(st.lastModuleId + 1, name.value);
    forall s, m | s in r.store.students && m in r.store.modules ensures CountPair(r.store.rows, s.id, m.id) == 1 {
      assert m in st.modules || m == added;
      CreateModulePairCount(st, name, s, m);
    }
  }

  lemma CreateModulePreservesInvariant(st: Store, name: Option<string>)
    requires Invariant(st)
    ensures Invariant(CreateModule(st, name).store)
  {
    if CreateModule(st, name).status == Created {
      CreateModuleKeepsConsistent(st, name);
      CreateModuleCompletesGrid(st, name);
    }
  }

  /** A successful `adicionar_aluno` gives the new student exactly one row per existing
      module, and gives no other pair a row. */
  lemma AddStudentEnrollsInEveryModule(st: Store, p: NewStudent, studentId: int, moduleId: int)
    requires Consistent(st)
    requires AddStudent(st, p).status == Created
    ensures var added := AddStudent(st, p).store.rows[|st.rows|..];
      CountPair(added, studentId, moduleId)
        == if studentId == st.lastStudentId + 1 && HasModuleId(st.modules, moduleId) then 1 else 0
  {
    var id := st.lastStudentId + 1;
    var r := AddStudent(st, p);
    assert r.store.rows == st.rows + StudentCascade(st.modules, id, st.lastRowId + 1);
    assert r.store.rows[|st.rows|..] == StudentCascade(st.modules, id, st.lastRowId + 1);
    StudentCascadeCount(st.modules, id, st.lastRowId + 1, studentId, moduleId);
  }

  /** The store a successful `adicionar_aluno` leaves behind. */
  lemma AddStudentShape(st: Store, p: NewStudent)
    requires AddStudent(st, p).status == Created
    ensures var id := st.lastStudentId + 1;
      AddStudent(st, p).store
        == st.(students := st.students + [NewRecord(id, p)],
               rows := st.rows + StudentCascade(st.modules, id, st.lastRowId + 1),
               lastStudentId := id, lastRowId := st.lastRowId + |st.modules|)
  {
  }

  lemma AddStudentKeepsConsistent(st: Store, p: NewStudent)
    requires Consistent(st)
    requires AddStudent(st, p).status == Created
    ensures Consistent(AddStudent(st, p).store)
  {
    var id := st.lastStudentId + 1;
    var s := NewRecord(id, p);
    var cascade := StudentCascade(st.modules, id, st.lastRowId + 1);
    AddStudentShape(st, p);
    var after := AddStudent(st, p).store;
    assert after.students == st.students + [s] && after.rows == st.rows + cascade;
    assert after.modules == st.modules && after.lastModuleId == st.lastModuleId;
    assert after.lastStudentId == id && after.lastRowId == st.lastRowId + |st.modules|;
    forall i, j | 0 <= i < |st.students| && 0 <= j < 1
      ensures StudentIdBefore(st.students[i], [s][j]) && NumbersDiffer(st.students[i], [s][j])
    {
      assert st.students[i] in st.students;
    }
    PairwiseAppend(st.students, [s], StudentIdBefore);
    PairwiseAppend(st.students, [s], NumbersDiffer);
    assert forall t :: t in after.students ==> t.id <= after.lastStudentId;
    AppendFreshRows(st.rows, cascade, st.lastRowId);
  }

  /** The count of one pair after a successful `adicionar_aluno`. */
  lemma AddStudentPairCount(st: Store, p: NewStudent, s: Student, m: Module)
    requires Invariant(st)
    requires AddStudent(st, p).status == Created
    requires m in st.modules && (s in st.students || s == NewRecord(st.lastStudentId + 1, p))
    ensures CountPair(AddStudent(st, p).store.rows, s.id, m.id) == 1
  {
    var id := st.lastStudentId + 1;
    var cascade := StudentCascade(st.modules, id, st.lastRowId + 1);
    AddStudentShape(st, p);
    CountPairAppend(st.rows, cascade, s.id, m.id);
    StudentCascadeCount(st.modules, id, st.lastRowId + 1, s.id, m.id);
    var k :| 0 <= k < |st.modules| && st.modules[k] == m;
    assert HasModuleId(st.modules, m.id);
    if s in st.students {
      assert s.id <= st.lastStudentId;
    } else {
      CountPairAbsent(st.rows, id, m.id);
    }
  }

  /** Every row after a successful `AddStudent` names ids already issued. */
  lemma AddStudentRowsBounded(st: Store, p: NewStudent)
    requires Invariant(st)
    requires AddStudent(st, p).status == Created
    ensures var st' := AddStudent(st, p).store;
      forall g :: g in st'.rows ==> g.studentId <= st'.lastStudentId && g.moduleId <= st'.lastModuleId
  {
    var id := st.lastStudentId + 1;
    var cascade := StudentCascade(st.modules, id, st.lastRowId + 1);
    AddStudentShape(st, p);
    forall g | g in cascade ensures g.studentId == id && g.moduleId <= st.lastModuleId {
      var i :| 0 <= i < |cascade| && cascade[i] == g;
      assert st.modules[i] in st.modules;
    }
  }

  lemma AddStudentCompletesGrid(st: Store, p: NewStudent)
    requires Invariant(st)
    requires AddStudent(st, p).status == Created
    ensures CompleteGrid(AddStudent(st, p).store)
  {
    var r := AddStudent(st, p);
    AddStudentRowsBounded(st, p);
    var added := NewRecord(st.lastStudentId + 1, p);
    forall s, m | s in r.store.students && m in r.store.modules ensures CountPair(r.store.rows, s.id, m.id) == 1 {
      assert s in st.students || s == added;
      AddStudentPairCount(st, p, s, m);
    }
  }

  lemma AddStudentPreservesInvariant(st: Store, p: NewStudent)
    requires Invariant(st)
    ensures Invariant(AddStudent(st, p).store)
  {
    if AddStudent(st, p).status == Created {
      AddStudentKeepsConsistent(st, p);
      AddStudentCompletesGrid(st, p);
    }
  }

  // ---------------------------------------------------------------------------
  // Edits and deletes keep it

  lemma EditStudentPreservesInvariant(st: Store, number: string, e: StudentEdit)
    requires Invariant(st)
    ensures Invariant(EditStudent(st, number, e).store)
  {
    var r := EditStudent(st, number, e);
    if r.status == Ok {
      EditStudentKeepsIds(st, number, e);
      var xs, ys := st.students, r.store.students;
      forall i, j | 0 <= i < j < |ys| ensures StudentIdBefore(ys[i], ys[j]) && NumbersDiffer(ys[i], ys[j]) {
        assert StudentIdBefore(xs[i], xs[j]) && NumbersDiffer(xs[i], xs[j]);
      }
      assert Consistent(r.store);
      assert CompleteGrid(r.store);
    }
  }

  /** An edit keeps every student's id, so every student of the edited table already
      had its row in every module. */
  lemma EditStudentKeepsIds(st: Store, number: string, e: StudentEdit)
    requires Invariant(st)
    requires EditStudent(st, number, e).status == Ok
    ensures var ys := EditStudent(st, number, e).store.students;
      forall s, m :: s in ys && m in st.modules ==> s.id <= st.lastStudentId && CountPair(st.rows, s.id, m.id) == 1
  {
    var xs, ys := st.students, EditStudent(st, number, e).store.students;
    forall s | s in ys ensures s.id <= st.lastStudentId && exists i :: 0 <= i < |xs| && xs[i].id == s.id {
      var i :| 0 <= i < |ys| && ys[i] == s;
      assert xs[i] in xs;
    }
    forall s, m | s in ys && m in st.modules ensures CountPair(st.rows, s.id, m.id) == 1 {
      var i :| 0 <= i < |ys| && ys[i] == s;
      assert xs[i] in xs;
    }
  }

  lemma DeleteStudentPreservesInvariant(st: Store, number: string)
    requires Invariant(st)
    ensures Invariant(DeleteStudent(st, number).store)
  {
    var r := DeleteStudent(st, number);
    if r.status == Ok {
      var keep := (s: Student) => s.number != number;
      assert r.store.students == Filter(st.students, keep);
      FilterKeepsPairwise(st.students, keep, StudentIdBefore);
      FilterKeepsPairwise(st.students, keep, NumbersDiffer);
    }
  }

  lemma DeleteModulePreservesInvariant(st: Store, name: Option<string>)
    requires Invariant(st)
    ensures Invariant(DeleteModule(st, name).store)
  {
    var r := DeleteModule(st, name);
    if r.status == Ok {
      var keep := (m: Module) => m.name != name.value;
      assert r.store.modules == Filter(st.modules, keep);
      FilterKeepsPairwise(st.modules, keep, ModuleIdBefore);
      FilterKeepsPairwise(st.modules, keep, NamesDiffer);
    }
  }

  /** A rewrite of grade values that keeps every row's id and pair keeps the invariant. */
  lemma RewriteKeepsInvariant(st: Store, rows: seq<GradeRow>)
    requires Invariant(st)
    requires SamePairs(st.rows, rows)
    requires forall i :: 0 <= i < |rows| ==> rows[i].id == st.rows[i].id
    ensures Invariant(st.(rows := rows))
  {
    var st' := st.(rows := rows);
    forall i, j | 0 <= i < j < |rows| ensures RowIdBefore(rows[i], rows[j]) {
      assert RowIdBefore(st.rows[i], st.rows[j]);
    }
    forall g | g in rows ensures g.id <= st.lastRowId && g.studentId <= st.lastStudentId && g.moduleId <= st.lastModuleId {
      var i :| 0 <= i < |rows| && rows[i] == g;
      assert st.rows[i] in st.rows;
    }
    forall s, m | s in st.students && m in st.modules ensures CountPair(rows, s.id, m.id) == 1 {
      SamePairsSameCount(st.rows, rows, s.id, m.id);
    }
  }

  lemma EditModuleDataPreservesInvariant(st: Store, studentId: nat, moduleId: nat, p: GradeFields)
    requires Invariant(st)
    ensures Invariant(EditModuleData(st, studentId, moduleId, p).store)
  {
    var r := EditModuleData(st, studentId, moduleId, p);
    if r.status == Ok {
      RewriteKeepsInvariant(st, r.store.rows);
    }
  }

  lemma UpdateModuleDataPreservesInvariant(st: Store, studentId: nat, moduleId: nat, p: GradeFields)
    requires Invariant(st)
    ensures Invariant(UpdateModuleData(st, studentId, moduleId, p).store)
  {
    var r := UpdateModuleData(st, studentId, moduleId, p);
    if r.status == Ok {
      RewriteKeepsInvariant(st, r.store.rows);
    }
  }

  // ---------------------------------------------------------------------------
  // The manual insert breaks it

  /** The schema accepts every manual insert: its constraints still hold afterwards. */
  lemma AddModuleDataKeepsConsistent(st: Store, p: ManualRow)
    requires Consistent(st)
    ensures Consistent(AddModuleData(st, p).store)
  {
    var r := AddModuleData(st, p);
    if r.status == Created {
      AppendFreshRows(st.rows, r.store.rows[|st.rows|..], st.lastRowId);
      assert r.store.rows == st.rows + r.store.rows[|st.rows|..];
    }
  }

  /** Nothing makes (aluno_id, module_id) unique, so a manual insert for an enrolled
      pair gives that pair a second row and the grid is no longer complete. */
  lemma AddModuleDataDuplicatesRow(st: Store, s: Student, m: Module, values: GradeFields)
    requires Invariant(st)
    requires s in st.students && m in st.modules
    requires s.id != 0 && m.id != 0 && AllTruthy(values)
    ensures var r := AddModuleData(st, ManualRow(Some(s.id), Some(m.id), values));
      && r.status == Created
      && CountPair(r.store.rows, s.id, m.id) == 2
      && !CompleteGrid(r.store)
  {
    var r := AddModuleData(st, ManualRow(Some(s.id), Some(m.id), values));
    var row := GradeRow(st.lastRowId + 1, s.id, m.id, GradesOf(values));
    assert r.store.rows == st.rows + [row];
    CountPairAppend(st.rows, [row], s.id, m.id);
    assert s in r.store.students && m in r.store.modules;
  }

  /** A manual row for the student id AUTOINCREMENT will issue next is accepted and
      leaves that pair with one row. */
  lemma ManualRowForUnissuedId(st: Store, m: Module, values: GradeFields)
    requires Invariant(st)
    requires m.id != 0 && AllTruthy(values)
    ensures var r := AddModuleData(st, ManualRow(Some(st.lastStudentId + 1), Some(m.id), values));
      && r.status == Created
      && r.store.students == st.students && r.store.modules == st.modules
      && r.store.lastStudentId == st.lastStudentId
      && CountPair(r.store.rows, st.lastStudentId + 1, m.id) == 1
  {
    var id := st.lastStudentId + 1;
    var row := GradeRow(st.lastRowId + 1, id, m.id, GradesOf(values));
    var st1 := AddModuleData(st, ManualRow(Some(id), Some(m.id), values)).store;
    assert st1.rows == st.rows + [row];
    CountPairAbsent(st.rows, id, m.id);
    CountPairAppend(st.rows, [row], id, m.id);
  }

  /** A manual row may also name a student id AUTOINCREMENT has not issued yet. The next
      student added receives that id, and its cascade then gives the pair a second row. */
  lemma ManualRowCollidesWithNextStudent(st: Store, m: Module, values: GradeFields, q: NewStudent)
    requires Invariant(st)
    requires m in st.modules && m.id != 0 && AllTruthy(values)
    requires StudentFieldsGiven(q) && !HasStudentNumber(st.students, q.number.value)
    ensures var st1 := AddModuleData(st, ManualRow(Some(st.lastStudentId + 1), Some(m.id), values)).store;
      var r := AddStudent(st1, q);
      && r.status == Created
      && CountPair(r.store.rows, st.lastStudentId + 1, m.id) == 2
      && !CompleteGrid(r.store)
  {
    ManualRowForUnissuedId(st, m, values);
    var st1 := AddModuleData(st, ManualRow(Some(st.lastStudentId + 1), Some(m.id), values)).store;
    CascadeOntoTakenPair(st1, q, m);
  }

  /** When the pair of the next student id and a module already has a row, adding that
      student gives the pair a second one. */
  lemma CascadeOntoTakenPair(st: Store, q: NewStudent, m: Module)
    requires Pairwise(st.modules, ModuleIdBefore) && m in st.modules
    requires CountPair(st.rows, st.lastStudentId + 1, m.id) == 1
    requires AddStudent(st, q).status == Created
    ensures CountPair(AddStudent(st, q).store.rows, st.lastStudentId + 1, m.id) == 2
    ensures !CompleteGrid(AddStudent(st, q).store)
  {
    var id := st.lastStudentId + 1;
    var r := AddStudent(st, q);
    AddStudentShape(st, q);
    var cascade := StudentCascade(st.modules, id, st.lastRowId + 1);
    CountPairAppend(st.rows, cascade, id, m.id);
    var k :| 0 <= k < |st.modules| && st.modules[k] == m;
    assert HasModuleId(st.modules, m.id);
    StudentCascadeCount(st.modules, id, st.lastRowId + 1, id, m.id);
    var added := NewRecord(id, q);
    assert added == r.store.students[|st.students|];
    assert added in r.store.students && m in r.store.modules;
  }

  // ---------------------------------------------------------------------------
  // Any run of requests without a manual insert

  lemma HandlePreservesInvariant(st: Store, req: Request)
    requires Invariant(st)
    requires !req.AddModuleDataRequest?
    ensures Invariant(Handle(st, req).store)
  {
    match req
    case CreateModuleRequest(name) => CreateModulePreservesInvariant(st, name);
    case AddStudentRequest(p) => AddStudentPreservesInvariant(st, p);
    case EditStudentRequest(number, e) => EditStudentPreservesInvariant(st, number, e);
    case DeleteStudentRequest(number) => DeleteStudentPreservesInvariant(st, number);
    case DeleteModuleRequest(name) => DeleteModulePreservesInvariant(st, name);
    case EditModuleDataRequest(a, m, p) => EditModuleDataPreservesInvariant(st, a, m, p);
    case UpdateModuleDataRequest(a, m, p) => UpdateModuleDataPreservesInvariant(st, a, m, p);
  }

  /** Served one after another, requests that do not include `adicionar_modulo_aluno`
      keep exactly one grade row per (student, module) pair. */
  lemma {:induction false} ReplayPreservesInvariant(st: Store, reqs: seq<Request>)
    requires Invariant(st)
    requires forall i :: 0 <= i < |reqs| ==> !reqs[i].AddModuleDataRequest?
    ensures Invariant(Replay(st, reqs))
    decreases |reqs|
  {
    if |reqs| > 0 {
      HandlePreservesInvariant(st, reqs[0]);
      ReplayPreservesInvariant(Handle(st, reqs[0]).store, reqs[1..]);
    }
  }

  /** From a fresh database, every student ends up with exactly one row in every module. */
  lemma GridFromEmptyStore(reqs: seq<Request>, s: Student, m: Module)
    requires forall i :: 0 <= i < |reqs| ==> !reqs[i].AddModuleDataRequest?
    requires s in Replay(EmptyStore, reqs).students && m in Replay(EmptyStore, reqs).modules
    ensures CountPair(Replay(EmptyStore, reqs).rows, s.id, m.id) == 1
  {
    ReplayPreservesInvariant(EmptyStore, reqs);
  }
}
