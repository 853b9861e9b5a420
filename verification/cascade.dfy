/** The two enrollment cascades: the zero-valued grade rows inserted for every
    existing student when a module is created (app.py:75-81), and for every existing
    module when a student is added (app.py:116-122). Row ids continue the `module_data`
    AUTOINCREMENT counter in the order the parent rows are read back. */
module Cascade {
  import opened Basics
  import opened Schema

  /** The rows `criar_modulo` inserts for module `moduleId`, one per student, in order. */
  function ModuleCascade(students: seq<Student>, moduleId: nat, firstRowId: nat): (rows: seq<GradeRow>)
    ensures |rows| == |students|
    ensures forall i :: 0 <= i < |rows| ==> rows[i] == GradeRow(firstRowId + i, students[i].id, moduleId, NoGrades)
    decreases |students|
  {
    if |students| == 0 then []
    else [GradeRow(firstRowId, students[0].id, moduleId, NoGrades)] + ModuleCascade(students[1..], moduleId, firstRowId + 1)
  }

  /** The rows `adicionar_aluno` inserts for student `studentId`, one per module, in order. */
  function StudentCascade(modules: seq<Module>, studentId: nat, firstRowId: nat): (rows: seq<GradeRow>)
    ensures |rows| == |modules|
    ensures forall i :: 0 <= i < |rows| ==> rows[i] == GradeRow(firstRowId + i, studentId, modules[i].id, NoGrades)
    decreases |modules|
  {
    if |modules| == 0 then []
    else [GradeRow(firstRowId, studentId, modules[0].id, NoGrades)] + StudentCascade(modules[1..], studentId, firstRowId + 1)
  }

  /** The new module gets exactly one row per existing student and no other pair
      gets any; this needs student ids to be distinct, which increasing ids give. */
  lemma {:induction false} ModuleCascadeCount(students: seq<Student>, moduleId: nat, firstRowId: nat, studentId: int, m: int)
    requires Pairwise(students, StudentIdBefore)
    ensures CountPair(ModuleCascade(students, moduleId, firstRowId), studentId, m)
            == if m == moduleId && HasStudentId(students, studentId) then 1 else 0
  {
    if |students| > 0 {
      var tail := students[1..];
      var rows := ModuleCascade(students, moduleId, firstRowId);
      var rest := ModuleCascade(tail, moduleId, firstRowId + 1);
      assert rows[1..] == rest;
      assert CountPair(rows, studentId, m) == (if RowOf(rows[0], studentId, m) then 1 else 0) + CountPair(rest, studentId, m);
      PairwiseTail(students, StudentIdBefore);
      ModuleCascadeCount(tail, moduleId, firstRowId + 1, studentId, m);
      HasStudentIdCons(students, studentId);
      forall i | 0 <= i < |tail| ensures tail[i].id != students[0].id {
        assert StudentIdBefore(students[0], students[i + 1]);
      }
    }
  }

  lemma HasStudentIdCons(students: seq<Student>, id: int)
    requires |students| > 0
    ensures HasStudentId(students, id) <==> students[0].id == id || HasStudentId(students[1..], id)
  {
    if HasStudentId(students, id) && students[0].id != id {
      var i :| 0 <= i < |students| && students[i].id == id;
      assert students[1..][i - 1].id == id;
    }
    if HasStudentId(students[1..], id) {
      var i :| 0 <= i < |students[1..]| && students[1..][i].id == id;
      assert students[i + 1].id == id;
    }
  }

  /** The new student gets exactly one row per existing module and no other pair
      gets any. */
  lemma {:induction false} StudentCascadeCount(modules: seq<Module>, studentId: nat, firstRowId: nat, s: int, moduleId: int)
    requires Pairwise(modules, ModuleIdBefore)
    ensures CountPair(StudentCascade(modules, studentId, firstRowId), s, moduleId)
            == if s == studentId && HasModuleId(modules, moduleId) then 1 else 0
  {
    if |modules| > 0 {
      var tail := modules[1..];
      var rows := StudentCascade(modules, studentId, firstRowId);
      var rest := StudentCascade(tail, studentId, firstRowId + 1);
      assert rows[1..] == rest;
      assert CountPair(rows, s, moduleId) == (if RowOf(rows[0], s, moduleId) then 1 else 0) + CountPair(rest, s, moduleId);
      PairwiseTail(modules, ModuleIdBefore);
      StudentCascadeCount(tail, studentId, firstRowId + 1, s, moduleId);
      HasModuleIdCons(modules, moduleId);
      forall i | 0 <= i < |tail| ensures tail[i].id != modules[0].id {
        assert ModuleIdBefore(modules[0], modules[i + 1]);
      }
    }
  }

  lemma HasModuleIdCons(modules: seq<Module>, id: int)
    requires |modules| > 0
    ensures HasModuleId(modules, id) <==> modules[0].id == id || HasModuleId(modules[1..], id)
  {
    if HasModuleId(modules, id) && modules[0].id != id {
      var i :| 0 <= i < |modules| && modules[i].id == id;
      assert modules[1..][i - 1].id == id;
    }
    if HasModuleId(modules[1..], id) {
      var i :| 0 <= i < |modules[1..]| && modules[1..][i].id == id;
      assert modules[i + 1].id == id;
    }
  }
}
