/** The enrolment screen: which students can still be enrolled in a discipline,
    the enrolments listed under each discipline, and the request that enrols a
    student. */
module Enrollment {
  import opened Wrappers
  import opened Seqs

  datatype Disciplina = Disciplina(id: int, descricao: string)

  datatype Aluno = Aluno(usuarioId: int, matricula: string)

  /** A `MatriculaAluno` row: the enrolment of student `alunoId` in discipline
      `disciplinaId`, with its grade once one is given (`None` is `null`). */
  datatype MatriculaAluno = MatriculaAluno(id: int, alunoId: int, disciplinaId: int, nota: Option<real>)

  /** The loaded lists and what the screen currently shows. */
  datatype Screen = Screen(
    alunos: seq<Aluno>,
    matriculas: seq<MatriculaAluno>,
    selected: Option<Disciplina>,
    available: seq<Aluno>,
    modalVisible: bool)

  /** The body of `matriculaService.create`. */
  datatype CreateRequest = CreateRequest(alunoId: int, disciplinaId: int)

  /** `obterMatriculasPorDisciplina`: the enrolments in one discipline, in order. */
  function MatriculasPorDisciplina(ms: seq<MatriculaAluno>, disciplinaId: int): (r: seq<MatriculaAluno>)
    ensures forall i :: 0 <= i < |r| ==> r[i] in ms && r[i].disciplinaId == disciplinaId
    ensures forall i :: 0 <= i < |ms| && ms[i].disciplinaId == disciplinaId ==> ms[i] in r
    ensures SubseqOf(r, ms)
  {
    Filter(ms, InDisciplina(disciplinaId))
  }

  function InDisciplina(disciplinaId: int): MatriculaAluno -> bool {
    (m: MatriculaAluno) => m.disciplinaId == disciplinaId
  }

  /** The "n aluno(s)" shown under a discipline: the number of enrolments in it. */
  function StudentCount(ms: seq<MatriculaAluno>, disciplinaId: int): (n: nat)
    ensures n == Count(ms, InDisciplina(disciplinaId))
  {
    FilterCount(ms, InDisciplina(disciplinaId));
    |MatriculasPorDisciplina(ms, disciplinaId)|
  }

  /** The `alunoId`s of the enrolments in one discipline. */
  function EnrolledIds(ms: seq<MatriculaAluno>, disciplinaId: int): (r: seq<int>)
    ensures forall id :: id in r <==> exists m :: m in ms && m.disciplinaId == disciplinaId && m.alunoId == id
  {
    if |ms| == 0 then []
    else
      var rest := EnrolledIds(ms[1..], disciplinaId);
      assert forall m :: m in ms <==> m == ms[0] || m in ms[1..];
      if ms[0].disciplinaId == disciplinaId then [ms[0].alunoId] + rest else rest
  }

  /** `alunos.filter(aluno => !alunosMatriculados.includes(aluno.usuarioId))`. */
  function Available(alunos: seq<Aluno>, ms: seq<MatriculaAluno>, disciplinaId: int): (r: seq<Aluno>)
    ensures SubseqOf(r, alunos)
  {
    Filter(alunos, (a: Aluno) => a.usuarioId !in EnrolledIds(ms, disciplinaId))
  }

  /** A student is offered exactly when it is listed and no enrolment in the
      discipline names it. */
  lemma AvailableExactly(alunos: seq<Aluno>, ms: seq<MatriculaAluno>, disciplinaId: int, a: Aluno)
    ensures a in Available(alunos, ms, disciplinaId) <==>
      a in alunos && forall m :: m in ms && m.disciplinaId == disciplinaId ==> m.alunoId != a.usuarioId
  {
    var r := Available(alunos, ms, disciplinaId);
    if a in r {
      var i :| 0 <= i < |r| && r[i] == a;
    }
    if a in alunos && a.usuarioId !in EnrolledIds(ms, disciplinaId) {
      var i :| 0 <= i < |alunos| && alunos[i] == a;
    }
  }

  /** `selecionarDisciplina`: remember the discipline, compute who can still be
      enrolled in it, open the modal. */
  function SelecionarDisciplina(s: Screen, d: Disciplina): (r: Screen)
    ensures r.alunos == s.alunos && r.matriculas == s.matriculas
    ensures r.selected == Some(d) && r.modalVisible
    ensures r.available == Available(s.alunos, s.matriculas, d.id)
  {
    s.(selected := Some(d), available := Available(s.alunos, s.matriculas, d.id), modalVisible := true)
  }

  /** `matricularAluno`: nothing without a selected discipline; otherwise the
      request naming the student's user id and the discipline's id. */
  function MatricularAluno(s: Screen, a: Aluno): (r: Option<CreateRequest>)
    ensures r.None? <==> s.selected.None?
    ensures r.Some? ==> r.value.alunoId == a.usuarioId && r.value.disciplinaId == s.selected.value.id
  {
    match s.selected
    case None => None
    case Some(d) => Some(CreateRequest(a.usuarioId, d.id))
  }

  /** Enrolling someone the modal offers never asks for an enrolment that already
      exists. */
  lemma OfferedStudentIsNew(s: Screen, d: Disciplina, a: Aluno)
    requires a in SelecionarDisciplina(s, d).available
    ensures var req := MatricularAluno(SelecionarDisciplina(s, d), a);
      && req == Some(CreateRequest(a.usuarioId, d.id))
      && forall m :: m in s.matriculas ==> !(m.alunoId == req.value.alunoId && m.disciplinaId == req.value.disciplinaId)
  {
    AvailableExactly(s.alunos, s.matriculas, d.id, a);
  }

  /** Once the new enrolment is loaded, the discipline's count goes up by one and
      the student is no longer offered for it. */
  lemma EnrolmentReloaded(alunos: seq<Aluno>, ms: seq<MatriculaAluno>, a: Aluno, d: int, id: int)
    ensures var ms' := ms + [MatriculaAluno(id, a.usuarioId, d, None)];
      && StudentCount(ms', d) == StudentCount(ms, d) + 1
      && a !in Available(alunos, ms', d)
  {
    var m := MatriculaAluno(id, a.usuarioId, d, None);
    var p := InDisciplina(d);
    FilterAppend(ms, [m], p);
    assert Filter([m], p) == [m];
    AvailableExactly(alunos, ms + [m], d, a);
    assert m in ms + [m];
  }
}
