/** Grades on the student's home screen and on the grade-management screen: the
    Aprovado / Reprovado / Pendente label and its colour, the approval count, the
    0 to 10 range check before a grade is saved, and the text the edit modal opens
    with. A grade is exact (`real`); `None` is a `null` grade. */
module Grades {
  import opened Wrappers
  import opened Text
  import opened Seqs
  import opened Enrollment

  /** `if (matricula.nota)`: a grade that is present and not 0. */
  predicate Graded(nota: Option<real>) {
    nota.Some? && nota.value != 0.0
  }

  datatype Status = Aprovado | Reprovado | Pendente

  /** The label under each grade. */
  function Classify(nota: Option<real>): (s: Status)
    ensures s == Aprovado <==> Graded(nota) && nota.value >= 7.0
    ensures s == Reprovado <==> Graded(nota) && nota.value < 7.0
    ensures s == Pendente <==> !Graded(nota)
  {
    if Graded(nota) then (if nota.value >= 7.0 then Aprovado else Reprovado) else Pendente
  }

  /** The style picked for a grade on either screen. */
  datatype GradeStyle = ApprovedGrade | FailedGrade | NoGrade

  function StyleOf(nota: Option<real>): (g: GradeStyle)
    ensures g == NoGrade <==> !Graded(nota)
  {
    if nota.Some? && nota.value != 0.0 then
      if nota.value >= 7.0 then ApprovedGrade else FailedGrade
    else NoGrade
  }

  /** The colour and the label always agree. */
  lemma StyleMatchesLabel(nota: Option<real>)
    ensures StyleOf(nota) == ApprovedGrade <==> Classify(nota) == Aprovado
    ensures StyleOf(nota) == FailedGrade <==> Classify(nota) == Reprovado
    ensures StyleOf(nota) == NoGrade <==> Classify(nota) == Pendente
  {
  }

  /** `matriculas.filter(m => m.nota && m.nota >= 7)`. */
  function Approvals(ms: seq<MatriculaAluno>): (r: seq<MatriculaAluno>)
    ensures SubseqOf(r, ms)
  {
    Filter(ms, (m: MatriculaAluno) => m.nota.Some? && m.nota.value != 0.0 && m.nota.value >= 7.0)
  }

  /** `contarAprovacoes`: the number of enrolments labelled Aprovado. */
  function CountApprovals(ms: seq<MatriculaAluno>): (n: nat)
    ensures n == CountLabel(ms, Aprovado)
  {
    LabelsPartition(ms);
    |Approvals(ms)|
  }

  /** An enrolment is counted exactly when its label reads Aprovado. */
  lemma CountedIffAprovado(ms: seq<MatriculaAluno>, m: MatriculaAluno)
    ensures m in Approvals(ms) <==> m in ms && Classify(m.nota) == Aprovado
  {
    var r := Approvals(ms);
    if m in r {
      var i :| 0 <= i < |r| && r[i] == m;
    }
    if m in ms {
      var i :| 0 <= i < |ms| && ms[i] == m;
    }
  }

  /** How many enrolments carry a given label, counted one by one. */
  function CountLabel(ms: seq<MatriculaAluno>, s: Status): nat {
    if |ms| == 0 then 0
    else CountLabel(ms[..|ms| - 1], s) + (if Classify(ms[|ms| - 1].nota) == s then 1 else 0)
  }

  /** The approved enrolments are the ones labelled Aprovado, and the three labels
      split the "Disciplinas" figure between them. */
  lemma {:induction false} LabelsPartition(ms: seq<MatriculaAluno>)
    ensures |Approvals(ms)| == CountLabel(ms, Aprovado)
    ensures CountLabel(ms, Aprovado) + CountLabel(ms, Reprovado) + CountLabel(ms, Pendente) == |ms|
  {
    if |ms| > 0 {
      var init := ms[..|ms| - 1];
      var last := ms[|ms| - 1];
      LabelsPartition(init);
      assert ms == init + [last];
      FilterAppend(init, [last], (m: MatriculaAluno) => m.nota.Some? && m.nota.value != 0.0 && m.nota.value >= 7.0);
    }
  }

  /** `initializeAluno`: the report is loaded only when an id is stored, with the
      number `parseInt` reads from it (`None` for `NaN`). */
  function InitializeAluno(storedAlunoId: Option<string>): (load: Option<Option<int>>)
    ensures load.Some? <==> Truthy(storedAlunoId)
    ensures load.Some? ==> load.value == ParseInt(storedAlunoId.value)
  {
    if Truthy(storedAlunoId) then Some(ParseInt(storedAlunoId.value)) else None
  }

  /** A student id stored as its decimal text loads that student's report. */
  lemma StoredIdLoadsReport(id: int)
    ensures InitializeAluno(Some(IntToString(id))) == Some(Some(id))
  {
    ParseIntRoundTrip(id);
  }

  const InvalidGrade := "Digite uma nota válida entre 0 e 10"

  /** What `salvarNota` does: nothing, an alert, or the update request
      `matriculaService.update(id, nota)`. */
  datatype SaveOutcome = Ignored | Rejected(message: string) | Sent(matriculaId: int, nota: real)

  /** `salvarNota`, given what `parseFloat` made of the typed text (`None` for `NaN`). */
  function SalvarNota(selected: Option<MatriculaAluno>, parsed: Option<real>): (r: SaveOutcome)
    ensures r.Ignored? <==> selected.None?
    ensures r.Rejected? <==> selected.Some? && !(parsed.Some? && 0.0 <= parsed.value <= 10.0)
    ensures r.Rejected? ==> r.message == InvalidGrade
    ensures r.Sent? ==> r.matriculaId == selected.value.id && Some(r.nota) == parsed
  {
    match selected
    case None => Ignored
    case Some(m) =>
      if parsed.None? || parsed.value < 0.0 || parsed.value > 10.0 then Rejected(InvalidGrade)
      else Sent(m.id, parsed.value)
  }

  /** The text field of the edit modal: the grade, or empty. */
  datatype Prefill = Blank | Shows(value: real)

  /** `abrirModalNota`: the existing grade, unless there is none or it is 0. */
  function AbrirModalNota(m: MatriculaAluno): (p: Prefill)
    ensures p == Blank <==> !Graded(m.nota)
  {
    if m.nota.Some? && m.nota.value != 0.0 then Shows(m.nota.value) else Blank
  }

  /** `parseFloat` of the modal's text: a number written by `toString` reads back as
      itself, and the empty text is `NaN`. */
  function ReadBack(p: Prefill): Option<real> {
    match p
    case Blank => None
    case Shows(v) => Some(v)
  }

  /** Saving the modal unchanged resends the grade it opened with, when that grade is
      in range, and refuses to save an empty modal. */
  lemma ReopenAndSave(m: MatriculaAluno)
    ensures Graded(m.nota) && 0.0 <= m.nota.value <= 10.0 ==>
      SalvarNota(Some(m), ReadBack(AbrirModalNota(m))) == Sent(m.id, m.nota.value)
    ensures !Graded(m.nota) ==> SalvarNota(Some(m), ReadBack(AbrirModalNota(m))) == Rejected(InvalidGrade)
  {
  }

  /** The discrepancy: 0 is a grade `salvarNota` accepts and sends, yet both screens
      show an enrolment graded 0 as if it had no grade. */
  lemma ZeroGradeShowsPending(m: MatriculaAluno)
    ensures SalvarNota(Some(m), Some(0.0)) == Sent(m.id, 0.0)
    ensures Classify(m.(nota := Some(0.0)).nota) == Pendente
    ensures StyleOf(Some(0.0)) == NoGrade
    ensures AbrirModalNota(m.(nota := Some(0.0))) == Blank
  {
  }

  /** The label with "no grade" read as `nota === null`, which is what the
      average on the same screen already uses. */
  function ClassifyChecked(nota: Option<real>): (s: Status)
    ensures s == Pendente <==> nota.None?
    ensures s == Aprovado <==> nota.Some? && nota.value >= 7.0
  {
    if nota.None? then Pendente else if nota.value >= 7.0 then Aprovado else Reprovado
  }

  /** Every grade that can be saved, 0 included, is shown as Aprovado or Reprovado,
      and the two labels agree wherever the grade is not 0. */
  lemma SavedGradeIsNeverPending(m: MatriculaAluno, parsed: Option<real>)
    ensures SalvarNota(Some(m), parsed).Sent? ==>
      ClassifyChecked(Some(SalvarNota(Some(m), parsed).nota)) != Pendente
    ensures parsed.None? || parsed.value != 0.0 ==> ClassifyChecked(parsed) == Classify(parsed)
  {
  }
}
