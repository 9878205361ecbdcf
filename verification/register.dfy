/** The registration screen: the form's field updates, the ordered checks of
    `handleRegister`, and the payload it sends. */
module Register {
  import opened Wrappers
  import opened Text

  /** The form state; every field is text, `tipo` starting at "ALUNO". */
  datatype FormData = FormData(
    nome: string, email: string, senha: string, confirmSenha: string,
    tipo: string, matricula: string)

  const Initial := FormData("", "", "", "", "ALUNO", "")

  datatype Field = Nome | Email | Senha | ConfirmSenha | TipoField | Matricula

  const MissingFields := "Por favor, preencha todos os campos obrigatórios"
  const MissingMatricula := "Matrícula é obrigatória para alunos"
  const SenhasDiffer := "As senhas não coincidem"
  const SenhaShort := "A senha deve ter pelo menos 6 caracteres"

  /** The value the form shows for one field. */
  function Get(f: FormData, field: Field): string {
    match field
    case Nome => f.nome
    case Email => f.email
    case Senha => f.senha
    case ConfirmSenha => f.confirmSenha
    case TipoField => f.tipo
    case Matricula => f.matricula
  }

  /** `updateFormData(field, value)`: the named field takes `value`; switching
      `tipo` to PROFESSOR also empties `matricula`. */
  function UpdateFormData(f: FormData, field: Field, value: string): (r: FormData)
    ensures Get(r, field) == value
    ensures forall g :: g != field && !(field == TipoField && value == "PROFESSOR" && g == Matricula)
              ==> Get(r, g) == Get(f, g)
    ensures field == TipoField && value == "PROFESSOR" ==> r.matricula == ""
  {
    match field
    case Nome => f.(nome := value)
    case Email => f.(email := value)
    case Senha => f.(senha := value)
    case ConfirmSenha => f.(confirmSenha := value)
    case TipoField => if value == "PROFESSOR" then f.(tipo := value, matricula := "") else f.(tipo := value)
    case Matricula => f.(matricula := value)
  }

  /** Setting a field twice to the same value is the same as setting it once. */
  lemma UpdateFormDataIdempotent(f: FormData, field: Field, value: string)
    ensures UpdateFormData(UpdateFormData(f, field, value), field, value) == UpdateFormData(f, field, value)
  {
  }

  /** Switching to ALUNO keeps whatever `matricula` was typed, and switching back to
      PROFESSOR loses it. */
  lemma SwitchingTipo(f: FormData)
    ensures UpdateFormData(f, TipoField, "ALUNO").matricula == f.matricula
    ensures UpdateFormData(UpdateFormData(f, TipoField, "PROFESSOR"), TipoField, "ALUNO").matricula == ""
  {
  }

  /** The body of `authService.register`. */
  datatype RegisterPayload = RegisterPayload(
    nome: string, email: string, senha: string, tipo: string, matricula: Option<string>)

  /** `handleRegister`: the first failing check names the message; otherwise the
      payload, with `matricula` only for a student. */
  function HandleRegister(f: FormData): (r: Result<RegisterPayload, string>)
    ensures r == Err(MissingFields) <==>
      f.nome == "" || f.email == "" || f.senha == "" || f.confirmSenha == ""
    ensures r == Err(MissingMatricula) <==>
      f.nome != "" && f.email != "" && f.senha != "" && f.confirmSenha != ""
      && f.tipo == "ALUNO" && f.matricula == ""
    ensures r == Err(SenhasDiffer) <==>
      f.nome != "" && f.email != "" && f.senha != "" && f.confirmSenha != ""
      && !(f.tipo == "ALUNO" && f.matricula == "") && f.senha != f.confirmSenha
    ensures r == Err(SenhaShort) <==>
      f.nome != "" && f.email != "" && f.senha != "" && f.confirmSenha != ""
      && !(f.tipo == "ALUNO" && f.matricula == "") && f.senha == f.confirmSenha
      && JsLength(f.senha) < 6
    ensures r.Ok? ==>
      && r.value.nome == f.nome && r.value.email == f.email && r.value.senha == f.senha
      && r.value.tipo == f.tipo
      && (r.value.matricula.Some? <==> f.tipo == "ALUNO")
      && (r.value.matricula.Some? ==> r.value.matricula.value == f.matricula && f.matricula != "")
  {
    if f.nome == "" || f.email == "" || f.senha == "" || f.confirmSenha == "" then Err(MissingFields)
    else if f.tipo == "ALUNO" && f.matricula == "" then Err(MissingMatricula)
    else if f.senha != f.confirmSenha then Err(SenhasDiffer)
    else if JsLength(f.senha) < 6 then Err(SenhaShort)
    else Ok(RegisterPayload(f.nome, f.email, f.senha, f.tipo,
                            if f.tipo == "ALUNO" then Some(f.matricula) else None))
  }

  /** A registration goes through exactly when every field is filled (matricula only
      for a student), the two passwords agree and the password has 6 characters. */
  lemma RegisterAcceptsExactly(f: FormData)
    ensures HandleRegister(f).Ok? <==>
      f.nome != "" && f.email != "" && f.senha != "" && f.confirmSenha != ""
      && (f.tipo == "ALUNO" ==> f.matricula != "")
      && f.senha == f.confirmSenha && JsLength(f.senha) >= 6
  {
  }

  /** A professor registration never sends the matricula left over from the form,
      and its matricula check never fails. */
  lemma ProfessorSendsNoMatricula(f: FormData)
    ensures var g := UpdateFormData(f, TipoField, "PROFESSOR");
      && HandleRegister(g) != Err(MissingMatricula)
      && (HandleRegister(g).Ok? ==> HandleRegister(g).value.matricula == None)
  {
  }
}
