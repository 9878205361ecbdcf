/** The professor's profile screen: where its user id comes from, the ordered
    checks of `validateForm`, and the body `handleUpdate` sends to `PUT /professor`. */
module ProfileForm {
  import opened Wrappers
  import opened Text
  import opened ProfileRules
  import ProfessorController

  /** The screen state. `usuarioId` holds the number the screen keeps, `None`
      standing for `NaN`; it starts at 0. */
  datatype Form = Form(
    usuarioId: Option<int>, nome: string, email: string, senha: string, confirmPassword: string)

  const Initial := Form(Some(0), "", "", "", "")

  /** The two `AsyncStorage` reads of `loadUserData`, or a failing storage. */
  datatype StorageRead = Read(userId: Option<string>, userType: Option<string>) | ReadFailed

  /** `loadUserData`: the stored id, read by `parseInt`, is taken only when an id is
      stored and the stored type is PROFESSOR; otherwise the form is left alone. */
  function LoadUserData(f: Form, read: StorageRead): (r: Form)
    ensures r.nome == f.nome && r.email == f.email && r.senha == f.senha
    ensures r.confirmPassword == f.confirmPassword
    ensures r.usuarioId != f.usuarioId ==>
      read.Read? && Truthy(read.userId) && read.userType == Some("PROFESSOR")
    ensures read.Read? && Truthy(read.userId) && read.userType == Some("PROFESSOR") ==>
      r.usuarioId == ParseInt(read.userId.value)
  {
    match read
    case ReadFailed => f
    case Read(userId, userType) =>
      if Truthy(userId) && userType == Some("PROFESSOR") then f.(usuarioId := ParseInt(userId.value))
      else f
  }

  /** A professor whose id was stored as its decimal text gets that id back. */
  lemma LoadStoredProfessorId(f: Form, id: int)
    ensures LoadUserData(f, Read(Some(IntToString(id)), Some("PROFESSOR"))).usuarioId == Some(id)
  {
    ParseIntRoundTrip(id);
  }

  const IdMissing := "ID do usuário não encontrado"
  const NomeRequired := "Nome é obrigatório e deve ter pelo menos 2 caracteres"
  const EmailRequired := "Email é obrigatório e deve ser válido"
  const SenhaShort := "Senha deve ter pelo menos 6 caracteres"
  const SenhasDiffer := "Senhas não conferem"

  /** The checks of `validateForm` in source order: the first that fails names the
      message shown; `None` is `validateForm() === true`. */
  function FormError(f: Form): (r: Option<string>)
    ensures r == Some(IdMissing) <==> !IdGiven(f.usuarioId)
    ensures r == Some(NomeRequired) <==> IdGiven(f.usuarioId) && JsLength(Trim(f.nome)) < 2
    ensures r == Some(EmailRequired) <==>
      IdGiven(f.usuarioId) && JsLength(Trim(f.nome)) >= 2 && !IsEmail(f.email)
    ensures r == Some(SenhaShort) <==>
      IdGiven(f.usuarioId) && JsLength(Trim(f.nome)) >= 2 && IsEmail(f.email)
      && f.senha != "" && JsLength(f.senha) < 6
    ensures r == Some(SenhasDiffer) <==>
      IdGiven(f.usuarioId) && JsLength(Trim(f.nome)) >= 2 && IsEmail(f.email)
      && f.senha != "" && JsLength(f.senha) >= 6 && f.senha != f.confirmPassword
  {
    if !IdGiven(f.usuarioId) then Some(IdMissing)
    else if f.nome == "" || JsLength(Trim(f.nome)) < 2 then Some(NomeRequired)
    else if f.email == "" || !IsEmail(f.email) then Some(EmailRequired)
    else if f.senha != "" && JsLength(f.senha) < 6 then Some(SenhaShort)
    else if f.senha != "" && f.senha != f.confirmPassword then Some(SenhasDiffer)
    else None
  }

  /** `validateForm`. */
  function ValidateForm(f: Form): (ok: bool)
    ensures ok <==>
      && IdGiven(f.usuarioId) && JsLength(Trim(f.nome)) >= 2 && IsEmail(f.email)
      && (f.senha != "" ==> JsLength(f.senha) >= 6 && f.senha == f.confirmPassword)
  {
    FormError(f).None?
  }

  /** An empty password field passes both password checks, whatever the
      confirmation holds. */
  lemma EmptySenhaSkipsPasswordChecks(f: Form, confirm: string)
    requires f.senha == ""
    ensures ValidateForm(f.(confirmPassword := confirm)) == ValidateForm(f)
  {
  }

  /** The body of `professorService.update`: id, name and email always, the
      password only when one was typed. */
  datatype UpdatePayload = UpdatePayload(
    usuarioId: Option<int>, nome: string, email: string, senha: Option<string>)

  function Payload(f: Form): (p: UpdatePayload)
    ensures p.usuarioId == f.usuarioId && p.nome == f.nome && p.email == f.email
    ensures p.senha.Some? <==> f.senha != ""
    ensures p.senha.Some? ==> p.senha.value == f.senha
  {
    UpdatePayload(f.usuarioId, f.nome, f.email, if f.senha != "" then Some(f.senha) else None)
  }

  /** `handleUpdate`: nothing is sent unless the form is valid. */
  function HandleUpdate(f: Form): (r: Option<UpdatePayload>)
    ensures r.Some? <==> ValidateForm(f)
    ensures r.Some? ==> r.value == Payload(f)
  {
    if ValidateForm(f) then Some(Payload(f)) else None
  }

  /** The request the backend reads from that body. */
  function AsRequest(p: UpdatePayload): ProfessorController.UpdateRequest {
    ProfessorController.UpdateRequest(p.usuarioId, Some(p.nome), Some(p.email), p.senha)
  }

  /** What the screen sends passes the backend's checks as long as the trimmed name
      is at most 100 characters long, the one bound the screen does not check. */
  lemma SentFormPassesBackend(f: Form)
    requires HandleUpdate(f).Some? && JsLength(Trim(f.nome)) <= 100
    ensures ProfessorController.Validate(AsRequest(HandleUpdate(f).value)).None?
  {
  }

  /** A name of 101 letters passes the screen and is refused by the backend. */
  lemma LongNameRefusedByBackend()
    ensures var f := Form(Some(1), seq(101, _ => 'a'), "a@b.c", "", "");
      && HandleUpdate(f).Some?
      && ProfessorController.Validate(AsRequest(HandleUpdate(f).value)) == Some(NomeLength)
  {
    var nome: string := seq(101, _ => 'a');
    var t := Trim(nome);
    assert LeadingSpace(nome) == 0 by { assert !IsSpace(nome[0]); }
    assert t == nome;
    assert JsLength(t) == 101;
    assert EmailSplit("a@b.c", 1, 3);
  }
}
