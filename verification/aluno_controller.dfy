/** The student controller of the backend: `update` with its ordered field checks
    and payload, `getById`, the three-step `delete`, and the mapping of Prisma
    error codes to HTTP statuses. */
module AlunoController {
  import opened Wrappers
  import opened Text
  import opened Roles
  import opened SchoolDb
  import opened ProfileRules

  /** The body of `PUT /aluno`; `None` is a field left out. */
  datatype UpdateRequest = UpdateRequest(
    usuarioId: Option<int>,
    nome: Option<string>,
    email: Option<string>,
    senha: Option<string>,
    matricula: Option<string>)

  const MatriculaEmpty := "Matrícula não pode estar vazia"
  const NotFound := "Aluno não encontrado"
  const InUse := "Email ou matrícula já em uso"
  const CreateFailed := "Erro ao criar aluno"
  const UpdateFailed := "Erro ao atualizar aluno"
  const LookupFailed := "Erro ao buscar aluno"
  const DeleteFailed := "Erro ao excluir aluno"
  const DeletedMessage := "Aluno excluído com sucesso"

  /** A given `matricula` is not white space only. */
  predicate MatriculaOk(matricula: Option<string>) {
    Truthy(matricula) ==> Trim(matricula.value) != ""
  }

  /** The checks of `update`, in source order; the first that fails names the
      message, and `None` means every check passed. */
  function Validate(req: UpdateRequest): (r: Option<string>)
    ensures r.None? <==>
      IdGiven(req.usuarioId) && NomeOk(req.nome) && EmailOk(req.email)
      && MatriculaOk(req.matricula) && SenhaOk(req.senha)
    ensures r == Some(IdRequired) <==> !IdGiven(req.usuarioId)
    ensures r == Some(NomeLength) <==> IdGiven(req.usuarioId) && !NomeOk(req.nome)
    ensures r == Some(EmailInvalid) <==>
      IdGiven(req.usuarioId) && NomeOk(req.nome) && !EmailOk(req.email)
    ensures r == Some(MatriculaEmpty) <==>
      IdGiven(req.usuarioId) && NomeOk(req.nome) && EmailOk(req.email) && !MatriculaOk(req.matricula)
    ensures r == Some(SenhaShort) <==>
      IdGiven(req.usuarioId) && NomeOk(req.nome) && EmailOk(req.email)
      && MatriculaOk(req.matricula) && !SenhaOk(req.senha)
  {
    if !IdGiven(req.usuarioId) then Some(IdRequired)
    else if !NomeOk(req.nome) then Some(NomeLength)
    else if !EmailOk(req.email) then Some(EmailInvalid)
    else if !MatriculaOk(req.matricula) then Some(MatriculaEmpty)
    else if !SenhaOk(req.senha) then Some(SenhaShort)
    else None
  }

  /** The nested `aluno: { update: ... }` part: present only when a `matricula` is
      given, and then trimmed. */
  function AlunoData(matricula: Option<string>): (m: Option<string>)
    ensures m.Some? <==> Truthy(matricula)
    ensures m.Some? ==> m.value == Trim(matricula.value)
  {
    if Truthy(matricula) then Some(Trim(matricula.value)) else None
  }

  /** The `catch` of `update`. */
  function UpdateFailure(code: string): (r: Response)
    ensures r.status == 404 <==> code == RecordNotFound
    ensures r.status == 400 <==> code == UniqueViolation
    ensures r.status == 500 <==> code != RecordNotFound && code != UniqueViolation
    ensures r.body == Message(if r.status == 404 then NotFound else if r.status == 400 then InUse else UpdateFailed)
  {
    if code == RecordNotFound then Response(404, Message(NotFound))
    else if code == UniqueViolation then Response(400, Message(InUse))
    else Response(500, Message(UpdateFailed))
  }

  /** The `catch` of `create`. */
  function CreateFailure(code: string): (r: Response)
    ensures r.status == 400 <==> code == UniqueViolation
    ensures r.status == 500 <==> code != UniqueViolation
    ensures r.body == Message(if r.status == 400 then InUse else CreateFailed)
  {
    if code == UniqueViolation then Response(400, Message(InUse))
    else Response(500, Message(CreateFailed))
  }

  /** `update`: the checks, then one update of the user restricted to
      `tipo = 'ALUNO'`, answered without the password. */
  function Update(req: UpdateRequest, db: Db): (o: Outcome)
    ensures Validate(req).Some? ==> o == Outcome(Response(400, Message(Validate(req).value)), db)
    ensures o.response.status != 200 ==> o.db == db
    ensures o.response.status == 200 ==>
      var id := req.usuarioId.value;
      && Validate(req).None? && id in db.usuarios && db.usuarios[id].tipo == Aluno
      && o.db == db.(
           usuarios := db.usuarios[id := ApplyData(db.usuarios[id], UserData(req.nome, req.email, req.senha))],
           alunos := if Truthy(req.matricula) then db.alunos[id := Trim(req.matricula.value)] else db.alunos)
      && o.response.body == Updated(UpdatedMessage, WithoutPassword(o.db, id, Aluno))
    ensures o.response.status == 404 <==>
      Validate(req).None? &&
      var id := req.usuarioId.value;
      !(id in db.usuarios && db.usuarios[id].tipo == Aluno && (Truthy(req.matricula) ==> id in db.alunos))
    ensures o.response.status == 200 <==>
      Validate(req).None? &&
      var id := req.usuarioId.value;
      && id in db.usuarios && db.usuarios[id].tipo == Aluno && (Truthy(req.matricula) ==> id in db.alunos)
      && !EmailTaken(db, id, ApplyData(db.usuarios[id], UserData(req.nome, req.email, req.senha)).email)
      && !(Truthy(req.matricula) && MatriculaTaken(db, id, Trim(req.matricula.value)))
    ensures o.response == Response(400, Message(InUse)) <==>
      Validate(req).None? &&
      var id := req.usuarioId.value;
      && id in db.usuarios && db.usuarios[id].tipo == Aluno && (Truthy(req.matricula) ==> id in db.alunos)
      && (|| EmailTaken(db, id, ApplyData(db.usuarios[id], UserData(req.nome, req.email, req.senha)).email)
          || (Truthy(req.matricula) && MatriculaTaken(db, id, Trim(req.matricula.value))))
  {
    match Validate(req)
    case Some(msg) => Outcome(Response(400, Message(msg)), db)
    case None =>
      var id := req.usuarioId.value;
      var d := UserData(req.nome, req.email, req.senha);
      match UpdateUsuario(db, id, Aluno, d, AlunoData(req.matricula))
      case Ok(db') => Outcome(Response(200, Updated(UpdatedMessage, WithoutPassword(db', id, Aluno))), db')
      case Err(code) => Outcome(UpdateFailure(code), db)
  }

  /** A successful update writes exactly the given fields, name, email and
      matricula trimmed and the password hashed, and keeps the tables consistent. */
  lemma UpdateWritesGivenFields(req: UpdateRequest, db: Db)
    ensures Update(req, db).response.status == 200 ==>
      var id := req.usuarioId.value;
      var before := db.usuarios[id];
      var after := Update(req, db).db;
      && after.usuarios[id].nome == (if Truthy(req.nome) then Trim(req.nome.value) else before.nome)
      && after.usuarios[id].email == (if Truthy(req.email) then Trim(req.email.value) else before.email)
      && after.usuarios[id].senha == (if Truthy(req.senha) then Hashed(req.senha.value) else before.senha)
      && after.usuarios[id].tipo == Aluno
      && (Truthy(req.matricula) ==> after.alunos[id] == Trim(req.matricula.value))
      && (forall k :: k in db.usuarios && k != id ==> after.usuarios[k] == db.usuarios[k])
      && (forall k :: k in db.alunos && k != id ==> after.alunos[k] == db.alunos[k])
      && after.matriculas == db.matriculas
  {
  }

  /** An update keeps the database constraints. */
  lemma UpdateKeepsConstraints(req: UpdateRequest, db: Db)
    requires Valid(db)
    ensures Valid(Update(req, db).db)
  {
    if Validate(req).None? {
      var id := req.usuarioId.value;
      var r := UpdateUsuario(db, id, Aluno, UserData(req.nome, req.email, req.senha), AlunoData(req.matricula));
      if r.Ok? {
        assert Valid(r.value);
      }
    }
  }

  /** Without an id the answer is fixed before the tables are looked at. */
  lemma MissingIdNeedsNoStore(req: UpdateRequest, db1: Db, db2: Db)
    requires !IdGiven(req.usuarioId)
    ensures Update(req, db1).response == Update(req, db2).response
              == Response(400, Message(IdRequired))
  {
  }

  /** The answer to an update never carries the password: two updates that differ
      only in the new password answer alike. */
  lemma UpdateAnswerIgnoresPassword(req: UpdateRequest, s1: Option<string>, s2: Option<string>, db: Db)
    requires SenhaOk(s1) && SenhaOk(s2)
    ensures Update(req.(senha := s1), db).response == Update(req.(senha := s2), db).response
  {
  }

  /** `getById`: an empty path parameter is a 400; a parameter `parseInt` cannot
      read is rejected by Prisma (500); otherwise the student, without password, or 404. */
  function GetById(param: string, db: Db): (r: Response)
    ensures param == "" ==> r == Response(400, Message(IdRequired))
    ensures r.status == 200 <==>
      param != "" && ParseInt(param).Some?
      && ParseInt(param).value in db.usuarios && db.usuarios[ParseInt(param).value].tipo == Aluno
    ensures r.status == 200 ==> r.body == User(WithoutPassword(db, ParseInt(param).value, Aluno))
    ensures param != "" && ParseInt(param).Some? && r.status != 200 ==> r == Response(404, Message(NotFound))
    ensures param != "" && ParseInt(param).None? ==> r == Response(500, Message(LookupFailed))
  {
    if param == "" then Response(400, Message(IdRequired))
    else match ParseInt(param)
      case None => Response(500, Message(LookupFailed))
      case Some(id) =>
        match FindFirst(db, id, Aluno)
        case None => Response(404, Message(NotFound))
        case Some(v) => Response(200, User(v))
  }

  /** What `getById` returns does not depend on the stored password. */
  lemma GetByIdIgnoresPassword(param: string, db: Db, id: int, s: Secret)
    requires id in db.usuarios
    ensures GetById(param, WithPassword(db, id, s)) == GetById(param, db)
  {
    if param != "" && ParseInt(param).Some? {
      var k := ParseInt(param).value;
      if k in db.usuarios && db.usuarios[k].tipo == Aluno {
        if k == id {
          WithoutPasswordIgnoresSenha(db, id, Aluno, s);
        }
      }
    }
  }

  /** `delete` as written: enrolments, then the `Aluno` row, then the user, each a
      separate statement, so a failure leaves the earlier steps applied. With the
      id left out, the first filter is empty and every enrolment goes. */
  function Delete(usuarioId: Option<int>, db: Db): (o: Outcome)
    ensures o.db.matriculas == DeleteMany(db.matriculas, usuarioId)
    ensures o.db.professores == db.professores && o.db.lecionadas == db.lecionadas
    ensures o.response.status == 200 || o.response == Response(500, Message(DeleteFailed))
    ensures o.response.status == 200 <==>
      usuarioId.Some? && usuarioId.value in db.alunos
      && usuarioId.value in db.usuarios && usuarioId.value !in db.professores
    ensures o.response.status == 200 ==>
      && o.response.body == Message(DeletedMessage)
      && o.db.alunos == db.alunos - {usuarioId.value}
      && o.db.usuarios == db.usuarios - {usuarioId.value}
    ensures o.response.status == 500 ==>
      && o.db.usuarios == db.usuarios
      && (o.db.alunos == db.alunos || (usuarioId.Some? && o.db.alunos == db.alunos - {usuarioId.value}))
    ensures Valid(db) ==> (o.response.status == 200 <==> usuarioId.Some? && usuarioId.value in db.alunos)
  {
    var afterEnrolments := db.(matriculas := DeleteMany(db.matriculas, usuarioId));
    if usuarioId.None? then Outcome(Response(500, Message(DeleteFailed)), afterEnrolments)
    else
      match DeleteAlunoRow(afterEnrolments, usuarioId.value)
      case Err(_) => Outcome(Response(500, Message(DeleteFailed)), afterEnrolments)
      case Ok(afterAluno) =>
        match DeleteUsuarioRow(afterAluno, usuarioId.value)
        case Err(_) => Outcome(Response(500, Message(DeleteFailed)), afterAluno)
        case Ok(afterUsuario) => Outcome(Response(200, Message(DeletedMessage)), afterUsuario)
  }

  /** Deleting an existing student succeeds, removes exactly its enrolments, its
      `Aluno` row and its user, and keeps the tables consistent. */
  lemma DeleteCascades(id: int, db: Db)
    requires Valid(db) && id in db.alunos
    ensures var o := Delete(Some(id), db);
      && o.response == Response(200, Message(DeletedMessage))
      && o.db.usuarios == db.usuarios - {id}
      && o.db.alunos == db.alunos - {id}
      && (forall m :: m in o.db.matriculas <==> m in db.matriculas && db.matriculas[m] != id)
      && o.db.professores == db.professores && o.db.lecionadas == db.lecionadas
      && Valid(o.db)
  {
    var a := db.(matriculas := DeleteMany(db.matriculas, Some(id)));
    assert DeleteAlunoRow(a, id).Ok?;
    var b := a.(alunos := a.alunos - {id});
    assert id !in db.professores;
    assert DeleteUsuarioRow(b, id).Ok?;
  }

  /** The order matters: removing the `Aluno` row while an enrolment still refers
      to it is refused by the foreign key. */
  lemma AlunoRowBeforeEnrolmentsFails(id: int, m: int, db: Db)
    requires m in db.matriculas && db.matriculas[m] == id
    ensures DeleteAlunoRow(db, id).Err?
  {
  }

  /** The discrepancy of `Delete`: a request without `usuarioId` answers 500 yet
      has already removed every student's enrolments. */
  lemma DeleteWithoutIdWipesEnrolments(db: Db)
    ensures Delete(None, db).response.status == 500
    ensures Delete(None, db).db.matriculas == map[]
  {
  }

  /** `delete` with the id checked first, as `update` does: a request without an id
      changes nothing, and no request removes another student's enrolment. */
  function DeleteChecked(usuarioId: Option<int>, db: Db): (o: Outcome)
    ensures !IdGiven(usuarioId) ==> o == Outcome(Response(400, Message(IdRequired)), db)
    ensures forall m :: m in db.matriculas && (usuarioId.None? || db.matriculas[m] != usuarioId.value)
              ==> m in o.db.matriculas
  {
    if !IdGiven(usuarioId) then Outcome(Response(400, Message(IdRequired)), db)
    else Delete(usuarioId, db)
  }
}
