/** The professor controller of the backend: `update` with its ordered field checks
    and payload, `getById`, the three-step `delete`, and the mapping of Prisma
    error codes to HTTP statuses. */
module ProfessorController {
  import opened Wrappers
  import opened Text
  import opened Roles
  import opened SchoolDb
  import opened ProfileRules

  /** The body of `PUT /professor`; `None` is a field left out. */
  datatype UpdateRequest = UpdateRequest(
    usuarioId: Option<int>,
    nome: Option<string>,
    email: Option<string>,
    senha: Option<string>)

  const NotFound := "Professor não encontrado"
  const InUse := "Email já em uso"
  const CreateFailed := "Erro ao criar professor"
  const UpdateFailed := "Erro ao atualizar professor"
  const LookupFailed := "Erro ao buscar professor"
  const DeleteFailed := "Erro ao excluir professor"
  const DeletedMessage := "Professor excluído com sucesso"

  /** The checks of `update`, in source order; the first that fails names the
      message, and `None` means every check passed. */
  function Validate(req: UpdateRequest): (r: Option<string>)
    ensures r.None? <==>
      IdGiven(req.usuarioId) && NomeOk(req.nome) && EmailOk(req.email) && SenhaOk(req.senha)
    ensures r == Some(IdRequired) <==> !IdGiven(req.usuarioId)
    ensures r == Some(NomeLength) <==> IdGiven(req.usuarioId) && !NomeOk(req.nome)
    ensures r == Some(EmailInvalid) <==>
      IdGiven(req.usuarioId) && NomeOk(req.nome) && !EmailOk(req.email)
    ensures r == Some(SenhaShort) <==>
      IdGiven(req.usuarioId) && NomeOk(req.nome) && EmailOk(req.email) && !SenhaOk(req.senha)
  {
    if !IdGiven(req.usuarioId) then Some(IdRequired)
    else if !NomeOk(req.nome) then Some(NomeLength)
    else if !EmailOk(req.email) then Some(EmailInvalid)
    else if !SenhaOk(req.senha) then Some(SenhaShort)
    else None
  }

  /** The `catch` of `update`. */
  function UpdateFailure(code: string): (r: Response)
    ensures r.status == 404 <==> code == RecordNotFound
    ensures r.status == 400 <==> code == UniqueViolation
    ensures r.status == 500 <==> code != RecordNotFound && code != UniqueViolation
    ensures r.body == Message(if r.status == 404 then NotFound else if r.status == 400 then InUse else UpdateFailed)
  {
    if code == RecordNotFound then Response(404, Message(NotFound))
    else if code == UniqueViolation then Response(400, Message(InUse))
    else Response(500, Message(UpdateFailed))
  }

  /** The `catch` of `create`. */
  function CreateFailure(code: string): (r: Response)
    ensures r.status == 400 <==> code == UniqueViolation
    ensures r.status == 500 <==> code != UniqueViolation
    ensures r.body == Message(if r.status == 400 then InUse else CreateFailed)
  {
    if code == UniqueViolation then Response(400, Message(InUse))
    else Response(500, Message(CreateFailed))
  }

  /** `update`: the checks, then one update of the user restricted to
      `tipo = 'PROFESSOR'`, answered without the password. */
  function Update(req: UpdateRequest, db: Db): (o: Outcome)
    ensures Validate(req).Some? ==> o == Outcome(Response(400, Message(Validate(req).value)), db)
    ensures o.response.status != 200 ==> o.db == db
    ensures o.response.status == 200 ==>
      var id := req.usuarioId.value;
      && Validate(req).None? && id in db.usuarios && db.usuarios[id].tipo == Professor
      && o.db == db.(
           usuarios := db.usuarios[id := ApplyData(db.usuarios[id], UserData(req.nome, req.email, req.senha))])
      && o.response.body == Updated(UpdatedMessage, WithoutPassword(o.db, id, Professor))
    ensures o.response.status == 404 <==>
      Validate(req).None? &&
      var id := req.usuarioId.value;
      !(id in db.usuarios && db.usuarios[id].tipo == Professor)
    ensures o.response.status == 200 <==>
      Validate(req).None? &&
      var id := req.usuarioId.value;
      && id in db.usuarios && db.usuarios[id].tipo == Professor
      && !EmailTaken(db, id, ApplyData(db.usuarios[id], UserData(req.nome, req.email, req.senha)).email)
    ensures o.response == Response(400, Message(InUse)) <==>
      Validate(req).None? &&
      var id := req.usuarioId.value;
      && id in db.usuarios && db.usuarios[id].tipo == Professor
      && EmailTaken(db, id, ApplyData(db.usuarios[id], UserData(req.nome, req.email, req.senha)).email)
  {
    match Validate(req)
    case Some(msg) => Outcome(Response(400, Message(msg)), db)
    case None =>
      var id := req.usuarioId.value;
      var d := UserData(req.nome, req.email, req.senha);
      match UpdateUsuario(db, id, Professor, d, None)
      case Ok(db') => Outcome(Response(200, Updated(UpdatedMessage, WithoutPassword(db', id, Professor))), db')
      case Err(code) => Outcome(UpdateFailure(code), db)
  }

  /** A successful update writes exactly the given fields, name and email trimmed
      and the password hashed, to that professor only. */
  lemma UpdateWritesGivenFields(req: UpdateRequest, db: Db)
    ensures Update(req, db).response.status == 200 ==>
      var id := req.usuarioId.value;
      var before := db.usuarios[id];
      var after := Update(req, db).db;
      && after.usuarios[id].nome == (if Truthy(req.nome) then Trim(req.nome.value) else before.nome)
      && after.usuarios[id].email == (if Truthy(req.email) then Trim(req.email.value) else before.email)
      && after.usuarios[id].senha == (if Truthy(req.senha) then Hashed(req.senha.value) else before.senha)
      && after.usuarios[id].tipo == Professor
      && (forall k :: k in db.usuarios && k != id ==> after.usuarios[k] == db.usuarios[k])
      && after.alunos == db.alunos && after.professores == db.professores
  {
  }

  /** An update keeps the database constraints. */
  lemma UpdateKeepsConstraints(req: UpdateRequest, db: Db)
    requires Valid(db)
    ensures Valid(Update(req, db).db)
  {
    if Validate(req).None? {
      var id := req.usuarioId.value;
      var r := UpdateUsuario(db, id, Professor, UserData(req.nome, req.email, req.senha), None);
      if r.Ok? {
        assert Valid(r.value);
      }
    }
  }

  /** Without an id the answer is fixed before the tables are looked at. */
  lemma MissingIdNeedsNoStore(req: UpdateRequest, db1: Db, db2: Db)
    requires !IdGiven(req.usuarioId)
    ensures Update(req, db1).response == Update(req, db2).response
              == Response(400, Message(IdRequired))
  {
  }

  /** The answer to an update never carries the password: two updates that differ
      only in the new password answer alike. */
  lemma UpdateAnswerIgnoresPassword(req: UpdateRequest, s1: Option<string>, s2: Option<string>, db: Db)
    requires SenhaOk(s1) && SenhaOk(s2)
    ensures Update(req.(senha := s1), db).response == Update(req.(senha := s2), db).response
  {
  }

  /** `getById`: an empty path parameter is a 400; a parameter `parseInt` cannot
      read is rejected by Prisma (500); otherwise the professor, without password, or 404. */
  function GetById(param: string, db: Db): (r: Response)
    ensures param == "" ==> r == Response(400, Message(IdRequired))
    ensures r.status == 200 <==>
      param != "" && ParseInt(param).Some?
      && ParseInt(param).value in db.usuarios && db.usuarios[ParseInt(param).value].tipo == Professor
    ensures r.status == 200 ==> r.body == User(WithoutPassword(db, ParseInt(param).value, Professor))
    ensures param != "" && ParseInt(param).Some? && r.status != 200 ==> r == Response(404, Message(NotFound))
    ensures param != "" && ParseInt(param).None? ==> r == Response(500, Message(LookupFailed))
  {
    if param == "" then Response(400, Message(IdRequired))
    else match ParseInt(param)
      case None => Response(500, Message(LookupFailed))
      case Some(id) =>
        match FindFirst(db, id, Professor)
        case None => Response(404, Message(NotFound))
        case Some(v) => Response(200, User(v))
  }

  /** What `getById` returns does not depend on the stored password. */
  lemma GetByIdIgnoresPassword(param: string, db: Db, id: int, s: Secret)
    requires id in db.usuarios
    ensures GetById(param, WithPassword(db, id, s)) == GetById(param, db)
  {
    if param != "" && ParseInt(param).Some? {
      var k := ParseInt(param).value;
      if k in db.usuarios && db.usuarios[k].tipo == Professor {
        if k == id {
          WithoutPasswordIgnoresSenha(db, id, Professor, s);
        }
      }
    }
  }

  /** `delete` as written: `professor_has_Disciplina` rows, then the `Professor`
      row, then the user, each a separate statement, so a failure leaves the
      earlier steps applied. With the id left out, the first filter is empty and
      every `professor_has_Disciplina` row goes. */
  function Delete(usuarioId: Option<int>, db: Db): (o: Outcome)
    ensures o.db.lecionadas == DeleteMany(db.lecionadas, usuarioId)
    ensures o.db.alunos == db.alunos && o.db.matriculas == db.matriculas
    ensures o.response.status == 200 || o.response == Response(500, Message(DeleteFailed))
    ensures o.response.status == 200 <==>
      usuarioId.Some? && usuarioId.value in db.professores
      && usuarioId.value in db.usuarios && usuarioId.value !in db.alunos
    ensures o.response.status == 200 ==>
      && o.response.body == Message(DeletedMessage)
      && o.db.professores == db.professores - {usuarioId.value}
      && o.db.usuarios == db.usuarios - {usuarioId.value}
    ensures o.response.status == 500 ==>
      && o.db.usuarios == db.usuarios
      && (o.db.professores == db.professores
          || (usuarioId.Some? && o.db.professores == db.professores - {usuarioId.value}))
    ensures Valid(db) ==> (o.response.status == 200 <==> usuarioId.Some? && usuarioId.value in db.professores)
  {
    var afterLinks := db.(lecionadas := DeleteMany(db.lecionadas, usuarioId));
    if usuarioId.None? then Outcome(Response(500, Message(DeleteFailed)), afterLinks)
    else
      match DeleteProfessorRow(afterLinks, usuarioId.value)
      case Err(_) => Outcome(Response(500, Message(DeleteFailed)), afterLinks)
      case Ok(afterProfessor) =>
        match DeleteUsuarioRow(afterProfessor, usuarioId.value)
        case Err(_) => Outcome(Response(500, Message(DeleteFailed)), afterProfessor)
        case Ok(afterUsuario) => Outcome(Response(200, Message(DeletedMessage)), afterUsuario)
  }

  /** Deleting an existing professor succeeds, removes exactly its
      `professor_has_Disciplina` rows, its `Professor` row and its user, and keeps
      the tables consistent. */
  lemma DeleteCascades(id: int, db: Db)
    requires Valid(db) && id in db.professores
    ensures var o := Delete(Some(id), db);
      && o.response == Response(200, Message(DeletedMessage))
      && o.db.usuarios == db.usuarios - {id}
      && o.db.professores == db.professores - {id}
      && (forall l :: l in o.db.lecionadas <==> l in db.lecionadas && db.lecionadas[l] != id)
      && o.db.alunos == db.alunos && o.db.matriculas == db.matriculas
      && Valid(o.db)
  {
    var a := db.(lecionadas := DeleteMany(db.lecionadas, Some(id)));
    assert DeleteProfessorRow(a, id).Ok?;
    var b := a.(professores := a.professores - {id});
    assert id !in db.alunos;
    assert DeleteUsuarioRow(b, id).Ok?;
  }

  /** The order matters: removing the `Professor` row while a
      `professor_has_Disciplina` row still refers to it is refused by the foreign key. */
  lemma ProfessorRowBeforeLinksFails(id: int, l: int, db: Db)
    requires l in db.lecionadas && db.lecionadas[l] == id
    ensures DeleteProfessorRow(db, id).Err?
  {
  }

  /** The discrepancy of `Delete`: a request without `usuarioId` answers 500 yet
      has already removed every professor's `professor_has_Disciplina` rows. */
  lemma DeleteWithoutIdWipesLinks(db: Db)
    ensures Delete(None, db).response.status == 500
    ensures Delete(None, db).db.lecionadas == map[]
  {
  }

  /** `delete` with the id checked first, as `update` does: a request without an id
      changes nothing, and no request removes another professor's link rows. */
  function DeleteChecked(usuarioId: Option<int>, db: Db): (o: Outcome)
    ensures !IdGiven(usuarioId) ==> o == Outcome(Response(400, Message(IdRequired)), db)
    ensures forall l :: l in db.lecionadas && (usuarioId.None? || db.lecionadas[l] != usuarioId.value)
              ==> l in o.db.lecionadas
  {
    if !IdGiven(usuarioId) then Outcome(Response(400, Message(IdRequired)), db)
    else Delete(usuarioId, db)
  }
}
