/** The tables behind the student and professor controllers, the Prisma calls those
    controllers issue, and the error code each call fails with. Every call is a
    single statement: it either takes effect completely or fails and leaves the
    tables as they were. */
module SchoolDb {
  import opened Wrappers
  import opened Roles

  /** `bcrypt.hash(plain, 8)`: the stored hash of `plain`, standing for the hash
      without computing it. */
  datatype Secret = Hashed(plain: string)

  datatype Usuario = Usuario(nome: string, email: string, senha: Secret, tipo: Tipo)

  /** `usuarios` by id; `alunos` maps the `usuarioId` of each `Aluno` row to its
      `matricula`; `professores` holds the `usuarioId` of each `Professor` row;
      `matriculas` maps each `MatriculaAluno` id to its `alunoId`; `lecionadas`
      maps each `professor_has_Disciplina` id to its `professorId`. */
  datatype Db = Db(
    usuarios: map<int, Usuario>,
    alunos: map<int, string>,
    professores: set<int>,
    matriculas: map<int, int>,
    lecionadas: map<int, int>)

  /** The constraints assumed of the tables: foreign keys from the profile rows to
      `Usuario` and from the link rows to the profile rows, unique `email` and
      `matricula`, and no user with both an `Aluno` and a `Professor` row. The last
      is kept by the create handlers, which always add a fresh user with one profile
      row; it is not a database constraint. A profile row under a user of the other
      `tipo` is allowed: `create` takes `tipo` from the request body unchecked. */
  ghost predicate Valid(db: Db) {
    && (forall k :: k in db.alunos ==> k in db.usuarios)
    && (forall k :: k in db.professores ==> k in db.usuarios)
    && (forall k :: k in db.alunos ==> k !in db.professores)
    && (forall m :: m in db.matriculas ==> db.matriculas[m] in db.alunos)
    && (forall l :: l in db.lecionadas ==> db.lecionadas[l] in db.professores)
    && (forall a, b :: a in db.usuarios && b in db.usuarios && a != b ==>
          db.usuarios[a].email != db.usuarios[b].email)
    && (forall a, b :: a in db.alunos && b in db.alunos && a != b ==> db.alunos[a] != db.alunos[b])
  }

  /** Prisma's error codes: no record to update or delete, a unique constraint,
      a foreign key constraint. */
  const RecordNotFound := "P2025"
  const UniqueViolation := "P2002"
  const ForeignKeyViolation := "P2003"

  /** The profile row a query `include`s. */
  datatype ProfileRow = AlunoRow(matricula: string) | ProfessorRow

  /** A user as the controllers send it back: every column but `senha`, plus the
      included profile row, if any. */
  datatype UsuarioView = UsuarioView(
    id: int, nome: string, email: string, tipo: Tipo, profile: Option<ProfileRow>)

  datatype Body = Message(text: string) | User(user: UsuarioView) | Updated(text: string, user: UsuarioView)

  datatype Response = Response(status: int, body: Body)

  datatype Outcome = Outcome(response: Response, db: Db)

  /** The profile row of user `id` for a query that includes the relation of kind `tipo`. */
  function ProfileOf(db: Db, id: int, tipo: Tipo): Option<ProfileRow> {
    match tipo
    case Aluno => if id in db.alunos then Some(AlunoRow(db.alunos[id])) else None
    case Professor => if id in db.professores then Some(ProfessorRow) else None
  }

  /** The destructuring `const { senha, ...userWithoutPassword } = usuario`. */
  function WithoutPassword(db: Db, id: int, tipo: Tipo): (v: UsuarioView)
    requires id in db.usuarios
    ensures v.id == id && v.nome == db.usuarios[id].nome && v.email == db.usuarios[id].email
    ensures v.tipo == db.usuarios[id].tipo && v.profile == ProfileOf(db, id, tipo)
  {
    var u := db.usuarios[id];
    UsuarioView(id, u.nome, u.email, u.tipo, ProfileOf(db, id, tipo))
  }

  /** The same tables with user `id`'s stored password replaced. */
  function WithPassword(db: Db, id: int, s: Secret): Db
    requires id in db.usuarios
  {
    db.(usuarios := db.usuarios[id := db.usuarios[id].(senha := s)])
  }

  /** What is returned of a user does not depend on the stored password. */
  lemma WithoutPasswordIgnoresSenha(db: Db, id: int, tipo: Tipo, s: Secret)
    requires id in db.usuarios
    ensures WithoutPassword(WithPassword(db, id, s), id, tipo) == WithoutPassword(db, id, tipo)
  {
  }

  /** `usuario.findFirst({ where: { id, tipo }, include })`. */
  function FindFirst(db: Db, id: int, tipo: Tipo): (r: Option<UsuarioView>)
    ensures r.Some? <==> id in db.usuarios && db.usuarios[id].tipo == tipo
    ensures r.Some? ==> r.value == WithoutPassword(db, id, tipo)
  {
    if id in db.usuarios && db.usuarios[id].tipo == tipo then Some(WithoutPassword(db, id, tipo))
    else None
  }

  /** The `data` of a user update: a column is written only when present. */
  datatype UsuarioData = UsuarioData(nome: Option<string>, email: Option<string>, senha: Option<Secret>)

  function ApplyData(u: Usuario, d: UsuarioData): (r: Usuario)
    ensures r.tipo == u.tipo
    ensures r.nome == d.nome.GetOr(u.nome) && r.email == d.email.GetOr(u.email)
    ensures r.senha == d.senha.GetOr(u.senha)
  {
    Usuario(d.nome.GetOr(u.nome), d.email.GetOr(u.email), d.senha.GetOr(u.senha), u.tipo)
  }

  predicate EmailTaken(db: Db, id: int, email: string) {
    exists k :: k in db.usuarios && k != id && db.usuarios[k].email == email
  }

  predicate MatriculaTaken(db: Db, id: int, matricula: string) {
    exists k :: k in db.alunos && k != id && db.alunos[k] == matricula
  }

  /** `usuario.update({ where: { id, tipo }, data })`, with the nested
      `aluno: { update: { matricula } }` when `matricula` is given. No matching
      user, or no `Aluno` row for the nested update, is P2025; a duplicate email
      or matricula is P2002; otherwise exactly that user (and its `Aluno` row) change. */
  function UpdateUsuario(db: Db, id: int, tipo: Tipo, d: UsuarioData, matricula: Option<string>)
    : (r: Result<Db, string>)
    ensures r.Err? ==> r.error == RecordNotFound || r.error == UniqueViolation
    ensures (r.Ok? || r.error == UniqueViolation) <==>
      id in db.usuarios && db.usuarios[id].tipo == tipo && (matricula.Some? ==> id in db.alunos)
    ensures r.Ok? <==>
      && id in db.usuarios && db.usuarios[id].tipo == tipo && (matricula.Some? ==> id in db.alunos)
      && !EmailTaken(db, id, ApplyData(db.usuarios[id], d).email)
      && !(matricula.Some? && MatriculaTaken(db, id, matricula.value))
    ensures r.Ok? ==>
      && r.value.usuarios == db.usuarios[id := ApplyData(db.usuarios[id], d)]
      && r.value.alunos == (if matricula.Some? then db.alunos[id := matricula.value] else db.alunos)
      && r.value.professores == db.professores
      && r.value.matriculas == db.matriculas && r.value.lecionadas == db.lecionadas
    ensures r.Ok? && Valid(db) ==> Valid(r.value)
  {
    if id !in db.usuarios || db.usuarios[id].tipo != tipo then Err(RecordNotFound)
    else if matricula.Some? && id !in db.alunos then Err(RecordNotFound)
    else
      var u := ApplyData(db.usuarios[id], d);
      if EmailTaken(db, id, u.email) then Err(UniqueViolation)
      else if matricula.Some? && MatriculaTaken(db, id, matricula.value) then Err(UniqueViolation)
      else
        Ok(db.(usuarios := db.usuarios[id := u],
               alunos := if matricula.Some? then db.alunos[id := matricula.value] else db.alunos))
  }

  /** `deleteMany({ where: { key: id } })` over a link table. Prisma reads an
      `undefined` filter value as no filter at all, so `None` empties the table. */
  function DeleteMany(rows: map<int, int>, id: Option<int>): (r: map<int, int>)
    ensures forall k :: k in r <==> k in rows && id.Some? && rows[k] != id.value
    ensures forall k :: k in r ==> r[k] == rows[k]
  {
    map k | k in rows && id.Some? && rows[k] != id.value :: rows[k]
  }

  /** `aluno.delete({ where: { usuarioId } })`: P2025 without such a row, P2003 while
      an enrolment still refers to it. */
  function DeleteAlunoRow(db: Db, id: int): (r: Result<Db, string>)
    ensures r.Ok? <==> id in db.alunos && (forall m :: m in db.matriculas ==> db.matriculas[m] != id)
    ensures r.Ok? ==> r.value == db.(alunos := db.alunos - {id})
  {
    if id !in db.alunos then Err(RecordNotFound)
    else if exists m :: m in db.matriculas && db.matriculas[m] == id then Err(ForeignKeyViolation)
    else Ok(db.(alunos := db.alunos - {id}))
  }

  /** `professor.delete({ where: { usuarioId } })`: P2025 without such a row, P2003
      while a `professor_has_Disciplina` row still refers to it. */
  function DeleteProfessorRow(db: Db, id: int): (r: Result<Db, string>)
    ensures r.Ok? <==> id in db.professores && (forall l :: l in db.lecionadas ==> db.lecionadas[l] != id)
    ensures r.Ok? ==> r.value == db.(professores := db.professores - {id})
  {
    if id !in db.professores then Err(RecordNotFound)
    else if exists l :: l in db.lecionadas && db.lecionadas[l] == id then Err(ForeignKeyViolation)
    else Ok(db.(professores := db.professores - {id}))
  }

  /** `usuario.delete({ where: { id } })`: P2025 without such a user, P2003 while a
      profile row still refers to it. */
  function DeleteUsuarioRow(db: Db, id: int): (r: Result<Db, string>)
    ensures r.Ok? <==> id in db.usuarios && id !in db.alunos && id !in db.professores
    ensures r.Ok? ==> r.value == db.(usuarios := db.usuarios - {id})
  {
    if id !in db.usuarios then Err(RecordNotFound)
    else if id in db.alunos || id in db.professores then Err(ForeignKeyViolation)
    else Ok(db.(usuarios := db.usuarios - {id}))
  }
}
