/** The field checks and the update payload that the student and the professor
    controllers write out identically in their `update` handlers. */
module ProfileRules {
  import opened Wrappers
  import opened Text
  import opened SchoolDb

  const IdRequired := "ID do usuário é obrigatório"
  const NomeLength := "Nome deve ter entre 2 e 100 caracteres"
  const EmailInvalid := "Email inválido"
  const SenhaShort := "Senha deve ter pelo menos 6 caracteres"
  const UpdatedMessage := "Dados atualizados com sucesso"

  /** `!usuarioId` is false: the id is present and not 0. */
  predicate IdGiven(id: Option<int>) {
    id.Some? && id.value != 0
  }

  /** A given name is 2 to 100 characters long once trimmed. */
  predicate NomeOk(nome: Option<string>) {
    Truthy(nome) ==> 2 <= JsLength(Trim(nome.value)) <= 100
  }

  /** A given email matches `^[^\s@]+@[^\s@]+\.[^\s@]+$`. */
  predicate EmailOk(email: Option<string>) {
    Truthy(email) ==> IsEmail(email.value)
  }

  /** A given password is at least 6 characters long (untrimmed). */
  predicate SenhaOk(senha: Option<string>) {
    Truthy(senha) ==> JsLength(senha.value) >= 6
  }

  /** `if (x) updateData.x = ...`: only the given fields, name and email trimmed,
      the password hashed. */
  function UserData(nome: Option<string>, email: Option<string>, senha: Option<string>): (d: UsuarioData)
    ensures d.nome.Some? <==> Truthy(nome)
    ensures d.email.Some? <==> Truthy(email)
    ensures d.senha.Some? <==> Truthy(senha)
    ensures d.nome.Some? ==> d.nome.value == Trim(nome.value)
    ensures d.email.Some? ==> d.email.value == Trim(email.value)
    ensures d.senha.Some? ==> d.senha.value == Hashed(senha.value)
  {
    UsuarioData(
      if Truthy(nome) then Some(Trim(nome.value)) else None,
      if Truthy(email) then Some(Trim(email.value)) else None,
      if Truthy(senha) then Some(Hashed(senha.value)) else None)
  }

  /** A name that passed its check is stored at its checked length. */
  lemma StoredNomeInBounds(nome: Option<string>, u: Usuario)
    requires NomeOk(nome)
    ensures var stored := ApplyData(u, UserData(nome, None, None)).nome;
      Truthy(nome) ==> 2 <= JsLength(stored) <= 100 && Trim(stored) == stored
  {
    if Truthy(nome) {
      TrimIdempotent(nome.value);
    }
  }
}
