/** The two kinds of user of the school app (`Usuario.tipo`). */
module Roles {
  datatype Tipo = Aluno | Professor {

    /** The string the backend stores and the front end keeps in `userType`. */
    function Name(): (s: string)
      ensures s == "ALUNO" || s == "PROFESSOR"
    {
      match this
      case Aluno => "ALUNO"
      case Professor => "PROFESSOR"
    }
  }
}
