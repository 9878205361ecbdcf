/** The notification type vocabulary of the app and the colour and icon shown for
    a notification's type. */
module NotificationTypes {
  import opened Wrappers

  /** The types a create or update request may name. */
  datatype Kind = Lembrete | Comunicado | Aviso | Urgente

  function Name(k: Kind): (s: string)
    ensures s in {"lembrete", "comunicado", "aviso", "urgente"}
  {
    match k
    case Lembrete => "lembrete"
    case Comunicado => "comunicado"
    case Aviso => "aviso"
    case Urgente => "urgente"
  }

  function Parse(s: string): (k: Option<Kind>)
    ensures k.Some? ==> Name(k.value) == s
  {
    if s == "lembrete" then Some(Lembrete)
    else if s == "comunicado" then Some(Comunicado)
    else if s == "aviso" then Some(Aviso)
    else if s == "urgente" then Some(Urgente)
    else None
  }

  /** The vocabulary is exactly the four names, each naming one type. */
  lemma VocabularyRoundTrip(k: Kind, s: string)
    ensures Parse(Name(k)) == Some(k)
    ensures Parse(s).Some? <==> s in {"lembrete", "comunicado", "aviso", "urgente"}
  {
  }

  const UrgenteColor := "#dc3545"
  const ComunicadoColor := "#007bff"
  const LembreteColor := "#ffc107"
  const AvisoColor := "#28a745"

  /** `getTypeColor`: any text that is not one of the three other types, "aviso"
      included, gets the aviso green. */
  function TypeColor(t: string): (c: string)
    ensures c == UrgenteColor <==> t == "urgente"
    ensures c == ComunicadoColor <==> t == "comunicado"
    ensures c == LembreteColor <==> t == "lembrete"
    ensures c == AvisoColor <==> t !in {"urgente", "comunicado", "lembrete"}
  {
    match t
    case "urgente" => UrgenteColor
    case "comunicado" => ComunicadoColor
    case "lembrete" => LembreteColor
    case _ => AvisoColor
  }

  const UrgenteIcon := "\U{1F6A8}"
  const ComunicadoIcon := "\U{1F4E2}"
  const LembreteIcon := "\U{23F0}"
  const AvisoIcon := "\U{1F4DD}"

  /** `getTypeIcon`, with the same fall-through to the aviso icon. */
  function TypeIcon(t: string): (i: string)
    ensures i == UrgenteIcon <==> t == "urgente"
    ensures i == ComunicadoIcon <==> t == "comunicado"
    ensures i == LembreteIcon <==> t == "lembrete"
    ensures i == AvisoIcon <==> t !in {"urgente", "comunicado", "lembrete"}
  {
    match t
    case "urgente" => UrgenteIcon
    case "comunicado" => ComunicadoIcon
    case "lembrete" => LembreteIcon
    case _ => AvisoIcon
  }

  /** The four types are told apart by colour and by icon alike, and a text outside
      the vocabulary looks like an aviso. */
  lemma KindsLookDistinct(k: Kind, l: Kind, t: string)
    ensures TypeColor(Name(k)) == TypeColor(Name(l)) <==> k == l
    ensures TypeIcon(Name(k)) == TypeIcon(Name(l)) <==> k == l
    ensures Parse(t).None? ==> TypeColor(t) == TypeColor(Name(Aviso)) && TypeIcon(t) == TypeIcon(Name(Aviso))
  {
  }
}
