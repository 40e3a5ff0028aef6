/**
 The six clock actions an employee can submit, the type codes under which
 they are stored, and the Spanish labels the activity list shows for them
 (`translateEntryType` in src/components/EmployeeView.jsx).
 */
module EntryTypes {
  import opened Options

  datatype EntryType =
    | Entrada          // clock in
    | Salida           // clock out
    | DescansoInicio   // break starts
    | DescansoFin      // break ends
    | ComidaInicio     // lunch starts
    | ComidaFin        // lunch ends
  {
    /** The code stored in the `type` column and passed by the action buttons. */
    function Code(): string {
      match this
      case Entrada => "ENTRADA"
      case Salida => "SALIDA"
      case DescansoInicio => "DESCANSO_INICIO"
      case DescansoFin => "DESCANSO_FIN"
      case ComidaInicio => "COMIDA_INICIO"
      case ComidaFin => "COMIDA_FIN"
    }

    /** The fixed label of the translation table. */
    function Label(): string {
      match this
      case Entrada => "Entrada"
      case Salida => "Salida"
      case DescansoInicio => "Inicio de Descanso"
      case DescansoFin => "Fin de Descanso"
      case ComidaInicio => "Inicio de Comida"
      case ComidaFin => "Fin de Comida"
    }
  }

  /** Recognises a stored type code; any other string is not a clock action. */
  function Parse(s: string): (r: Option<EntryType>)
    ensures r.Some? ==> r.value.Code() == s
    ensures forall t: EntryType :: t.Code() == s ==> r == Some(t)
  {
    if s == "ENTRADA" then Some(Entrada)
    else if s == "SALIDA" then Some(Salida)
    else if s == "DESCANSO_INICIO" then Some(DescansoInicio)
    else if s == "DESCANSO_FIN" then Some(DescansoFin)
    else if s == "COMIDA_INICIO" then Some(ComidaInicio)
    else if s == "COMIDA_FIN" then Some(ComidaFin)
    else None
  }

  /**
   The display text of a stored type: the table's label for one of the six
   codes, the string itself for anything else.
   */
  function TranslateEntryType(s: string): (r: string)
    ensures forall t: EntryType :: t.Code() == s ==> r == t.Label()
    ensures (forall t: EntryType :: t.Code() != s) ==> r == s
    ensures r == s <==> Parse(s).None?
  {
    match Parse(s)
    case Some(t) => t.Label()
    case None => s
  }

  /**
   No two clock actions share a code or a label, and no label is itself a
   code, so the translation never merges two actions and never leaves a
   known code untranslated.
   */
  lemma CodesAndLabelsDistinct(t: EntryType, u: EntryType)
    ensures t != u ==> t.Code() != u.Code() && t.Label() != u.Label()
    ensures t.Label() != u.Code()
  {
  }
}
