/** The records the question bank and the exam generator exchange (the
    interfaces `Question`, `ExamConfig` and `GeneratedExam`). */
module Questions {
  import opened Wrappers
  import opened Strings

  /** A question's identifier, `string | number`. Ingest gives each record the
      0-based number of its data line, unless a column is itself headed `id`:
      its text then overwrites the number. */
  datatype Id = Num(n: nat) | Str(s: string)

  /** `id.toString()`: a number in decimal, a text as it is. Only the empty
      text renders as the empty string. */
  function IdText(id: Id): (r: string)
    ensures r == "" <==> id == Str("")
    ensures id.Num? ==> AllDigits(r)
  {
    match id
    case Num(n) => NatToString(n)
    case Str(s) => s
  }

  /** A question as ingest builds it: its identifier and one entry per header of
      the file (a header repeated in the file is one key). */
  datatype Question = Question(id: Id, fields: map<string, string>) {

    /** The two columns ingest insists on are present. */
    predicate WellFormed() {
      "pregunta" in fields && "respuesta" in fields
    }

    function Pregunta(): string
      requires WellFormed()
    {
      fields["pregunta"]
    }

    function Respuesta(): string
      requires WellFormed()
    {
      fields["respuesta"]
    }

    /** `q.tema`, which is `undefined` when the file has no `tema` column. */
    function Tema(): Option<string> {
      if "tema" in fields then Some(fields["tema"]) else None
    }
  }

  predicate AllWellFormed(qs: seq<Question>) {
    forall q :: q in qs ==> q.WellFormed()
  }

  /** The exam settings the teacher fills in; `tema` doubles as the filter term. */
  datatype ExamConfig = ExamConfig(
    asignatura: string,
    curso: string,
    tema: string,
    cantidadPreguntas: nat,
    nombreProfesor: string,
    nombreInstitucion: string)

  /** One exam, built for a single export: the settings, the chosen questions in
      exam order and the date text. */
  datatype GeneratedExam = GeneratedExam(config: ExamConfig, questions: seq<Question>, date: string)
}
