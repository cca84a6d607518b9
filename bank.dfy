/** The question bank held by the page: the topic filter, deletion, the AI
    rewrite of one question, the checks and the random draw before an exam is
    exported, and the state the page keeps between those actions. */
module Bank {
  import opened Wrappers
  import opened Strings
  import opened Questions
  import Csv
  import ExamPdf

  /** The filter test: the lower-cased term occurs in the lower-cased `tema`,
      when the question has one, or in the lower-cased `pregunta`. */
  predicate Matches(q: Question, term: string)
    requires q.WellFormed()
  {
    var t := Lower(term);
    (q.Tema().Some? && Contains(Lower(q.Tema().value), t)) || Contains(Lower(q.Pregunta()), t)
  }

  /** `bank.filter(q => Matches(q, term))`. */
  function Matching(bank: seq<Question>, term: string): (r: seq<Question>)
    requires AllWellFormed(bank)
    ensures |r| <= |bank| && AllWellFormed(r)
    decreases |bank|
  {
    if bank == [] then []
    else (if Matches(bank[0], term) then [bank[0]] else []) + Matching(bank[1..], term)
  }

  /** The pool an exam is drawn from: the bank itself for an empty term, the
      matching questions otherwise. */
  function Filter(bank: seq<Question>, term: string): (r: seq<Question>)
    requires AllWellFormed(bank)
    ensures |r| <= |bank| && AllWellFormed(r)
    ensures term == "" ==> r == bank
  {
    if term == "" then bank else Matching(bank, term)
  }

  /** A question is in the pool exactly when it is in the bank and matches
      (every question does, for the empty term). */
  lemma {:induction false} FilterMembers(bank: seq<Question>, term: string, q: Question)
    requires AllWellFormed(bank)
    ensures q in Filter(bank, term) <==> q in bank && (term == "" || Matches(q, term))
  {
    if term != "" {
      MatchingMembers(bank, term, q);
    }
  }

  lemma {:induction false} MatchingMembers(bank: seq<Question>, term: string, q: Question)
    requires AllWellFormed(bank)
    ensures q in Matching(bank, term) <==> q in bank && Matches(q, term)
    decreases |bank|
  {
    if bank != [] {
      MatchingMembers(bank[1..], term, q);
      assert bank == [bank[0]] + bank[1..];
      assert q in bank <==> q == bank[0] || q in bank[1..];
    }
  }

  /** The filter keeps the bank's order: filtering a concatenation is
      concatenating the filtered parts. */
  lemma {:induction false} FilterAppend(a: seq<Question>, b: seq<Question>, term: string)
    requires AllWellFormed(a) && AllWellFormed(b)
    ensures AllWellFormed(a + b)
    ensures Filter(a + b, term) == Filter(a, term) + Filter(b, term)
  {
    assert AllWellFormed(a + b) by {
      forall q | q in a + b ensures q.WellFormed() {
        assert q in a || q in b;
      }
    }
    if term != "" {
      MatchingAppend(a, b, term);
    }
  }

  lemma {:induction false} MatchingAppend(a: seq<Question>, b: seq<Question>, term: string)
    requires AllWellFormed(a + b)
    ensures AllWellFormed(a) && AllWellFormed(b)
    ensures Matching(a + b, term) == Matching(a, term) + Matching(b, term)
    decreases |a|
  {
    assert forall q :: q in a ==> q in a + b;
    assert forall q :: q in b ==> q in a + b;
    if a == [] {
      assert a + b == b;
    } else {
      assert (a + b)[0] == a[0];
      assert (a + b)[1..] == a[1..] + b;
      MatchingAppend(a[1..], b, term);
      var head := if Matches(a[0], term) then [a[0]] else [];
      calc {
        Matching(a + b, term);
        head + Matching(a[1..] + b, term);
        head + (Matching(a[1..], term) + Matching(b, term));
        (head + Matching(a[1..], term)) + Matching(b, term);
      }
    }
  }

  /** Filtering the pool again with the same term changes nothing. */
  lemma {:induction false} FilterIdempotent(bank: seq<Question>, term: string)
    requires AllWellFormed(bank)
    ensures Filter(Filter(bank, term), term) == Filter(bank, term)
  {
    if term != "" {
      MatchingIdempotent(bank, term);
    }
  }

  lemma {:induction false} MatchingIdempotent(bank: seq<Question>, term: string)
    requires AllWellFormed(bank)
    ensures Matching(Matching(bank, term), term) == Matching(bank, term)
    decreases |bank|
  {
    if bank != [] {
      MatchingIdempotent(bank[1..], term);
      var rest := Matching(bank[1..], term);
      if Matches(bank[0], term) {
        assert ([bank[0]] + rest)[0] == bank[0];
        assert ([bank[0]] + rest)[1..] == rest;
      } else {
        assert [] + rest == rest;
      }
    }
  }

  /** `bank.filter(q => q.id !== id)`. */
  function RemoveId(bank: seq<Question>, id: Id): (r: seq<Question>)
    ensures |r| <= |bank|
    decreases |bank|
  {
    if bank == [] then []
    else (if bank[0].id != id then [bank[0]] else []) + RemoveId(bank[1..], id)
  }

  /** After removal no question has the id, and every other question is still
      there. */
  lemma {:induction false} RemoveIdMembers(bank: seq<Question>, id: Id, q: Question)
    ensures q in RemoveId(bank, id) <==> q in bank && q.id != id
    decreases |bank|
  {
    if bank != [] {
      RemoveIdMembers(bank[1..], id, q);
      assert bank == [bank[0]] + bank[1..];
      assert q in bank <==> q == bank[0] || q in bank[1..];
    }
  }

  /** Removal keeps the remaining questions in their order. */
  lemma {:induction false} RemoveIdAppend(a: seq<Question>, b: seq<Question>, id: Id)
    ensures RemoveId(a + b, id) == RemoveId(a, id) + RemoveId(b, id)
    decreases |a|
  {
    if a == [] {
      assert a + b == b;
    } else {
      assert (a + b)[0] == a[0];
      assert (a + b)[1..] == a[1..] + b;
      RemoveIdAppend(a[1..], b, id);
      var head := if a[0].id != id then [a[0]] else [];
      calc {
        RemoveId(a + b, id);
        head + RemoveId(a[1..] + b, id);
        head + (RemoveId(a[1..], id) + RemoveId(b, id));
        (head + RemoveId(a[1..], id)) + RemoveId(b, id);
      }
    }
  }

  /** Removing an id no question carries leaves the bank as it is; in
      particular removing twice is removing once. */
  lemma {:induction false} RemoveIdAbsent(bank: seq<Question>, id: Id)
    requires forall q :: q in bank ==> q.id != id
    ensures RemoveId(bank, id) == bank
    decreases |bank|
  {
    if bank != [] {
      assert bank[0] in bank;
      assert forall q :: q in bank[1..] ==> q in bank;
      RemoveIdAbsent(bank[1..], id);
      assert [bank[0]] + bank[1..] == bank;
    }
  }

  lemma RemoveIdIdempotent(bank: seq<Question>, id: Id)
    ensures RemoveId(RemoveId(bank, id), id) == RemoveId(bank, id)
  {
    forall q | q in RemoveId(bank, id) ensures q.id != id {
      RemoveIdMembers(bank, id, q);
    }
    RemoveIdAbsent(RemoveId(bank, id), id);
  }

  /** `bank.findIndex(q => q.id === id)`: the first position holding the id. */
  function FindIndex(bank: seq<Question>, id: Id): (r: Option<nat>)
    ensures r.Some? ==> r.value < |bank| && bank[r.value].id == id
                        && forall j :: 0 <= j < r.value ==> bank[j].id != id
    ensures r.None? ==> forall j :: 0 <= j < |bank| ==> bank[j].id != id
    decreases |bank|
  {
    if bank == [] then None
    else if bank[0].id == id then Some(0)
    else match FindIndex(bank[1..], id)
      case None => None
      case Some(i) => Some(i + 1)
  }

  /** `{ ...q, pregunta: text }`. */
  function WithPregunta(q: Question, text: string): (r: Question)
    ensures r.WellFormed() <==> "respuesta" in q.fields
    ensures r.id == q.id && "pregunta" in r.fields && r.fields["pregunta"] == text
    ensures forall k :: k != "pregunta" ==> (k in r.fields <==> k in q.fields)
    ensures forall k :: k != "pregunta" && k in q.fields ==> r.fields[k] == q.fields[k]
  {
    Question(q.id, q.fields["pregunta" := text])
  }

  /** The bank after the rewrite of the question with the given id: nothing
      changes for an unknown id; otherwise the first question with the id gets
      the rewritten `pregunta`, and every other field, every other question,
      the length and the order stay as they were. */
  function Rewritten(bank: seq<Question>, id: Id, rewrite: string -> string): (r: seq<Question>)
    requires AllWellFormed(bank)
    ensures AllWellFormed(r) && |r| == |bank|
    ensures FindIndex(bank, id).None? ==> r == bank
    ensures FindIndex(bank, id).Some? ==>
      var i := FindIndex(bank, id).value;
      r[i].id == id && r[i].Pregunta() == rewrite(bank[i].Pregunta())
      && (forall k :: k != "pregunta" ==> (k in r[i].fields <==> k in bank[i].fields))
      && (forall k :: k != "pregunta" && k in bank[i].fields ==> r[i].fields[k] == bank[i].fields[k])
      && forall j :: 0 <= j < |bank| && j != i ==> r[j] == bank[j]
  {
    match FindIndex(bank, id)
    case None => bank
    case Some(i) =>
      assert bank[i] in bank;
      var r := bank[i := WithPregunta(bank[i], rewrite(bank[i].Pregunta()))];
      assert forall q :: q in r ==> q in bank || q == r[i];
      r
  }

  /** Why exam generation refused to export. */
  datatype GenerateError = EmptyBank | TooFewQuestions(available: nat)

  function ErrorMessage(e: GenerateError): string {
    match e
    case EmptyBank => "Carga un banco de preguntas primero."
    case TooFewQuestions(n) => "Solo hay " + NatToString(n) + " preguntas disponibles para este tema."
  }

  /** The teacher can tell the refusals apart: an empty bank and a short pool
      give different messages, and short pools of different sizes too. */
  lemma ErrorMessagesDistinct(e1: GenerateError, e2: GenerateError)
    requires e1 != e2
    ensures ErrorMessage(e1) != ErrorMessage(e2)
  {
    match (e1, e2)
    case (TooFewQuestions(m), TooFewQuestions(n)) =>
      var a, b := NatToString(m), NatToString(n);
      var p, t := "Solo hay ", " preguntas disponibles para este tema.";
      if p + a + t == p + b + t {
        assert |a| == |b|;
        assert a == (p + a + t)[9..9 + |a|];
        assert b == (p + b + t)[9..9 + |b|];
        NatToStringInjective(m, n);
      }
    case (EmptyBank, TooFewQuestions(n)) =>
      assert ErrorMessage(e2)[0] == 'S';
    case (TooFewQuestions(m), EmptyBank) =>
      assert ErrorMessage(e1)[0] == 'S';
  }

  /** The checks and the draw before export. `shuffled` is the shuffled copy of
      the pool, any reordering of it. Export is refused for an empty bank or a
      pool smaller than the requested count; otherwise the exam holds exactly
      the requested number of questions, each taken from the pool, none more
      often than the pool holds it. */
  function PrepareExam(bank: seq<Question>, config: ExamConfig, shuffled: seq<Question>, date: string)
    : (r: Result<GeneratedExam, GenerateError>)
    requires AllWellFormed(bank)
    requires multiset(shuffled) == multiset(Filter(bank, config.tema))
    ensures r.Success? <==> bank != [] && config.cantidadPreguntas <= |Filter(bank, config.tema)|
    ensures r == Failure(EmptyBank) <==> bank == []
    ensures r == Failure(TooFewQuestions(|Filter(bank, config.tema)|))
            <==> bank != [] && |Filter(bank, config.tema)| < config.cantidadPreguntas
    ensures r.Success? ==>
      r.value.config == config && r.value.date == date
      && |r.value.questions| == config.cantidadPreguntas
      && multiset(r.value.questions) <= multiset(Filter(bank, config.tema))
      && AllWellFormed(r.value.questions)
  {
    if |bank| == 0 then
      Failure(EmptyBank)
    else
      var pool := Filter(bank, config.tema);
      var n := config.cantidadPreguntas;
      if |pool| < n then
        Failure(TooFewQuestions(|pool|))
      else
        assert |shuffled| == |multiset(shuffled)| == |multiset(pool)| == |pool|;
        var selected := shuffled[..n];
        assert shuffled == selected + shuffled[n..];
        assert forall q :: q in selected ==> q in multiset(pool);
        Success(GeneratedExam(config, selected, date))
  }

  /** The upper end of the question-count slider: the pool size, 20 when the
      pool is empty, and never more than 50. */
  function SliderMax(available: nat): (r: nat)
    ensures 1 <= r <= 50
    ensures available > 0 ==> r <= available
    ensures available == 0 ==> r == 20
    ensures 0 < available <= 50 ==> r == available
    ensures available > 50 ==> r == 50
  {
    var n := if available == 0 then 20 else available;
    if n < 50 then n else 50
  }

  /** The state the page keeps: the bank, the id whose rewrite is in flight,
      and the error shown to the teacher. Each action replaces these slots. */
  class QuestionBank {
    var questions: seq<Question>
    var improving: Option<string>
    var error: Option<string>

    ghost predicate Valid()
      reads this
    {
      AllWellFormed(questions)
    }

    /** `!!isImproving`: the rewrite buttons are disabled while the mark is
        set to a non-empty text. */
    predicate RewriteLocked()
      reads this
    {
      improving.Some? && improving.value != ""
    }

    /** An empty bank, nothing in flight, no error. */
    constructor ()
      ensures Valid() && questions == [] && improving == None && error == None
    {
      questions := [];
      improving := None;
      error := None;
    }

    /** File upload, from the decoded text on: the error is cleared, then
        either the parsed records replace the whole bank, or the bank is left
        as it was and the error is the missing-columns message. */
    method LoadCsv(text: string)
      requires Valid()
      modifies this`questions, this`error
      ensures Valid()
      ensures match Csv.Ingest(text)
        case Success(qs) => questions == qs && error == None
        case Failure(msg) => questions == old(questions) && error == Some(msg)
    {
      error := None;
      var parsed := Csv.ParseCsv(text);
      match parsed
      case Success(qs) =>
        questions := qs;
      case Failure(msg) =>
        error := Some(msg);
    }

    /** The part of the rewrite before the call: look the id up, and when it
        is found mark its text as in flight. The mark locks the rewrite
        buttons unless the id is the empty text. */
    method BeginImprove(id: Id) returns (index: Option<nat>)
      modifies this`improving
      ensures index == FindIndex(questions, id)
      ensures improving == if index.Some? then Some(IdText(id)) else old(improving)
      ensures index.Some? ==> (RewriteLocked() <==> id != Str(""))
    {
      index := FindIndex(questions, id);
      if index.Some? {
        improving := Some(IdText(id));
      }
    }

    /** The part after the call: a copy of the bank with the rewritten
        `pregunta` at the found position replaces the bank, and nothing is in
        flight any more. */
    method FinishImprove(i: nat, improved: string)
      requires Valid() && i < |questions|
      modifies this`questions, this`improving
      ensures Valid()
      ensures questions == old(questions)[i := WithPregunta(old(questions)[i], improved)]
      ensures improving == None
    {
      assert questions[i] in questions;
      var copy := questions;
      copy := copy[i := WithPregunta(copy[i], improved)];
      assert forall q :: q in copy ==> q in questions || q == copy[i];
      questions := copy;
      improving := None;
    }

    /** The AI rewrite of one question, taken as one step: `rewrite` stands for
        the external service. */
    method Improve(id: Id, rewrite: string -> string)
      requires Valid()
      modifies this`questions, this`improving
      ensures Valid()
      ensures questions == Rewritten(old(questions), id, rewrite)
      ensures improving == if FindIndex(old(questions), id).Some? then None else old(improving)
    {
      var index := BeginImprove(id);
      if index.Some? {
        assert questions[index.value] in questions;
        var improved := rewrite(questions[index.value].Pregunta());
        FinishImprove(index.value, improved);
      }
    }

    /** Deleting every question with the id. */
    method Remove(id: Id)
      requires Valid()
      modifies this`questions
      ensures Valid()
      ensures questions == RemoveId(old(questions), id)
    {
      forall q | q in RemoveId(questions, id) ensures q.WellFormed() {
        RemoveIdMembers(questions, id, q);
      }
      questions := RemoveId(questions, id);
    }

    /** Emptying the bank. */
    method Clear()
      modifies this`questions
      ensures Valid() && questions == []
    {
      questions := [];
    }

    /** Exam export: the checks, the draw from a shuffled copy of the pool
        (any reordering of it), and the document. On a refused export the
        error says why and no document is produced; the bank itself is never
        touched. */
    method GeneratePdf(config: ExamConfig, date: string, wrap: (string, nat) -> ExamPdf.LineCount)
      returns (outcome: Result<GeneratedExam, GenerateError>, doc: Option<ExamPdf.Document>)
      requires Valid()
      modifies this`error
      ensures outcome.Failure? <==> questions == [] || |Filter(questions, config.tema)| < config.cantidadPreguntas
      ensures outcome.Failure? ==>
        doc == None && error == Some(ErrorMessage(outcome.error))
        && (outcome.error == EmptyBank <==> questions == [])
        && (questions != [] ==> outcome.error == TooFewQuestions(|Filter(questions, config.tema)|))
      ensures outcome.Success? ==>
        error == old(error)
        && outcome.value.config == config && outcome.value.date == date
        && |outcome.value.questions| == config.cantidadPreguntas
        && multiset(outcome.value.questions) <= multiset(Filter(questions, config.tema))
        && AllWellFormed(outcome.value.questions)
        && doc == Some(ExamPdf.Render(outcome.value, wrap))
    {
      var pool := Filter(questions, config.tema);
      var shuffled :| multiset(shuffled) == multiset(pool);
      outcome := PrepareExam(questions, config, shuffled, date);
      if outcome.Failure? {
        error := Some(ErrorMessage(outcome.error));
        doc := None;
      } else {
        var d := ExamPdf.GenerateExamPdf(outcome.value, wrap);
        doc := Some(d);
      }
    }
  }
}
