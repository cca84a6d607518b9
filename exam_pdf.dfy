/** The exported exam document: the header block, the questions filled
    greedily from top to bottom page by page, the page numbers of the question
    pages, and the answer key on pages of its own. Only what decides positions,
    page numbers and text is modelled; the PDF library's drawing is not. */
module ExamPdf {
  import opened Wrappers
  import opened Strings
  import opened Questions

  /** How many lines the PDF library wraps a text into at a given width; a
      text always takes at least one line. */
  type LineCount = n: nat | n >= 1 witness 1

  const QuestionWidth: nat := 180
  const AnswerWidth: nat := 175

  /** The vertical cursor: a 1-based page number and a y-coordinate (in the
      page's units, growing downwards). */
  datatype Cursor = Cursor(page: nat, y: nat)

  /** The page-break rule of one greedy fill: an optional early break when the
      cursor is already below `breakAbove`, a bottom limit no item may cross,
      and the y-coordinate a new page starts at. */
  datatype Policy = Policy(breakAbove: Option<nat>, bottom: nat, top: nat)

  const QuestionStartY: nat := 62
  const QuestionBreakY: nat := 275
  const QuestionBottom: nat := 285
  const QuestionTopY: nat := 15
  const QuestionFlow := Policy(Some(QuestionBreakY), QuestionBottom, QuestionTopY)

  const AnswerStartY: nat := 25
  const AnswerBottom: nat := 280
  const AnswerTopY: nat := 20
  const AnswerFlow := Policy(None, AnswerBottom, AnswerTopY)

  function QuestionHeight(lines: LineCount): nat {
    5 * lines + 6
  }

  function AnswerHeight(lines: LineCount): nat {
    4 * lines + 4
  }

  /** Where an item of height `h` goes when the cursor is at `c`. A new page is
      begun when the cursor is below the early-break line, and (again) when the
      item would cross the bottom; the item is then drawn at the top of the
      last page begun. An item that fits nowhere is drawn at the top and runs
      over the bottom: the fill never loops. */
  function Slot(p: Policy, c: Cursor, h: nat): Cursor {
    var c1 := if p.breakAbove.Some? && c.y > p.breakAbove.value then Cursor(c.page + 1, p.top) else c;
    if c1.y + h > p.bottom then Cursor(c1.page + 1, p.top) else c1
  }

  /** What one placement does: at most two pages are begun; a page is begun
      exactly when the cursor is below the early-break line or the item would
      cross the bottom, and two exactly when both happen even at the top; on
      the same page the item is drawn at the cursor, on a new page at the top;
      and the item either fits or starts at the top of a new page. */
  lemma SlotSpec(p: Policy, c: Cursor, h: nat)
    ensures var s := Slot(p, c, h);
      c.page <= s.page <= c.page + 2
      && (s.page > c.page <==> (p.breakAbove.Some? && c.y > p.breakAbove.value) || c.y + h > p.bottom)
      && (s.page == c.page + 2 <==> p.breakAbove.Some? && c.y > p.breakAbove.value && p.top + h > p.bottom)
      && (s.page == c.page ==> s.y == c.y)
      && (s.page != c.page ==> s.y == p.top)
      && (s.y + h <= p.bottom || (s.y == p.top && s.page > c.page))
      && (c.y >= p.top ==> s.y >= p.top)
      && (p.breakAbove.Some? && p.top <= p.breakAbove.value ==> s.y <= p.breakAbove.value)
  {
  }

  /** The cursor after drawing an item of height `h` at `s`. */
  function After(s: Cursor, h: nat): Cursor {
    Cursor(s.page, s.y + h)
  }

  /** The places of a run of items and the cursor after the last one. */
  datatype Run = Run(slots: seq<Cursor>, end: Cursor)

  /** The greedy fill of items of heights `hs` from the cursor `c`. */
  function Flow(p: Policy, c: Cursor, hs: seq<nat>): (r: Run)
    ensures |r.slots| == |hs|
    ensures c.page <= r.end.page <= c.page + 2 * |hs|
    decreases |hs|
  {
    if hs == [] then Run([], c)
    else
      SlotSpec(p, c, hs[0]);
      var s := Slot(p, c, hs[0]);
      var rest := Flow(p, After(s, hs[0]), hs[1..]);
      Run([s] + rest.slots, rest.end)
  }

  /** The cursor in force when item `k` of a fill is placed. */
  function Before(r: Run, c: Cursor, hs: seq<nat>, k: nat): Cursor
    requires k <= |hs| && |r.slots| == |hs|
  {
    if k == 0 then c else After(r.slots[k - 1], hs[k - 1])
  }

  /** The fill step by step: each item goes where `Slot` puts it from the
      cursor the previous item left, the cursor advances by exactly the item's
      height, and the fill ends where the last item left the cursor. */
  lemma {:induction false} FlowSteps(p: Policy, c: Cursor, hs: seq<nat>, k: nat)
    requires k < |hs|
    ensures var r := Flow(p, c, hs);
      r.slots[k] == Slot(p, Before(r, c, hs, k), hs[k])
    ensures var r := Flow(p, c, hs);
      r.end == Before(r, c, hs, |hs|)
    decreases |hs|
  {
    var r := Flow(p, c, hs);
    var s := Slot(p, c, hs[0]);
    var rest := Flow(p, After(s, hs[0]), hs[1..]);
    assert r.slots[1..] == rest.slots;
    if |hs| == 1 {
      assert r.end == rest.end == After(s, hs[0]);
    } else {
      FlowSteps(p, After(s, hs[0]), hs[1..], |hs| - 2);
      assert r.end == Before(r, c, hs, |hs|);
      if k > 0 {
        FlowSteps(p, After(s, hs[0]), hs[1..], k - 1);
        assert Before(rest, After(s, hs[0]), hs[1..], k - 1) == Before(r, c, hs, k);
      }
    }
  }

  /** Pages only grow along a fill: item `j` before item `k` is on the same or
      an earlier page, and every item is on a page between the start and the
      end page. */
  lemma {:induction false} FlowPagesOrdered(p: Policy, c: Cursor, hs: seq<nat>, j: nat, k: nat)
    requires j <= k < |hs|
    ensures var r := Flow(p, c, hs);
      c.page <= r.slots[j].page <= r.slots[k].page <= r.end.page
    decreases |hs|
  {
    var s := Slot(p, c, hs[0]);
    var rest := Flow(p, After(s, hs[0]), hs[1..]);
    var r := Flow(p, c, hs);
    SlotSpec(p, c, hs[0]);
    assert r.slots[1..] == rest.slots;
    if k == 0 {
      if |hs| > 1 {
        FlowPagesOrdered(p, After(s, hs[0]), hs[1..], 0, 0);
      }
    } else if j == 0 {
      FlowPagesOrdered(p, After(s, hs[0]), hs[1..], 0, k - 1);
    } else {
      FlowPagesOrdered(p, After(s, hs[0]), hs[1..], j - 1, k - 1);
    }
  }

  /** Every item either fits above the bottom limit or, having not fitted, was
      moved to the top of a new page; when the fill starts at or below the top
      line, no item is placed above it. */
  lemma {:induction false} FlowPlacement(p: Policy, c: Cursor, hs: seq<nat>, k: nat)
    requires k < |hs| && c.y >= p.top
    ensures var r := Flow(p, c, hs);
      r.slots[k].y >= p.top
      && (r.slots[k].y + hs[k] <= p.bottom || (r.slots[k].y == p.top && r.slots[k].page > Before(r, c, hs, k).page))
    decreases k
  {
    var r := Flow(p, c, hs);
    FlowSteps(p, c, hs, k);
    SlotSpec(p, Before(r, c, hs, k), hs[k]);
    if k > 0 {
      FlowPlacement(p, c, hs, k - 1);
    }
  }

  /** When every item is at most a page's usable height, nothing crosses the
      bottom limit. */
  lemma FlowFits(p: Policy, c: Cursor, hs: seq<nat>, k: nat)
    requires k < |hs| && c.y >= p.top
    requires forall i :: 0 <= i < |hs| ==> p.top + hs[i] <= p.bottom
    ensures Flow(p, c, hs).slots[k].y + hs[k] <= p.bottom
  {
    FlowPlacement(p, c, hs, k);
  }

  /** A question too tall for any page (more than 270 units) that follows
      another such question leaves a page with nothing on it: the first one ends
      below the early-break line, a page is begun for that, and a second one
      because the item does not fit even at the top. */
  lemma QuestionTallPairSkipsPage(start: Cursor, hs: seq<nat>, k: nat)
    requires 0 < k < |hs| && start.y >= QuestionTopY
    requires hs[k - 1] > QuestionBottom - QuestionTopY && hs[k] > QuestionBottom - QuestionTopY
    ensures var r := Flow(QuestionFlow, start, hs);
      r.slots[k].page == r.slots[k - 1].page + 2
      && forall j :: 0 <= j < |hs| ==> r.slots[j].page != r.slots[k - 1].page + 1
  {
    var r := Flow(QuestionFlow, start, hs);
    FlowSteps(QuestionFlow, start, hs, k);
    FlowPlacement(QuestionFlow, start, hs, k - 1);
    SlotSpec(QuestionFlow, Before(r, start, hs, k), hs[k]);
    forall j | 0 <= j < |hs| ensures r.slots[j].page != r.slots[k - 1].page + 1 {
      if j < k {
        FlowPagesOrdered(QuestionFlow, start, hs, j, k - 1);
      } else {
        FlowPagesOrdered(QuestionFlow, start, hs, k, j);
      }
    }
  }

  /** `${n}. `, the number printed before question and answer n. */
  function Label(n: nat): string {
    NatToString(n) + ". "
  }

  /** Question n as it is wrapped and measured: its number, then its text. */
  function Numbered(n: nat, text: string): string {
    Label(n) + text
  }

  /** `Pág. i / N`. */
  function FooterText(i: nat, n: nat): string {
    "Pág. " + NatToString(i) + " / " + NatToString(n)
  }

  /** Different pages carry different footers. */
  lemma FooterTextsDistinct(i: nat, j: nat, n: nat)
    requires i != j
    ensures FooterText(i, n) != FooterText(j, n)
  {
    if FooterText(i, n) == FooterText(j, n) {
      var a, b, t := NatToString(i), NatToString(j), " / " + NatToString(n);
      assert FooterText(i, n) == "Pág. " + (a + t);
      assert FooterText(j, n) == "Pág. " + (b + t);
      assert |a| == |b|;
      assert a == FooterText(i, n)[5..5 + |a|];
      assert b == FooterText(j, n)[5..5 + |b|];
      NatToStringInjective(i, j);
    }
  }

  /** A piece of text drawn at a place: `prefix` is the number in front and
      `text` the question or answer that follows it. */
  datatype Placed = Placed(page: nat, y: nat, prefix: string, text: string)

  datatype Footer = Footer(page: nat, text: string)

  /** The header block: institution (upper-cased), teacher, date, subject,
      course and topic. */
  datatype Header = Header(
    institution: string, teacher: string, date: string,
    subject: string, course: string, topic: string)

  /** The document as the exporter leaves it: the question pages are
      1..|footers|, the answer key begins on `keyPage`, and `pageCount` is the
      number of pages in all. */
  datatype Document = Document(
    header: Header,
    questions: seq<Placed>,
    footers: seq<Footer>,
    keyPage: nat,
    answers: seq<Placed>,
    pageCount: nat,
    fileName: string)

  /** The institution line: the given name, or "INSTITUCIÓN EDUCATIVA" when it
      is empty, upper-cased. */
  function InstitutionLine(config: ExamConfig): (r: string)
    ensures r != [] && forall i :: 0 <= i < |r| ==> !('a' <= r[i] <= 'z')
    ensures config.nombreInstitucion != "" ==> r == Upper(config.nombreInstitucion)
    ensures config.nombreInstitucion == "" ==> r == "INSTITUCIÓN EDUCATIVA"
  {
    UpperKeepsCapitals("INSTITUCIÓN EDUCATIVA");
    var name := if config.nombreInstitucion == "" then "INSTITUCIÓN EDUCATIVA" else config.nombreInstitucion;
    UpperIdempotent(name);
    Upper(name)
  }

  /** The teacher's name, with a fixed name when none is given. */
  function TeacherName(config: ExamConfig): (r: string)
    ensures r != []
    ensures config.nombreProfesor != "" ==> r == config.nombreProfesor
    ensures config.nombreProfesor == "" ==> r == "Verónica Vila Bordó"
  {
    if config.nombreProfesor == "" then "Verónica Vila Bordó" else config.nombreProfesor
  }

  /** The topic line: the configured topic, else the first question's `tema`,
      else "General"; it is never empty. */
  function TopicLine(config: ExamConfig, qs: seq<Question>): (r: string)
    ensures r != []
    ensures r == config.tema || r == "General" || (|qs| > 0 && qs[0].Tema() == Some(r))
    ensures config.tema != "" ==> r == config.tema
    ensures config.tema == "" && |qs| > 0 && qs[0].Tema().Some? && qs[0].Tema().value != "" ==> r == qs[0].Tema().value
    ensures r == "General" ==> config.tema == "" || config.tema == "General"
  {
    if config.tema != "" then config.tema
    else if |qs| > 0 && qs[0].Tema().Some? && qs[0].Tema().value != "" then qs[0].Tema().value
    else "General"
  }

  function HeaderOf(exam: GeneratedExam): Header {
    Header(InstitutionLine(exam.config), TeacherName(exam.config), exam.date,
           exam.config.asignatura, exam.config.curso, TopicLine(exam.config, exam.questions))
  }

  /** `Examen_<asignatura>_<curso>_<date>.pdf`. */
  function FileName(config: ExamConfig, date: string): string {
    "Examen_" + config.asignatura + "_" + config.curso + "_" + date + ".pdf"
  }

  /** The file name can be read back: when subject, course and date hold no
      underscore, cutting the name before ".pdf" at the underscores gives the
      word "Examen", the subject, the course and the date. */
  lemma FileNameParts(config: ExamConfig, date: string)
    requires '_' !in config.asignatura && '_' !in config.curso && '_' !in date
    ensures var f := FileName(config, date);
      |f| >= 4 && f[|f| - 4..] == ".pdf"
      && Split(f[..|f| - 4], '_') == ["Examen", config.asignatura, config.curso, date]
  {
    var f := FileName(config, date);
    var parts := ["Examen", config.asignatura, config.curso, date];
    assert parts[1..] == [config.asignatura, config.curso, date];
    assert parts[1..][1..] == [config.curso, date];
    assert parts[1..][1..][1..] == [date];
    assert Join([date], '_') == date;
    assert Join([config.curso, date], '_') == config.curso + "_" + date;
    assert Join([config.asignatura, config.curso, date], '_') == config.asignatura + "_" + (config.curso + "_" + date);
    assert Join(parts, '_') == "Examen" + "_" + (config.asignatura + "_" + (config.curso + "_" + date));
    assert f[..|f| - 4] == Join(parts, '_');
    assert '_' !in "Examen";
    SplitJoin(parts, '_');
  }

  /** The heights of the questions: `5 * lines + 6`, the text being the
      numbered question wrapped at width 180. */
  function QuestionHeights(qs: seq<Question>, wrap: (string, nat) -> LineCount): (hs: seq<nat>)
    requires AllWellFormed(qs)
    ensures |hs| == |qs|
  {
    seq<nat>(|qs|, j requires 0 <= j < |qs| => QuestionHeight(wrap(Numbered(j + 1, qs[j].Pregunta()), QuestionWidth)))
  }

  /** The heights of the answers: `4 * lines + 4`, the answer wrapped at
      width 175. */
  function AnswerHeights(qs: seq<Question>, wrap: (string, nat) -> LineCount): (hs: seq<nat>)
    requires AllWellFormed(qs)
    ensures |hs| == |qs|
  {
    seq<nat>(|qs|, j requires 0 <= j < |qs| => AnswerHeight(wrap(qs[j].Respuesta(), AnswerWidth)))
  }

  function QuestionPlacements(slots: seq<Cursor>, qs: seq<Question>): seq<Placed>
    requires AllWellFormed(qs) && |slots| == |qs|
  {
    seq(|qs|, j requires 0 <= j < |qs| => Placed(slots[j].page, slots[j].y, Label(j + 1), qs[j].Pregunta()))
  }

  function AnswerPlacements(slots: seq<Cursor>, qs: seq<Question>): seq<Placed>
    requires AllWellFormed(qs) && |slots| == |qs|
  {
    seq(|qs|, j requires 0 <= j < |qs| => Placed(slots[j].page, slots[j].y, Label(j + 1), qs[j].Respuesta()))
  }

  function Footers(pageCount: nat): seq<Footer> {
    seq(pageCount, i requires 0 <= i < pageCount => Footer(i + 1, FooterText(i + 1, pageCount)))
  }

  function QuestionRun(qs: seq<Question>, wrap: (string, nat) -> LineCount): Run
    requires AllWellFormed(qs)
  {
    Flow(QuestionFlow, Cursor(1, QuestionStartY), QuestionHeights(qs, wrap))
  }

  function AnswerRun(qs: seq<Question>, wrap: (string, nat) -> LineCount, keyPage: nat): Run
    requires AllWellFormed(qs)
  {
    Flow(AnswerFlow, Cursor(keyPage, AnswerStartY), AnswerHeights(qs, wrap))
  }

  /** The whole document for an exam: the questions from y=62 on page 1, the
      footers of the question pages, a new page for the answer key with the
      answers from y=25, and the file name. */
  function Render(exam: GeneratedExam, wrap: (string, nat) -> LineCount): Document
    requires AllWellFormed(exam.questions)
  {
    var qs := exam.questions;
    var qrun := QuestionRun(qs, wrap);
    var n := qrun.end.page;
    var arun := AnswerRun(qs, wrap, n + 1);
    Document(HeaderOf(exam), QuestionPlacements(qrun.slots, qs), Footers(n), n + 1,
             AnswerPlacements(arun.slots, qs), arun.end.page, FileName(exam.config, exam.date))
  }

  /** Where question j is drawn: on a question page, between the top line and
      the early-break line, and, unless moved to the top of a new page, wholly
      above the bottom limit y=285. */
  lemma QuestionItem(qs: seq<Question>, wrap: (string, nat) -> LineCount, j: nat)
    requires AllWellFormed(qs) && j < |qs|
    ensures var r := QuestionRun(qs, wrap);
      var s := r.slots[j];
      1 <= s.page <= r.end.page
      && QuestionTopY <= s.y <= QuestionBreakY
      && (s.y == QuestionTopY || s.y + QuestionHeights(qs, wrap)[j] <= QuestionBottom)
  {
    var qhs := QuestionHeights(qs, wrap);
    FlowPagesOrdered(QuestionFlow, Cursor(1, QuestionStartY), qhs, j, j);
    FlowPlacement(QuestionFlow, Cursor(1, QuestionStartY), qhs, j);
    FlowSteps(QuestionFlow, Cursor(1, QuestionStartY), qhs, j);
  }

  /** Where answer j is drawn: on the key page or after it, not above y=20,
      and, unless moved to the top of a new page, wholly above y=280. */
  lemma AnswerItem(qs: seq<Question>, wrap: (string, nat) -> LineCount, keyPage: nat, j: nat)
    requires AllWellFormed(qs) && j < |qs|
    ensures var r := AnswerRun(qs, wrap, keyPage);
      var s := r.slots[j];
      keyPage <= s.page <= r.end.page
      && AnswerTopY <= s.y
      && (s.y == AnswerTopY || s.y + AnswerHeights(qs, wrap)[j] <= AnswerBottom)
  {
    var ahs := AnswerHeights(qs, wrap);
    FlowPagesOrdered(AnswerFlow, Cursor(keyPage, AnswerStartY), ahs, j, j);
    FlowPlacement(AnswerFlow, Cursor(keyPage, AnswerStartY), ahs, j);
  }

  /** Question j and answer j of the document: both carry the number j + 1,
      the question and its answer; the question is on a page before the answer
      key, the answer on the key page or after it. */
  lemma RenderItem(exam: GeneratedExam, wrap: (string, nat) -> LineCount, j: nat)
    requires AllWellFormed(exam.questions) && j < |exam.questions|
    ensures var d := Render(exam, wrap);
      var qs := exam.questions;
      |d.questions| == |d.answers| == |qs|
      && d.questions[j].prefix == d.answers[j].prefix == Label(j + 1)
      && d.questions[j].text == qs[j].Pregunta() && d.answers[j].text == qs[j].Respuesta()
      && 1 <= d.questions[j].page < d.keyPage <= d.answers[j].page <= d.pageCount
  {
    var qs := exam.questions;
    QuestionItem(qs, wrap, j);
    AnswerItem(qs, wrap, QuestionRun(qs, wrap).end.page + 1, j);
  }

  /** The page numbering: every question page 1..N carries `Pág. i / N`, N
      being the number of question pages (at least one), and the answer key
      begins on page N + 1, so its pages carry none. */
  lemma RenderFooters(exam: GeneratedExam, wrap: (string, nat) -> LineCount)
    requires AllWellFormed(exam.questions)
    ensures var d := Render(exam, wrap);
      |d.footers| >= 1 && d.keyPage == |d.footers| + 1 <= d.pageCount
      && forall i :: 0 <= i < |d.footers| ==> d.footers[i] == Footer(i + 1, FooterText(i + 1, |d.footers|))
  {
  }

  /** The page-break checks made before drawing an item of height `h` with
      the cursor at (`page`, `y`): a new page when the cursor is below the
      early-break line (questions only), another when the item would end below
      the bottom limit. */
  method Place(p: Policy, page: nat, y: nat, h: nat) returns (newPage: nat, newY: nat)
    ensures Cursor(newPage, newY) == Slot(p, Cursor(page, y), h)
  {
    newPage, newY := page, y;
    if p.breakAbove.Some? && y > p.breakAbove.value {
      newPage, newY := page + 1, p.top;
    }
    if newY + h > p.bottom {
      newPage, newY := newPage + 1, p.top;
    }
  }

  /** The key page follows the footered question pages; every question comes
      before it and every answer on or after it. */
  lemma RenderSides(exam: GeneratedExam, wrap: (string, nat) -> LineCount)
    requires AllWellFormed(exam.questions)
    ensures var d := Render(exam, wrap);
      d.keyPage == |d.footers| + 1 <= d.pageCount
      && (forall j :: 0 <= j < |d.questions| ==> d.questions[j].page < d.keyPage)
      && (forall j :: 0 <= j < |d.answers| ==> d.keyPage <= d.answers[j].page)
  {
    var d := Render(exam, wrap);
    RenderFooters(exam, wrap);
    forall j | 0 <= j < |exam.questions|
      ensures d.questions[j].page < d.keyPage <= d.answers[j].page
    {
      RenderItem(exam, wrap, j);
    }
  }

  /** The question loop: the cursor starts at y=62 on page 1; before each
      question a page is begun if the cursor is below y=275, and again if the
      numbered question would end below y=285; the question is drawn and the
      cursor moves down by its height. Returns the places and the number of
      pages the questions take. */
  method LayoutQuestions(qs: seq<Question>, wrap: (string, nat) -> LineCount)
    returns (placed: seq<Placed>, pages: nat)
    requires AllWellFormed(qs)
    ensures var run := QuestionRun(qs, wrap);
      placed == QuestionPlacements(run.slots, qs) && pages == run.end.page
    ensures pages >= 1
  {
    ghost var hs := QuestionHeights(qs, wrap);
    ghost var run := QuestionRun(qs, wrap);
    ghost var all := QuestionPlacements(run.slots, qs);
    var page: nat, y: nat := 1, QuestionStartY;
    placed := [];
    for i := 0 to |qs|
      invariant placed == all[..i]
      invariant Cursor(page, y) == Before(run, Cursor(1, QuestionStartY), hs, i)
    {
      FlowSteps(QuestionFlow, Cursor(1, QuestionStartY), hs, i);
      var text := Numbered(i + 1, qs[i].Pregunta());
      var height := QuestionHeight(wrap(text, QuestionWidth));
      assert height == hs[i];
      page, y := Place(QuestionFlow, page, y, height);
      assert Cursor(page, y) == run.slots[i];
      placed := placed + [Placed(page, y, Label(i + 1), qs[i].Pregunta())];
      y := y + height;
    }
    if |qs| > 0 {
      FlowSteps(QuestionFlow, Cursor(1, QuestionStartY), hs, 0);
    }
    pages := page;
  }

  /** The footer loop: for each page 1..N of the questions, its `Pág. i / N`. */
  method NumberPages(pageCount: nat) returns (footers: seq<Footer>)
    ensures footers == Footers(pageCount)
  {
    footers := [];
    for i := 1 to pageCount + 1
      invariant |footers| == i - 1
      invariant forall k :: 0 <= k < i - 1 ==> footers[k] == Footer(k + 1, FooterText(k + 1, pageCount))
    {
      footers := footers + [Footer(i, FooterText(i, pageCount))];
    }
  }

  /** The answer loop, on the pages from `keyPage` on: the cursor starts at
      y=25; a page is begun when the answer would end below y=280, the answer
      is drawn with its number and the cursor moves down by its height. */
  method LayoutAnswers(qs: seq<Question>, wrap: (string, nat) -> LineCount, keyPage: nat)
    returns (placed: seq<Placed>, lastPage: nat)
    requires AllWellFormed(qs)
    ensures var run := AnswerRun(qs, wrap, keyPage);
      placed == AnswerPlacements(run.slots, qs) && lastPage == run.end.page
    ensures lastPage >= keyPage
  {
    ghost var hs := AnswerHeights(qs, wrap);
    ghost var run := AnswerRun(qs, wrap, keyPage);
    ghost var all := AnswerPlacements(run.slots, qs);
    var page: nat, y: nat := keyPage, AnswerStartY;
    placed := [];
    for i := 0 to |qs|
      invariant placed == all[..i]
      invariant Cursor(page, y) == Before(run, Cursor(keyPage, AnswerStartY), hs, i)
    {
      FlowSteps(AnswerFlow, Cursor(keyPage, AnswerStartY), hs, i);
      var height := AnswerHeight(wrap(qs[i].Respuesta(), AnswerWidth));
      assert height == hs[i];
      page, y := Place(AnswerFlow, page, y, height);
      assert Cursor(page, y) == run.slots[i];
      placed := placed + [Placed(page, y, Label(i + 1), qs[i].Respuesta())];
      y := y + height;
    }
    if |qs| > 0 {
      FlowSteps(AnswerFlow, Cursor(keyPage, AnswerStartY), hs, 0);
    }
    lastPage := page;
  }

  /** The exporter: header, question loop, footers on the pages that exist
      so far, a new page for the answer key, the answer loop, the file name. */
  method GenerateExamPdf(exam: GeneratedExam, wrap: (string, nat) -> LineCount) returns (doc: Document)
    requires AllWellFormed(exam.questions)
    ensures doc == Render(exam, wrap)
    ensures doc.keyPage == |doc.footers| + 1 <= doc.pageCount
    ensures forall j :: 0 <= j < |doc.questions| ==> doc.questions[j].page < doc.keyPage
    ensures forall j :: 0 <= j < |doc.answers| ==> doc.keyPage <= doc.answers[j].page
  {
    var header := HeaderOf(exam);
    var questions, pageCount := LayoutQuestions(exam.questions, wrap);
    var footers := NumberPages(pageCount);
    var keyPage := pageCount + 1;
    var answers, lastPage := LayoutAnswers(exam.questions, wrap, keyPage);
    doc := Document(header, questions, footers, keyPage, answers, lastPage, FileName(exam.config, exam.date));
    RenderSides(exam, wrap);
  }
}
