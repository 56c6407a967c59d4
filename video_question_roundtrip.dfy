/** The video-question plugin reads back what an author writes: a questions
    section laid out in the challenge format (`--text--`, `--answers--` with
    answers cut by `---` and optional `--feedback--`, `--video-solution--`)
    yields exactly the records it was written from. */
module VideoQuestionRoundTrip {
  import opened Wrappers
  import opened Mdast
  import opened VideoQuestion

  /** One answer as written: its content and, optionally, its feedback. */
  datatype AnswerSource = AnswerSource(content: seq<Node>, feedback: Option<seq<Node>>)

  /** One question as written. */
  datatype QuestionSource = QuestionSource(text: seq<Node>, answers: seq<AnswerSource>, solution: nat)

  predicate WellFormedAnswer(a: AnswerSource)
  {
    a.content != [] && AllPlain(a.content) && (a.feedback.Some? ==> AllPlain(a.feedback.value))
  }

  predicate WellFormedQuestion(q: QuestionSource)
  {
    AllPlain(q.text) && Render(q.text) != "" && q.solution >= 1 &&
    |q.answers| >= 1 && forall i :: 0 <= i < |q.answers| ==> WellFormedAnswer(q.answers[i])
  }

  // ---------------------------------------------------------------------
  // Writing the markdown

  function AnswerGroupNodes(a: AnswerSource): seq<Node>
  {
    match a.feedback
    case None => a.content
    case Some(f) => a.content + [MarkerHeading(3, FeedbackMarker)] + f
  }

  function AnswerGroups(answers: seq<AnswerSource>): seq<seq<Node>>
  {
    seq(|answers|, i requires 0 <= i < |answers| => AnswerGroupNodes(answers[i]))
  }

  function AnswersNodes(answers: seq<AnswerSource>): seq<Node>
  {
    JoinWithBreaks(AnswerGroups(answers))
  }

  function SolutionNodes(n: nat): seq<Node>
  {
    [Node(Paragraph, None, [Node(Text, Some(NatToDecimal(n)), [])])]
  }

  function QuestionNodes(q: QuestionSource): seq<Node>
  {
    [MarkerHeading(2, TextMarker)] + q.text +
    [MarkerHeading(2, AnswersMarker)] + AnswersNodes(q.answers) +
    [MarkerHeading(2, SolutionMarker)] + SolutionNodes(q.solution)
  }

  function QuestionGroups(qs: seq<QuestionSource>): seq<seq<Node>>
  {
    seq(|qs|, i requires 0 <= i < |qs| => QuestionNodes(qs[i]))
  }

  /** A challenge whose questions section holds the given questions. */
  function DocumentNodes(qs: seq<QuestionSource>): seq<Node>
  {
    [MarkerHeading(1, QuestionsMarker)] + Flatten(QuestionGroups(qs))
  }

  // ---------------------------------------------------------------------
  // What should come back

  function ExpectedAnswer(a: AnswerSource): Answer
  {
    Answer(Render(a.content), match a.feedback case None => None case Some(f) => Some(Render(f)))
  }

  function ExpectedAnswers(answers: seq<AnswerSource>): seq<Answer>
  {
    seq(|answers|, i requires 0 <= i < |answers| => ExpectedAnswer(answers[i]))
  }

  function ExpectedQuestion(q: QuestionSource): Question
  {
    Question(Render(q.text), ExpectedAnswers(q.answers), q.solution)
  }

  // ---------------------------------------------------------------------
  // Facts about the nodes written

  lemma MarkersAreMarkers()
    ensures IsMarkerText(QuestionsMarker) && IsMarkerText(TextMarker) && IsMarkerText(AnswersMarker)
    ensures IsMarkerText(FeedbackMarker) && IsMarkerText(SolutionMarker)
  {
    assert QuestionsMarker[..2] == "--" && QuestionsMarker[|QuestionsMarker| - 2..] == "--";
    assert TextMarker[..2] == "--" && TextMarker[|TextMarker| - 2..] == "--";
    assert AnswersMarker[..2] == "--" && AnswersMarker[|AnswersMarker| - 2..] == "--";
    assert FeedbackMarker[..2] == "--" && FeedbackMarker[|FeedbackMarker| - 2..] == "--";
    assert SolutionMarker[..2] == "--" && SolutionMarker[|SolutionMarker| - 2..] == "--";
  }

  /** The nodes that may stand in an answers region as written. */
  predicate AnswerRegionNode(n: Node)
  {
    Plain(n) || n == Break || n == MarkerHeading(3, FeedbackMarker)
  }

  /** The roles a node can have in a question group as written, apart from
      its opening `--text--` heading. */
  predicate InnerQuestionNode(n: Node)
  {
    AnswerRegionNode(n) || n == MarkerHeading(2, AnswersMarker) || n == MarkerHeading(2, SolutionMarker) ||
    (n.kind == Paragraph && |n.children| == 1 && n.children[0].value.Some? && AllDigits(n.children[0].value.value))
  }

  lemma AnswerRegionNodeFacts(n: Node)
    requires AnswerRegionNode(n)
    ensures !IsBoundary(n, 2) && !IsHeadingFor(n, SolutionMarker) && !IsHeadingFor(n, AnswersMarker)
    ensures n.kind != ThematicBreak ==> !IsHeadingFor(n, FeedbackMarker) || n == MarkerHeading(3, FeedbackMarker)
  {
  }

  lemma InnerQuestionNodeFacts(n: Node)
    requires InnerQuestionNode(n)
    ensures !StartsQuestion(n) && !IsBoundary(n, 1)
  {
    if Plain(n) {
      PlainFirstChild(n);
      MarkersAreMarkers();
    } else if n.kind == Paragraph {
      assert !IsDigit(TextMarker[0]);
    }
  }

  lemma AnswersNodesShape(answers: seq<AnswerSource>)
    requires |answers| >= 1 && forall i :: 0 <= i < |answers| ==> WellFormedAnswer(answers[i])
    ensures forall i :: 0 <= i < |AnswersNodes(answers)| ==> AnswerRegionNode(AnswersNodes(answers)[i])
  {
    var gs := AnswerGroups(answers);
    forall g, k | 0 <= g < |gs| && 0 <= k < |gs[g]|
      ensures AnswerRegionNode(gs[g][k])
    {
      var a := answers[g];
      if a.feedback.Some? {
        var f := a.feedback.value;
        assert gs[g] == a.content + [MarkerHeading(3, FeedbackMarker)] + f;
      }
    }
    JoinWithBreaksEvery(gs, AnswerRegionNode);
  }

  // ---------------------------------------------------------------------
  // The round trips, part by part

  /** One answer group reads back as its answer and feedback. */
  lemma AnswerRoundTrip(a: AnswerSource)
    requires WellFormedAnswer(a)
    ensures AnswerOf(AnswerGroupNodes(a)) == Ok(ExpectedAnswer(a))
  {
    match a.feedback
    case None =>
      AllPlainNoMarkerText(a.content);
      MarkersAreMarkers();
      NoMarkerTextNoValue(a.content, FeedbackMarker);
    case Some(f) =>
      AnswerWithFeedback(a.content, 3, f, []);
      assert AnswerGroupNodes(a) + [] == AnswerGroupNodes(a);
  }

  /** A written answer holds no thematic break. */
  lemma AnswerGroupNoBreaks(a: AnswerSource)
    requires WellFormedAnswer(a)
    ensures NoBreaks(AnswerGroupNodes(a))
  {
    var g := AnswerGroupNodes(a);
    if a.feedback.Some? {
      var f := a.feedback.value;
      assert g == a.content + [MarkerHeading(3, FeedbackMarker)] + f;
      forall i | 0 <= i < |g| ensures g[i].kind != ThematicBreak {
        if i < |a.content| {
          assert g[i] == a.content[i];
        } else if i > |a.content| {
          assert g[i] == f[i - |a.content| - 1];
        }
      }
    }
  }

  /** The answers region reads back as the answers, in order. */
  lemma AnswersRoundTrip(answers: seq<AnswerSource>)
    requires |answers| >= 1 && forall i :: 0 <= i < |answers| ==> WellFormedAnswer(answers[i])
    ensures GetAnswers(AnswersNodes(answers)) == Ok(ExpectedAnswers(answers))
  {
    var gs := AnswerGroups(answers);
    var expected := ExpectedAnswers(answers);
    forall g | 0 <= g < |gs| ensures NoBreaks(gs[g]) && AnswerOf(gs[g]) == Ok(expected[g]) {
      AnswerRoundTrip(answers[g]);
      AnswerGroupNoBreaks(answers[g]);
    }
    SplitJoin(gs);
    MapAllEvery(gs, AnswerOf, expected);
  }

  /** The written solution reads back as the number. */
  lemma SolutionRoundTrip(n: nat)
    requires n >= 1
    ensures GetSolution(SolutionNodes(n)) == Ok(n)
  {
    DecimalRoundTrip(n);
  }

  /** The `--text--` region of a written question is its prompt. */
  lemma TextRegion(q: QuestionSource)
    requires WellFormedQuestion(q)
    ensures Between(QuestionNodes(q), TextMarker) == q.text
  {
    var t, a := MarkerHeading(2, TextMarker), MarkerHeading(2, AnswersMarker);
    var rest := [a] + AnswersNodes(q.answers) + [MarkerHeading(2, SolutionMarker)] + SolutionNodes(q.solution);
    MarkersAreMarkers();
    assert QuestionNodes(q) == [] + [t] + q.text + rest;
    RegionOf([], 2, TextMarker, q.text, rest);
  }

  /** The `--answers--` region of a written question is its answers as
      written. */
  lemma AnswersRegion(q: QuestionSource)
    requires WellFormedQuestion(q)
    ensures Between(QuestionNodes(q), AnswersMarker) == AnswersNodes(q.answers)
  {
    var t, a, s := MarkerHeading(2, TextMarker), MarkerHeading(2, AnswersMarker), MarkerHeading(2, SolutionMarker);
    var ans := AnswersNodes(q.answers);
    MarkersAreMarkers();
    AnswersNodesShape(q.answers);
    forall i | 0 <= i < |ans| ensures !IsBoundary(ans[i], 2) {
      AnswerRegionNodeFacts(ans[i]);
    }
    assert QuestionNodes(q) == ([t] + q.text) + [a] + ans + ([s] + SolutionNodes(q.solution));
    RegionOf([t] + q.text, 2, AnswersMarker, ans, [s] + SolutionNodes(q.solution));
  }

  /** The `--video-solution--` region of a written question is its solution
      paragraph. */
  lemma SolutionRegion(q: QuestionSource)
    requires WellFormedQuestion(q)
    ensures Between(QuestionNodes(q), SolutionMarker) == SolutionNodes(q.solution)
  {
    var t, a, s := MarkerHeading(2, TextMarker), MarkerHeading(2, AnswersMarker), MarkerHeading(2, SolutionMarker);
    var ans := AnswersNodes(q.answers);
    AnswersNodesShape(q.answers);
    var pre := [t] + q.text + [a] + ans;
    forall i | 0 <= i < |pre| ensures !IsHeadingFor(pre[i], SolutionMarker) {
      if |[t] + q.text + [a]| <= i {
        AnswerRegionNodeFacts(ans[i - |[t] + q.text + [a]|]);
      }
    }
    assert QuestionNodes(q) == pre + [s] + SolutionNodes(q.solution) + [];
    RegionOf(pre, 2, SolutionMarker, SolutionNodes(q.solution), []);
  }

  /** One question group reads back as its record. */
  lemma QuestionRoundTrip(q: QuestionSource)
    requires WellFormedQuestion(q)
    ensures QuestionOfGroup(QuestionNodes(q)) == Ok(ExpectedQuestion(q))
  {
    TextRegion(q);
    AnswersRegion(q);
    SolutionRegion(q);
    AnswersRoundTrip(q.answers);
    SolutionRoundTrip(q.solution);
  }

  /** The nodes of one question group as written. */
  lemma QuestionNodesShape(q: QuestionSource)
    requires WellFormedQuestion(q)
    ensures IsQuestionGroup(QuestionNodes(q))
    ensures forall i :: 0 <= i < |QuestionNodes(q)| ==> !IsBoundary(QuestionNodes(q)[i], 1)
  {
    var g := QuestionNodes(q);
    var ans := AnswersNodes(q.answers);
    AnswersNodesShape(q.answers);
    assert NatToDecimal(q.solution) == SolutionNodes(q.solution)[0].children[0].value.value;
    assert forall i :: 1 <= i < |g| ==> InnerQuestionNode(g[i]);
    forall i | 1 <= i < |g| ensures !StartsQuestion(g[i]) && !IsBoundary(g[i], 1) {
      InnerQuestionNodeFacts(g[i]);
    }
  }

  /** The questions region of a written challenge is the concatenation of
      its question groups, and those are its groups. */
  lemma DocumentGroups(qs: seq<QuestionSource>)
    requires |qs| >= 1 && forall i :: 0 <= i < |qs| ==> WellFormedQuestion(qs[i])
    ensures var region := Between(DocumentNodes(qs), QuestionsMarker);
      region != [] && StartsQuestion(region[0]) && Groups(region) == QuestionGroups(qs)
  {
    var gs := QuestionGroups(qs);
    var region := Flatten(gs);
    forall i | 0 <= i < |gs| ensures IsQuestionGroup(gs[i]) &&
      forall k :: 0 <= k < |gs[i]| ==> !IsBoundary(gs[i][k], 1)
    {
      QuestionNodesShape(qs[i]);
    }
    FlattenEvery(gs, n => !IsBoundary(n, 1));
    assert DocumentNodes(qs) == [] + [MarkerHeading(1, QuestionsMarker)] + region + [];
    RegionOf([], 1, QuestionsMarker, region, []);
    assert IsGrouping(gs, region);
    GroupingIsGroups(gs, region);
    assert region == gs[0] + Flatten(gs[1..]);
  }

  /** A challenge written from questions reads back, through the whole pass,
      as exactly those questions in order. */
  lemma DocumentRoundTrip(qs: seq<QuestionSource>)
    requires |qs| >= 1 && forall i :: 0 <= i < |qs| ==> WellFormedQuestion(qs[i])
    ensures Extract(DocumentNodes(qs)) ==
            Assigned(seq(|qs|, i requires 0 <= i < |qs| => ExpectedQuestion(qs[i])))
  {
    DocumentGroups(qs);
    var gs := QuestionGroups(qs);
    var expected := seq(|qs|, i requires 0 <= i < |qs| => ExpectedQuestion(qs[i]));
    forall i | 0 <= i < |gs| ensures QuestionOfGroup(gs[i]) == Ok(expected[i]) {
      QuestionRoundTrip(qs[i]);
    }
    MapAllEvery(gs, QuestionOfGroup, expected);
  }

  /** A paragraph holding one run of text. */
  function Para(s: string): Node
  {
    Node(Paragraph, None, [Node(Text, Some(s), [])])
  }

  /** A one-text paragraph renders as `<p>text</p>`. */
  lemma ParaRender(s: string, html: string)
    requires html == "<p>" + s + "</p>"
    ensures Render([Para(s)]) == html
  {
    var leaf := Node(Text, Some(s), []);
    assert [leaf][1..] == [];
    assert [Para(s)][1..] == [];
    assert Render([leaf]) == s;
  }

  /** A paragraph of non-marker text is content. */
  lemma ParaPlain(s: string)
    requires !IsMarkerText(s)
    ensures AllPlain([Para(s)])
  {
    var leaf := Node(Text, Some(s), []);
    assert [leaf][1..] == [];
    assert !ContainsMarkerText([leaf]);
    assert [Para(s)][0].children == [leaf];
    assert [Para(s)][1..] == [];
  }

  /** A worked example: one prompt, two answers (the
      second with feedback) and the solution 2. */
  function ExampleQuestion(): QuestionSource
  {
    QuestionSource([Para("What is 1+1?")],
                   [AnswerSource([Para("1")], None), AnswerSource([Para("2")], Some([Para("Correct!")]))],
                   2)
  }

  /** Text that does not open with a dash is not a marker. */
  lemma NotMarker(s: string)
    requires |s| >= 1 && s[0] != '-'
    ensures !IsMarkerText(s)
  {
    if |s| >= 4 {
      assert s[..2][0] == s[0];
    }
  }

  lemma ExampleWellFormed()
    ensures WellFormedQuestion(ExampleQuestion())
  {
    var q := ExampleQuestion();
    NotMarker("What is 1+1?");
    NotMarker("Correct!");
    NotMarker("1");
    NotMarker("2");
    ParaPlain("What is 1+1?");
    ParaPlain("1");
    ParaPlain("2");
    ParaPlain("Correct!");
    ParaRender("What is 1+1?", "<p>What is 1+1?</p>");
    assert WellFormedAnswer(q.answers[0]) && WellFormedAnswer(q.answers[1]);
  }

  lemma ExampleAnswers()
    ensures ExpectedAnswers(ExampleQuestion().answers) ==
      [Answer("<p>1</p>", None), Answer("<p>2</p>", Some("<p>Correct!</p>"))]
  {
    var answers := ExampleQuestion().answers;
    ParaRender("1", "<p>1</p>");
    ParaRender("2", "<p>2</p>");
    ParaRender("Correct!", "<p>Correct!</p>");
    assert ExpectedAnswer(answers[0]) == Answer("<p>1</p>", None);
    assert ExpectedAnswer(answers[1]) == Answer("<p>2</p>", Some("<p>Correct!</p>"));
  }

  lemma ExampleExpected()
    ensures ExpectedQuestion(ExampleQuestion()) ==
      Question("<p>What is 1+1?</p>",
               [Answer("<p>1</p>", None), Answer("<p>2</p>", Some("<p>Correct!</p>"))],
               2)
  {
    ParaRender("What is 1+1?", "<p>What is 1+1?</p>");
    ExampleAnswers();
  }

  /** The worked example reads back as one question. */
  lemma WorkedExample()
    ensures Extract(DocumentNodes([ExampleQuestion()])) ==
      Assigned([Question("<p>What is 1+1?</p>",
                         [Answer("<p>1</p>", None), Answer("<p>2</p>", Some("<p>Correct!</p>"))],
                         2)])
  {
    var qs := [ExampleQuestion()];
    ExampleWellFormed();
    ExampleExpected();
    DocumentRoundTrip(qs);
    assert seq(|qs|, i requires 0 <= i < |qs| => ExpectedQuestion(qs[i])) == [ExpectedQuestion(qs[0])];
  }
}
