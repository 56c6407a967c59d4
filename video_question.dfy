/** The video-question plugin of the challenge parser: it takes the nodes of
    the `--questions--` section of a challenge, cuts them into one group per
    `--text--` marker, and turns each group into a record of the prompt, the
    answers (with optional feedback) and the number of the right answer. The
    records are stored on the file's data, or the first malformed question
    aborts the whole pass. */
module VideoQuestion {
  import opened Wrappers
  import opened Mdast

  datatype Answer = Answer(answer: string, feedback: Option<string>)

  datatype Question = Question(text: string, answers: seq<Answer>, solution: int)

  /** Why a solution was rejected. The plugin logs this cause and reports
      only one fixed message. */
  datatype SolutionCause =
    | TooManyNodes
    | TooManyChildNodes
    | Unreadable         // a missing node or child was read: a TypeError
    | EmptyString
    | NotANumber
    | NotPositive

  datatype ParseError =
    | AnswerMissing
    | BadSolution(cause: SolutionCause)
    | TextMissing
    | SolutionMissing
    | UndefinedQuestionTree   // the TypeError of `questionTrees[-1].push`

  const SolutionErrorMessage := "A video solution should be a positive integer"

  /** The message of the error the plugin throws. The TypeError's text is
      the one V8 gives; other JavaScript engines word it differently. */
  function Message(e: ParseError): (m: string)
    ensures m == SolutionErrorMessage <==> e.BadSolution?
  {
    match e
    case AnswerMissing => "Answer missing"
    case BadSolution(_) => SolutionErrorMessage
    case TextMissing => "text is missing from question"
    case SolutionMissing => "solution is missing from question"
    case UndefinedQuestionTree => "Cannot read properties of undefined (reading 'push')"
  }

  /** The message tells the errors apart, all solution causes aside. */
  lemma MessagesDistinct(e1: ParseError, e2: ParseError)
    ensures Message(e1) == Message(e2) <==> e1 == e2 || (e1.BadSolution? && e2.BadSolution?)
  {
  }

  // ---------------------------------------------------------------------
  // The solution: a decimal number

  predicate IsDigit(c: char)
  {
    '0' <= c <= '9'
  }

  predicate AllDigits(s: string)
  {
    forall i :: 0 <= i < |s| ==> IsDigit(s[i])
  }

  /** The natural number spelt by a string of decimal digits. */
  function DigitsValue(s: string): nat
    requires AllDigits(s)
    decreases |s|
  {
    if s == [] then 0 else DigitsValue(s[..|s| - 1]) * 10 + (s[|s| - 1] as int - '0' as int)
  }

  /** `Number(s)` on the strings this model admits: an optional sign followed
      by one or more decimal digits; anything else is not a number. */
  function ParseNumber(s: string): (r: Option<int>)
    ensures r.Some? <==> (|s| > 0 && AllDigits(s)) ||
                         (|s| > 1 && (s[0] == '-' || s[0] == '+') && AllDigits(s[1..]))
    ensures r.Some? && r.value < 0 ==> s[0] == '-'
    ensures r.Some? && s[0] == '-' ==> r.value <= 0
    ensures r.Some? && s[0] != '-' ==> r.value >= 0
  {
    if |s| > 0 && AllDigits(s) then Some(DigitsValue(s))
    else if |s| > 1 && s[0] == '-' && AllDigits(s[1..]) then Some(0 - DigitsValue(s[1..]) as int)
    else if |s| > 1 && s[0] == '+' && AllDigits(s[1..]) then Some(DigitsValue(s[1..]))
    else None
  }

  /** The guarded block of `getSolution`, in its order of checks. */
  function ParseSolution(nodes: seq<Node>): (r: Result<int, SolutionCause>)
    ensures r.Ok? <==>
      |nodes| == 1 && |nodes[0].children| == 1 && nodes[0].children[0].value.Some? &&
      ParseNumber(nodes[0].children[0].value.value).Some? &&
      ParseNumber(nodes[0].children[0].value.value).value >= 1
    ensures r.Ok? ==> r == Ok(ParseNumber(nodes[0].children[0].value.value).value)
    // the checks in order, each with its own cause
    ensures |nodes| > 1 ==> r == Err(TooManyNodes)
    ensures |nodes| == 1 && |nodes[0].children| > 1 ==> r == Err(TooManyChildNodes)
    ensures r == Err(Unreadable) <==> |nodes| == 0 || (|nodes| == 1 && |nodes[0].children| == 0)
    ensures r == Err(EmptyString) <==>
              |nodes| == 1 && |nodes[0].children| == 1 && nodes[0].children[0].value == Some("")
    ensures r == Err(NotPositive) ==>
              |nodes| == 1 && |nodes[0].children| == 1 && nodes[0].children[0].value.Some? &&
              ParseNumber(nodes[0].children[0].value.value).Some? &&
              ParseNumber(nodes[0].children[0].value.value).value < 1
  {
    if |nodes| > 1 then Err(TooManyNodes)
    else if |nodes| == 0 then Err(Unreadable)
    else if |nodes[0].children| > 1 then Err(TooManyChildNodes)
    else if |nodes[0].children| == 0 then Err(Unreadable)
    else
      match nodes[0].children[0].value
      case None => Err(NotANumber)
      case Some(s) =>
        if s == "" then Err(EmptyString)
        else
          match ParseNumber(s)
          case None => Err(NotANumber)
          case Some(n) => if n < 1 then Err(NotPositive) else Ok(n)
  }

  /** `getSolution`: every failure of the guarded block becomes the same
      error, and any number it returns is at least 1. */
  function GetSolution(nodes: seq<Node>): (r: Result<int, ParseError>)
    ensures r.Ok? ==> r.value >= 1
    ensures r.Err? ==> r.error.BadSolution? && Message(r.error) == SolutionErrorMessage
    ensures r.Ok? <==> ParseSolution(nodes).Ok?
    ensures r.Ok? ==> r.value == ParseSolution(nodes).value
  {
    match ParseSolution(nodes)
    case Ok(n) => Ok(n)
    case Err(cause) => Err(BadSolution(cause))
  }

  /** The decimal spelling of a natural number, most significant digit first. */
  function NatToDecimal(n: nat): (s: string)
    ensures |s| > 0 && AllDigits(s)
    decreases n
  {
    if n < 10 then [('0' as int + n) as char]
    else NatToDecimal(n / 10) + [('0' as int + n % 10) as char]
  }

  /** Reading back the spelling of `n` gives `n`. */
  lemma {:induction false} DecimalRoundTrip(n: nat)
    ensures DigitsValue(NatToDecimal(n)) == n
    ensures ParseNumber(NatToDecimal(n)) == Some(n)
    decreases n
  {
    var s := NatToDecimal(n);
    if n >= 10 {
      DecimalRoundTrip(n / 10);
      assert s[..|s| - 1] == NatToDecimal(n / 10);
    }
  }

  /** `z` zeros. */
  function Zeros(z: nat): (s: string)
    ensures |s| == z && AllDigits(s)
  {
    seq(z, _ => '0')
  }

  /** Leading zeros do not change the value of a digit string. */
  lemma {:induction false} DigitsValueZeros(z: nat, t: string)
    requires AllDigits(t)
    ensures DigitsValue(Zeros(z) + t) == DigitsValue(t)
    decreases |t|, z
  {
    var s := Zeros(z) + t;
    if t == [] {
      assert s == Zeros(z);
      if z > 0 {
        assert s[..|s| - 1] == Zeros(z - 1) + [];
        DigitsValueZeros(z - 1, []);
      }
    } else {
      assert s[..|s| - 1] == Zeros(z) + t[..|t| - 1];
      DigitsValueZeros(z, t[..|t| - 1]);
    }
  }

  /** Every spelling of a number with an optional sign and leading zeros
      reads back as that number, negated after `-`. */
  lemma NumberSpellings(p: string, z: nat, n: nat)
    requires p == "" || p == "+" || p == "-"
    ensures ParseNumber(p + Zeros(z) + NatToDecimal(n)) == Some(if p == "-" then 0 - n as int else n as int)
  {
    var w := Zeros(z) + NatToDecimal(n);
    DecimalRoundTrip(n);
    DigitsValueZeros(z, NatToDecimal(n));
    assert AllDigits(w);
    var s := p + w;
    assert s == p + Zeros(z) + NatToDecimal(n);
    if p != "" {
      assert s[0] == p[0] && s[1..] == w;
      assert !IsDigit(s[0]);
    } else {
      assert s == w;
    }
  }

  /** The failures named by the plugin, on small inputs. */
  lemma SolutionFailures(p: Node, q: Node)
    ensures ParseSolution([p, q]) == Err(TooManyNodes)
    ensures ParseSolution([]) == Err(Unreadable)
    ensures ParseSolution([Node(Paragraph, None, [])]) == Err(Unreadable)
    ensures ParseSolution([Node(Paragraph, None, [p, q])]) == Err(TooManyChildNodes)
    ensures ParseSolution([Node(Paragraph, None, [Node(Text, Some(""), [])])]) == Err(EmptyString)
    ensures ParseSolution([Node(Paragraph, None, [Node(Text, Some("abc"), [])])]) == Err(NotANumber)
    ensures ParseSolution([Node(Paragraph, None, [Node(Text, Some("0"), [])])]) == Err(NotPositive)
    ensures ParseSolution([Node(Paragraph, None, [Node(Text, Some("-1"), [])])]) == Err(NotPositive)
  {
    assert !AllDigits("abc") by { assert !IsDigit("abc"[0]); }
    assert !AllDigits("-1") by { assert !IsDigit("-1"[0]); }
    assert "-1"[1..] == "1";
    assert DigitsValue("1") == 1 by { assert "1"[..0] == ""; }
    assert DigitsValue("0") == 0 by { assert "0"[..0] == ""; }
  }

  /** Non-canonical spellings are read as the number they denote. */
  lemma SolutionSpellings()
    ensures GetSolution([Node(Paragraph, None, [Node(Text, Some("+5"), [])])]) == Ok(5)
    ensures GetSolution([Node(Paragraph, None, [Node(Text, Some("007"), [])])]) == Ok(7)
  {
    assert "+5"[1..] == "5";
    assert DigitsValue("5") == 5 by { assert "5"[..0] == ""; }
    assert DigitsValue("007") == 7 by {
      assert "007"[..2] == "00" && "00"[..1] == "0" && "0"[..0] == "";
    }
  }

  // ---------------------------------------------------------------------
  // Answers

  /** One answer group of `getAnswers`: with a `--feedback--` value somewhere
      in the group, the nodes before the feedback heading are the answer and
      the feedback heading's region is the feedback; without one, the whole
      group is the answer and the feedback is null. */
  function AnswerOf(group: seq<Node>): (r: Result<Answer, ParseError>)
    ensures r.Err? <==> ContainsValue(group, FeedbackMarker) && Before(group, FeedbackMarker) == []
    ensures r.Err? ==> r.error == AnswerMissing
    ensures r.Ok? ==> (r.value.feedback.Some? <==> ContainsValue(group, FeedbackMarker))
  {
    if ContainsValue(group, FeedbackMarker) then
      var answerNodes := Before(group, FeedbackMarker);
      var feedbackNodes := Between(group, FeedbackMarker);
      if |answerNodes| < 1 then Err(AnswerMissing)
      else Ok(Answer(Render(answerNodes), Some(Render(feedbackNodes))))
    else Ok(Answer(Render(group), None))
  }

  /** `getAnswers`: one answer per thematic-break group, in group order, or
      `Answer missing` for the first group that has feedback but no answer. */
  function GetAnswers(nodes: seq<Node>): (r: Result<seq<Answer>, ParseError>)
    ensures r.Ok? ==> |r.value| == |SplitOnThematicBreak(nodes)| == CountBreaks(nodes) + 1
    ensures r.Ok? ==> forall i :: 0 <= i < |r.value| ==>
              AnswerOf(SplitOnThematicBreak(nodes)[i]) == Ok(r.value[i])
    ensures r.Err? ==> r.error == AnswerMissing
    ensures r.Err? <==> (exists i :: 0 <= i < |SplitOnThematicBreak(nodes)| &&
                          AnswerOf(SplitOnThematicBreak(nodes)[i]).Err?)
  {
    SplitShape(nodes);
    MapAll(SplitOnThematicBreak(nodes), AnswerOf)
  }

  /** A group without feedback is answered by its whole rendering. */
  lemma AnswerWithoutFeedback(group: seq<Node>)
    requires !ContainsValue(group, FeedbackMarker)
    ensures AnswerOf(group) == Ok(Answer(Render(group), None))
  {
  }

  /** A group laid out as answer nodes, a feedback heading, feedback nodes
      and whatever follows a heading that closes the feedback gives exactly
      the renderings of the answer and of the feedback; what follows the
      closing heading is in neither. */
  lemma AnswerWithFeedback(answer: seq<Node>, d: Depth, feedback: seq<Node>, post: seq<Node>)
    requires answer != []
    requires forall i :: 0 <= i < |answer| ==> !IsHeadingFor(answer[i], FeedbackMarker)
    requires forall i :: 0 <= i < |feedback| ==> !IsBoundary(feedback[i], d)
    requires post == [] || IsBoundary(post[0], d)
    ensures AnswerOf(answer + [MarkerHeading(d, FeedbackMarker)] + feedback + post) ==
            Ok(Answer(Render(answer), Some(Render(feedback))))
  {
    var h := MarkerHeading(d, FeedbackMarker);
    var group := answer + [h] + feedback + post;
    RegionOf(answer, d, FeedbackMarker, feedback, post);
    assert group[|answer|] == h;
    MarkerHeadingFound(group, |answer|, FeedbackMarker);
    AnswerOfFeedback(group, answer, feedback);
  }

  /** A proof step of `AnswerWithFeedback`, split off to keep that proof
      small: a group holding the feedback value reads as the renderings of
      what stands before the feedback heading and of the feedback region. */
  lemma AnswerOfFeedback(group: seq<Node>, answer: seq<Node>, feedback: seq<Node>)
    requires ContainsValue(group, FeedbackMarker)
    requires Before(group, FeedbackMarker) == answer && answer != []
    requires Between(group, FeedbackMarker) == feedback
    ensures AnswerOf(group) == Ok(Answer(Render(answer), Some(Render(feedback))))
  {
  }

  /** A feedback heading with nothing before it is `Answer missing`. */
  lemma FeedbackWithoutAnswer(d: Depth, feedback: seq<Node>)
    ensures AnswerOf([MarkerHeading(d, FeedbackMarker)] + feedback) == Err(AnswerMissing)
  {
    var group := [MarkerHeading(d, FeedbackMarker)] + feedback;
    assert [] + [MarkerHeading(d, FeedbackMarker)] + feedback + [] == group;
    MarkerHeadingFound(group, 0, FeedbackMarker);
    assert FindHeading(group, FeedbackMarker, 0) == Some(0);
  }

  // ---------------------------------------------------------------------
  // One question

  /** `getQuestion`: the answers and then the solution are computed before
      the prompt is checked, so their errors take precedence; the checks for
      missing answers and a missing solution never fire. The check
      `!answers` has no counterpart here: an array is never falsy. */
  function GetQuestion(textNodes: seq<Node>, answersNodes: seq<Node>, solutionNodes: seq<Node>): (r: Result<Question, ParseError>)
    ensures GetAnswers(answersNodes).Err? ==> r == Err(GetAnswers(answersNodes).error)
    ensures GetAnswers(answersNodes).Ok? && GetSolution(solutionNodes).Err? ==>
              r == Err(GetSolution(solutionNodes).error)
    ensures r == Err(TextMissing) <==>
              GetAnswers(answersNodes).Ok? && GetSolution(solutionNodes).Ok? && Render(textNodes) == ""
    ensures r.Err? ==> r.error == AnswerMissing || r.error.BadSolution? || r.error == TextMissing
    ensures r.Ok? <==> GetAnswers(answersNodes).Ok? && GetSolution(solutionNodes).Ok? && Render(textNodes) != ""
    ensures r.Ok? ==> (r.value.text != "" && r.value.solution >= 1 &&
                       Ok(r.value.answers) == GetAnswers(answersNodes) &&
                       Ok(r.value.solution) == GetSolution(solutionNodes) &&
                       r.value.text == Render(textNodes))
  {
    var text := Render(textNodes);
    match GetAnswers(answersNodes)
    case Err(e) => Err(e)
    case Ok(answers) =>
      match GetSolution(solutionNodes)
      case Err(e) => Err(e)
      case Ok(solution) =>
        if text == "" then Err(TextMissing)
        else if solution == 0 then Err(SolutionMissing)
        else Ok(Question(text, answers, solution))
  }

  /** The three regions of one question group, handed to `getQuestion`. */
  function QuestionOfGroup(group: seq<Node>): (r: Result<Question, ParseError>)
    ensures r.Err? ==> r.error == AnswerMissing || r.error.BadSolution? || r.error == TextMissing
    ensures r.Ok? ==> r.value.text != "" && r.value.solution >= 1 && |r.value.answers| >= 1
  {
    GetQuestion(Between(group, TextMarker), Between(group, AnswersMarker), Between(group, SolutionMarker))
  }

  // ---------------------------------------------------------------------
  // Grouping the questions region

  /** The test of the grouping loop: the node's first child has the value
      `--text--`. */
  predicate StartsQuestion(n: Node)
    ensures StartsQuestion(n) <==> |n.children| > 0 && n.children[0].value == Some(TextMarker)
  {
    FirstChildValue(n) == Some(TextMarker)
  }

  /** A group opens with a `--text--` node and holds no other. */
  predicate IsQuestionGroup(g: seq<Node>)
  {
    |g| > 0 && StartsQuestion(g[0]) && forall k :: 0 < k < |g| ==> !StartsQuestion(g[k])
  }

  function Flatten(gs: seq<seq<Node>>): seq<Node>
    decreases |gs|
  {
    if gs == [] then [] else gs[0] + Flatten(gs[1..])
  }

  /** `gs` cuts `region`, in order, into question groups. */
  predicate IsGrouping(gs: seq<seq<Node>>, region: seq<Node>)
  {
    Flatten(gs) == region && forall i :: 0 <= i < |gs| ==> IsQuestionGroup(gs[i])
  }

  function CountStarts(nodes: seq<Node>): nat
    decreases |nodes|
  {
    if nodes == [] then 0 else (if StartsQuestion(nodes[0]) then 1 else 0) + CountStarts(nodes[1..])
  }

  /** Index of the first `--text--` node at or after `from`, or the end. */
  function NextStart(nodes: seq<Node>, from: nat): (r: nat)
    requires from <= |nodes|
    ensures from <= r <= |nodes|
    ensures r < |nodes| ==> StartsQuestion(nodes[r])
    ensures forall j :: from <= j < r ==> !StartsQuestion(nodes[j])
    decreases |nodes| - from
  {
    if from == |nodes| || StartsQuestion(nodes[from]) then from else NextStart(nodes, from + 1)
  }

  /** The grouping as a function of the region, for a region that opens with
      a `--text--` node: each group runs to the next such node. */
  function Groups(region: seq<Node>): seq<seq<Node>>
    requires region == [] || StartsQuestion(region[0])
    decreases |region|
  {
    if region == [] then []
    else
      var k := NextStart(region, 1);
      [region[..k]] + Groups(region[k..])
  }

  lemma {:induction false} FlattenAppend(a: seq<seq<Node>>, b: seq<seq<Node>>)
    ensures Flatten(a + b) == Flatten(a) + Flatten(b)
    decreases |a|
  {
    if a == [] {
      assert a + b == b;
    } else {
      assert (a + b)[1..] == a[1..] + b;
      FlattenAppend(a[1..], b);
    }
  }

  /** Every node of a flattening is a node of one of its groups. */
  lemma {:induction false} FlattenEvery(gs: seq<seq<Node>>, P: Node -> bool)
    requires forall g, k :: 0 <= g < |gs| && 0 <= k < |gs[g]| ==> P(gs[g][k])
    ensures forall i :: 0 <= i < |Flatten(gs)| ==> P(Flatten(gs)[i])
    decreases |gs|
  {
    if gs != [] {
      assert forall g, k :: 0 <= g < |gs[1..]| && 0 <= k < |gs[1..][g]| ==> gs[1..][g][k] == gs[g + 1][k];
      FlattenEvery(gs[1..], P);
    }
  }

  lemma {:induction false} CountStartsAppend(a: seq<Node>, b: seq<Node>)
    ensures CountStarts(a + b) == CountStarts(a) + CountStarts(b)
    decreases |a|
  {
    if a == [] {
      assert a + b == b;
    } else {
      assert (a + b)[1..] == a[1..] + b;
      CountStartsAppend(a[1..], b);
    }
  }

  lemma {:induction false} CountStartsNone(nodes: seq<Node>)
    requires forall k :: 0 <= k < |nodes| ==> !StartsQuestion(nodes[k])
    ensures CountStarts(nodes) == 0
    decreases |nodes|
  {
    if nodes != [] {
      CountStartsNone(nodes[1..]);
    }
  }

  /** `Groups` is a grouping of its region. */
  lemma {:induction false} GroupsIsGrouping(region: seq<Node>)
    requires region == [] || StartsQuestion(region[0])
    ensures IsGrouping(Groups(region), region)
    decreases |region|
  {
    if region != [] {
      var k := NextStart(region, 1);
      GroupsIsGrouping(region[k..]);
      var gs := Groups(region);
      assert gs[1..] == Groups(region[k..]);
      assert region[..k] + region[k..] == region;
    }
  }

  /** A grouping of a region is unique: it is `Groups(region)`. */
  lemma {:induction false} GroupingIsGroups(gs: seq<seq<Node>>, region: seq<Node>)
    requires IsGrouping(gs, region)
    ensures region == [] || StartsQuestion(region[0])
    ensures gs == Groups(region)
    decreases |gs|
  {
    if gs != [] {
      var g := gs[0];
      var rest := Flatten(gs[1..]);
      assert IsQuestionGroup(g);
      assert region == g + rest;
      assert region[0] == g[0];
      assert IsGrouping(gs[1..], rest) by {
        assert forall i :: 0 <= i < |gs[1..]| ==> gs[1..][i] == gs[i + 1];
      }
      GroupingIsGroups(gs[1..], rest);
      var k := NextStart(region, 1);
      assert forall j :: 1 <= j < |g| ==> region[j] == g[j];
      assert |g| < |region| ==> region[|g|] == rest[0];
      assert k == |g|;
      assert region[..k] == g;
      assert region[k..] == rest;
    } else {
      assert region == [];
    }
  }

  /** A grouping has one group per `--text--` node of the region. */
  lemma {:induction false} GroupingCount(gs: seq<seq<Node>>, region: seq<Node>)
    requires IsGrouping(gs, region)
    ensures |gs| == CountStarts(region)
    decreases |gs|
  {
    if gs != [] {
      var g := gs[0];
      assert IsGrouping(gs[1..], Flatten(gs[1..])) by {
        assert forall i :: 0 <= i < |gs[1..]| ==> gs[1..][i] == gs[i + 1];
      }
      GroupingCount(gs[1..], Flatten(gs[1..]));
      CountStartsAppend(g, Flatten(gs[1..]));
      assert g == [g[0]] + g[1..];
      CountStartsAppend([g[0]], g[1..]);
      CountStartsNone(g[1..]);
    }
  }

  /** The grouping loop of `transformer`: a counter that starts at -1 and
      moves to a new group at each `--text--` node, each node pushed onto the
      current group. On a region that does not open with a `--text--` node it
      fails at once, reading the group at index -1. */
  method GroupQuestionNodes(allQuestionNodes: seq<Node>) returns (r: Result<seq<seq<Node>>, ParseError>)
    ensures r.Err? <==> allQuestionNodes != [] && !StartsQuestion(allQuestionNodes[0])
    ensures r.Err? ==> r.error == UndefinedQuestionTree
    ensures r.Ok? ==> IsGrouping(r.value, allQuestionNodes)
  {
    var questionTrees: seq<seq<Node>> := [];
    var questionTreeNumber := -1;
    for i := 0 to |allQuestionNodes|
      invariant questionTreeNumber == |questionTrees| - 1
      invariant i == 0 <==> questionTrees == []
      invariant i > 0 ==> StartsQuestion(allQuestionNodes[0])
      invariant IsGrouping(questionTrees, allQuestionNodes[..i])
    {
      var questionNode := allQuestionNodes[i];
      if StartsQuestion(questionNode) {
        questionTreeNumber := questionTreeNumber + 1;
        FlattenAppend(questionTrees, [[]]);
        questionTrees := questionTrees + [[]];
      }
      if questionTreeNumber < 0 {
        return Err(UndefinedQuestionTree);
      }
      PushOntoLast(questionTrees, questionNode, allQuestionNodes[..i]);
      questionTrees := questionTrees[questionTreeNumber := questionTrees[questionTreeNumber] + [questionNode]];
      assert allQuestionNodes[..i + 1] == allQuestionNodes[..i] + [questionNode];
    }
    assert allQuestionNodes[..|allQuestionNodes|] == allQuestionNodes;
    return Ok(questionTrees);
  }

  /** One step of the grouping loop keeps `Flatten` equal to the prefix seen. */
  lemma PushOntoLast(gs: seq<seq<Node>>, x: Node, prefix: seq<Node>)
    requires gs != []
    requires Flatten(gs) == prefix
    ensures Flatten(gs[|gs| - 1 := gs[|gs| - 1] + [x]]) == prefix + [x]
  {
    var n := |gs| - 1;
    FlattenAppend(gs[..n], [gs[n]]);
    FlattenAppend(gs[..n], [gs[n] + [x]]);
    assert gs == gs[..n] + [gs[n]];
    assert gs[n := gs[n] + [x]] == gs[..n] + [gs[n] + [x]];
    assert Flatten([gs[n]]) == gs[n];
    assert Flatten([gs[n] + [x]]) == gs[n] + [x];
  }

  // ---------------------------------------------------------------------
  // The whole pass

  /** What the pass leaves behind: `file.data.questions` not assigned, the
      questions it was assigned, or the error that was thrown. */
  datatype Outcome = Unassigned | Assigned(questions: seq<Question>) | Thrown(error: ParseError)

  /** The pass as a function of the tree. */
  function Extract(tree: seq<Node>): (r: Outcome)
    ensures r.Thrown? ==> r.error == UndefinedQuestionTree || r.error == AnswerMissing ||
                          r.error.BadSolution? || r.error == TextMissing
  {
    var region := Between(tree, QuestionsMarker);
    if region == [] then Unassigned
    else if !StartsQuestion(region[0]) then Thrown(UndefinedQuestionTree)
    else
      match MapAll(Groups(region), QuestionOfGroup)
      case Err(e) => Thrown(e)
      case Ok(qs) => Assigned(qs)
  }

  /** The second loop of `transformer`: one question per group, in order; the
      first error ends the loop. */
  method BuildQuestions(questionTrees: seq<seq<Node>>) returns (r: Result<seq<Question>, ParseError>)
    ensures r == MapAll(questionTrees, QuestionOfGroup)
  {
    var questions: seq<Question> := [];
    for i := 0 to |questionTrees|
      invariant MapAll(questionTrees[..i], QuestionOfGroup) == Ok(questions)
    {
      var q := QuestionOfGroup(questionTrees[i]);
      if q.Err? {
        MapAllFailsAt(questionTrees, QuestionOfGroup, questions, i);
        return Err(q.error);
      }
      MapAllSnoc(questionTrees, QuestionOfGroup, questions, i);
      questions := questions + [q.value];
    }
    assert questionTrees[..|questionTrees|] == questionTrees;
    return Ok(questions);
  }

  /** `file.data`: the one field the plugin writes. */
  class FileData {
    var questions: Option<seq<Question>>

    constructor ()
      ensures questions == None
    {
      questions := None;
    }
  }

  /** `transformer(tree, file)`: assigns the questions of the tree to
      `file.data.questions` when the questions region is not empty and no
      question is malformed; otherwise leaves the file alone and reports what
      was thrown, if anything. */
  method Transformer(tree: seq<Node>, file: FileData) returns (thrown: Option<ParseError>)
    modifies file
    ensures Extract(tree).Unassigned? ==> thrown == None && file.questions == old(file.questions)
    ensures Extract(tree).Assigned? ==> thrown == None && file.questions == Some(Extract(tree).questions)
    ensures Extract(tree).Thrown? ==> thrown == Some(Extract(tree).error) && file.questions == old(file.questions)
  {
    var allQuestionNodes := Between(tree, QuestionsMarker);
    if |allQuestionNodes| > 0 {
      var grouped := GroupQuestionNodes(allQuestionNodes);
      if grouped.Err? {
        return Some(grouped.error);
      }
      GroupingIsGroups(grouped.value, allQuestionNodes);
      var questions := BuildQuestions(grouped.value);
      if questions.Err? {
        return Some(questions.error);
      }
      file.questions := Some(questions.value);
    }
    return None;
  }

  // ---------------------------------------------------------------------
  // Properties of the pass

  /** With an empty questions region nothing is assigned, and only then. */
  lemma ExtractUnassigned(tree: seq<Node>)
    ensures Extract(tree) == Unassigned <==> Between(tree, QuestionsMarker) == []
  {
  }

  /** A non-empty region that does not open with a `--text--` node fails with
      the TypeError of the grouping loop, and that error has no other cause. */
  lemma ExtractCrash(tree: seq<Node>)
    ensures Extract(tree) == Thrown(UndefinedQuestionTree) <==>
      Between(tree, QuestionsMarker) != [] && !StartsQuestion(Between(tree, QuestionsMarker)[0])
  {
    var region := Between(tree, QuestionsMarker);
    if region != [] && StartsQuestion(region[0]) {
      var m := MapAll(Groups(region), QuestionOfGroup);
      if m.Err? {
        var i :| 0 <= i < |Groups(region)| && QuestionOfGroup(Groups(region)[i]) == Err(m.error);
      }
    }
  }

  /** Assigned questions: one per `--text--` node of the region (so at least
      one), the i-th being the question of the i-th group. */
  lemma ExtractQuestions(tree: seq<Node>)
    requires Extract(tree).Assigned?
    ensures var region := Between(tree, QuestionsMarker);
      var qs := Extract(tree).questions;
      region != [] && StartsQuestion(region[0]) &&
      |qs| == CountStarts(region) >= 1 &&
      |qs| == |Groups(region)| &&
      forall i :: 0 <= i < |qs| ==> QuestionOfGroup(Groups(region)[i]) == Ok(qs[i])
  {
    var region := Between(tree, QuestionsMarker);
    assert region != [] && StartsQuestion(region[0]);
    var m := MapAll(Groups(region), QuestionOfGroup);
    assert m == Ok(Extract(tree).questions);
    GroupsPartition(region);
    assert CountStarts(region) >= 1;
  }

  /** A thrown question error comes from the first malformed group, and then
      nothing is assigned. */
  lemma ExtractAborts(tree: seq<Node>)
    requires Extract(tree).Thrown? && Extract(tree).error != UndefinedQuestionTree
    ensures var region := Between(tree, QuestionsMarker);
      region != [] && StartsQuestion(region[0]) &&
      exists i :: 0 <= i < |Groups(region)| &&
        QuestionOfGroup(Groups(region)[i]) == Err(Extract(tree).error) &&
        FirstFailure(Groups(region), QuestionOfGroup, i)
  {
  }

  /** The groups of a region opening with `--text--` cover it exactly, in
      order, and each holds one `--text--` node. */
  lemma GroupsPartition(region: seq<Node>)
    requires region != [] && StartsQuestion(region[0])
    ensures Flatten(Groups(region)) == region
    ensures |Groups(region)| == CountStarts(region)
    ensures forall i :: 0 <= i < |Groups(region)| ==> IsQuestionGroup(Groups(region)[i])
  {
    GroupsIsGrouping(region);
    GroupingCount(Groups(region), region);
  }
}
