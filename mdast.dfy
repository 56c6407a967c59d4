/** The markdown syntax tree the challenge parser works on, and concrete
    stand-ins for the tree utilities it imports (`between-headings`,
    `before-heading`, `unist-util-find`, `mdast-to-html`,
    `split-on-thematic-break`), whose source is not part of this model.
    Every stand-in works on the ordered children of one root node. */
module Mdast {
  import opened Wrappers

  /** Heading levels of markdown, `#` to `######`. */
  type Depth = d: int | 1 <= d <= 6 witness 1

  datatype Kind = Heading(depth: Depth) | Paragraph | Text | ThematicBreak

  /** A node: its type, its literal `value` (text nodes carry one) and its
      children (an absent `children` array is the empty sequence). */
  datatype Node = Node(kind: Kind, value: Option<string>, children: seq<Node>)

  const QuestionsMarker := "--questions--"
  const TextMarker := "--text--"
  const AnswersMarker := "--answers--"
  const FeedbackMarker := "--feedback--"
  const SolutionMarker := "--video-solution--"

  /** The shape of every section marker: a literal wrapped in `--`. */
  predicate IsMarkerText(s: string)
  {
    |s| >= 4 && s[..2] == "--" && s[|s| - 2..] == "--"
  }

  /** The `value` of a node's first child, if it has one. */
  function FirstChildValue(n: Node): Option<string>
  {
    if |n.children| > 0 then n.children[0].value else None
  }

  /** A heading spelling exactly the marker `m`, such as `## --text--`. */
  predicate IsHeadingFor(n: Node, m: string)
  {
    n.kind.Heading? && FirstChildValue(n) == Some(m)
  }

  /** A marker heading no deeper than `depth`: where a region that was opened
      by a heading of that depth ends. */
  predicate IsBoundary(n: Node, depth: Depth)
  {
    n.kind.Heading? && n.kind.depth <= depth &&
    FirstChildValue(n).Some? && IsMarkerText(FirstChildValue(n).value)
  }

  /** Index of the first heading for `m` at or after `from`. */
  function FindHeading(nodes: seq<Node>, m: string, from: nat): (r: Option<nat>)
    requires from <= |nodes|
    ensures r.Some? ==> from <= r.value < |nodes| && IsHeadingFor(nodes[r.value], m)
    ensures forall j :: from <= j < |nodes| && (r.None? || j < r.value) ==> !IsHeadingFor(nodes[j], m)
    decreases |nodes| - from
  {
    if from == |nodes| then None
    else if IsHeadingFor(nodes[from], m) then Some(from)
    else FindHeading(nodes, m, from + 1)
  }

  /** Index of the first boundary of `depth` at or after `from`, or the end. */
  function RegionEnd(nodes: seq<Node>, from: nat, depth: Depth): (r: nat)
    requires from <= |nodes|
    ensures from <= r <= |nodes|
    ensures r < |nodes| ==> IsBoundary(nodes[r], depth)
    ensures forall j :: from <= j < r ==> !IsBoundary(nodes[j], depth)
    decreases |nodes| - from
  {
    if from == |nodes| || IsBoundary(nodes[from], depth) then from
    else RegionEnd(nodes, from + 1, depth)
  }

  /** `getAllBetween(tree, m)`: the nodes after the first heading for `m`, up
      to the next marker heading of the same or a higher level; nothing when
      there is no heading for `m`. */
  function Between(nodes: seq<Node>, m: string): (r: seq<Node>)
    ensures FindHeading(nodes, m, 0).None? ==> r == []
    ensures FindHeading(nodes, m, 0).Some? ==>
              var i := FindHeading(nodes, m, 0).value;
              var d := nodes[i].kind.depth;
              var e := i + 1 + |r|;
              e <= |nodes| && r == nodes[i + 1..e] &&
              (forall k :: 0 <= k < |r| ==> !IsBoundary(r[k], d)) &&
              (e == |nodes| || IsBoundary(nodes[e], d))
  {
    match FindHeading(nodes, m, 0)
    case None => []
    case Some(i) => nodes[i + 1..RegionEnd(nodes, i + 1, nodes[i].kind.depth)]
  }

  /** `getAllBefore(tree, m)`: the nodes before the first heading for `m`;
      nothing when there is none. */
  function Before(nodes: seq<Node>, m: string): (r: seq<Node>)
    ensures forall k :: 0 <= k < |r| ==> !IsHeadingFor(r[k], m)
    ensures |r| <= |nodes| && r == nodes[..|r|]
    ensures FindHeading(nodes, m, 0).Some? ==> |r| < |nodes| && IsHeadingFor(nodes[|r|], m)
    ensures FindHeading(nodes, m, 0).None? ==> r == []
  {
    match FindHeading(nodes, m, 0)
    case None => []
    case Some(i) => nodes[..i]
  }

  /** `find(root(nodes), {value: v})` succeeds: some node of the tree, at any
      depth, has the value `v`. */
  predicate ContainsValue(nodes: seq<Node>, v: string)
    ensures ContainsValue(nodes, v) <==>
              exists i :: 0 <= i < |nodes| && (nodes[i].value == Some(v) || ContainsValue(nodes[i].children, v))
    decreases nodes
  {
    nodes != [] &&
    (nodes[0].value == Some(v) || ContainsValue(nodes[0].children, v) || ContainsValue(nodes[1..], v))
  }

  /** Some node of the tree, at any depth, has a value shaped like a marker. */
  predicate ContainsMarkerText(nodes: seq<Node>)
    decreases nodes
  {
    nodes != [] &&
    ((nodes[0].value.Some? && IsMarkerText(nodes[0].value.value)) ||
     ContainsMarkerText(nodes[0].children) || ContainsMarkerText(nodes[1..]))
  }

  /** The search finds a marker heading for `v` wherever it stands. */
  lemma MarkerHeadingFound(nodes: seq<Node>, i: nat, v: string)
    requires i < |nodes| && nodes[i].kind.Heading? && nodes[i] == MarkerHeading(nodes[i].kind.depth, v)
    ensures ContainsValue(nodes, v)
  {
    assert ContainsValue(nodes[i].children, v) by {
      assert nodes[i].children[0].value == Some(v);
    }
  }

  /** Content that is neither a heading nor a thematic break and spells no
      marker anywhere inside it: prompt, answer and feedback text. */
  predicate Plain(n: Node)
  {
    (n.kind == Paragraph || n.kind == Text) && !ContainsMarkerText([n])
  }

  predicate AllPlain(nodes: seq<Node>)
  {
    forall i :: 0 <= i < |nodes| ==> Plain(nodes[i])
  }

  lemma {:induction false} NoMarkerTextNoValue(nodes: seq<Node>, v: string)
    requires !ContainsMarkerText(nodes) && IsMarkerText(v)
    ensures !ContainsValue(nodes, v)
    decreases nodes
  {
    if nodes != [] {
      NoMarkerTextNoValue(nodes[0].children, v);
      NoMarkerTextNoValue(nodes[1..], v);
    }
  }

  lemma {:induction false} ContainsMarkerTextAppend(a: seq<Node>, b: seq<Node>)
    ensures ContainsMarkerText(a + b) <==> ContainsMarkerText(a) || ContainsMarkerText(b)
    decreases a
  {
    if a != [] {
      assert (a + b)[0] == a[0];
      assert (a + b)[1..] == a[1..] + b;
      ContainsMarkerTextAppend(a[1..], b);
    } else {
      assert a + b == b;
    }
  }

  /** Plain content carries no marker text at any depth. */
  lemma {:induction false} AllPlainNoMarkerText(nodes: seq<Node>)
    requires AllPlain(nodes)
    ensures !ContainsMarkerText(nodes)
    decreases |nodes|
  {
    if nodes != [] {
      assert nodes == [nodes[0]] + nodes[1..];
      ContainsMarkerTextAppend([nodes[0]], nodes[1..]);
      AllPlainNoMarkerText(nodes[1..]);
    }
  }

  /** A plain node starts no section: its first child spells no marker. */
  lemma PlainFirstChild(n: Node)
    requires Plain(n)
    ensures FirstChildValue(n).None? || !IsMarkerText(FirstChildValue(n).value)
  {
    if |n.children| > 0 {
      assert !ContainsMarkerText(n.children);
    }
  }

  /** A marker heading such as `## --answers--`: a heading of depth `d`
      whose only child is the text `m`. */
  function MarkerHeading(d: Depth, m: string): Node
  {
    Node(Heading(d), None, [Node(Text, Some(m), [])])
  }

  /** The region utilities on a sequence laid out as `pre`, a heading for
      `m`, `body` and `post`: when no node of `pre` is a heading for `m`, no
      node of `body` closes the region and `post` starts with a boundary or
      is empty, `getAllBetween` yields `body` and `getAllBefore` yields `pre`. */
  lemma {:induction false} RegionOf(pre: seq<Node>, d: Depth, m: string, body: seq<Node>, post: seq<Node>)
    requires forall i :: 0 <= i < |pre| ==> !IsHeadingFor(pre[i], m)
    requires forall i :: 0 <= i < |body| ==> !IsBoundary(body[i], d)
    requires post == [] || IsBoundary(post[0], d)
    ensures Between(pre + [MarkerHeading(d, m)] + body + post, m) == body
    ensures Before(pre + [MarkerHeading(d, m)] + body + post, m) == pre
  {
    var nodes := pre + [MarkerHeading(d, m)] + body + post;
    var k := |pre|;
    assert forall i :: 0 <= i < k ==> nodes[i] == pre[i];
    assert nodes[k] == MarkerHeading(d, m);
    assert IsHeadingFor(nodes[k], m);
    var found := FindHeading(nodes, m, 0);
    assert found == Some(k);
    assert forall i :: 0 <= i < |body| ==> nodes[k + 1 + i] == body[i];
    var e := k + 1 + |body|;
    assert e < |nodes| ==> nodes[e] == post[0];
    var end := RegionEnd(nodes, k + 1, d);
    assert end == e;
    assert nodes[k + 1..e] == body;
    assert nodes[..k] == pre;
  }

  // ---------------------------------------------------------------------
  // Rendering (mdast-to-html)

  function HeadingTag(d: Depth): string
  {
    "h" + [('0' as int + d) as char]
  }

  function OpenTag(k: Kind): string
  {
    match k
    case Heading(d) => "<" + HeadingTag(d) + ">"
    case Paragraph => "<p>"
    case Text => ""
    case ThematicBreak => "<hr>"
  }

  function CloseTag(k: Kind): string
  {
    match k
    case Heading(d) => "</" + HeadingTag(d) + ">"
    case Paragraph => "</p>"
    case Text => ""
    case ThematicBreak => ""
  }

  /** `mdastToHtml(nodes)`: a rendering of the nodes in order, each as its
      opening tag, its literal value, its rendered children and its closing
      tag. */
  function Render(nodes: seq<Node>): (r: string)
    ensures nodes == [] ==> r == ""
    ensures nodes != [] && !nodes[0].kind.Text? ==> r != ""
    decreases nodes
  {
    if nodes == [] then ""
    else
      OpenTag(nodes[0].kind) +
      (match nodes[0].value case Some(s) => s case None => "") +
      Render(nodes[0].children) + CloseTag(nodes[0].kind) +
      Render(nodes[1..])
  }

  /** Rendering is done node by node: the render of two runs of nodes is the
      two renders one after the other. */
  lemma {:induction false} RenderAppend(a: seq<Node>, b: seq<Node>)
    ensures Render(a + b) == Render(a) + Render(b)
    decreases |a|
  {
    if a == [] {
      assert a + b == b;
    } else {
      assert (a + b)[0] == a[0];
      assert (a + b)[1..] == a[1..] + b;
      RenderAppend(a[1..], b);
    }
  }

  // ---------------------------------------------------------------------
  // split-on-thematic-break

  /** The canonical thematic break node `---`. */
  const Break := Node(ThematicBreak, None, [])

  /** `splitOnThematicBreak(nodes)`: cuts the nodes at every thematic break,
      dropping the breaks; like a reduce that starts from one empty group,
      it always yields at least one group. */
  function SplitOnThematicBreak(nodes: seq<Node>): (r: seq<seq<Node>>)
    ensures |r| >= 1
    decreases |nodes|
  {
    if nodes == [] then [[]]
    else
      var rest := SplitOnThematicBreak(nodes[1..]);
      if nodes[0].kind == ThematicBreak then [[]] + rest
      else [[nodes[0]] + rest[0]] + rest[1..]
  }

  function CountBreaks(nodes: seq<Node>): nat
    decreases |nodes|
  {
    if nodes == [] then 0
    else (if nodes[0].kind == ThematicBreak then 1 else 0) + CountBreaks(nodes[1..])
  }

  predicate NoBreaks(nodes: seq<Node>)
  {
    forall i :: 0 <= i < |nodes| ==> nodes[i].kind != ThematicBreak
  }

  /** Joins groups with a thematic break between each two neighbours. */
  function JoinWithBreaks(groups: seq<seq<Node>>): seq<Node>
    decreases |groups|
  {
    if groups == [] then []
    else if |groups| == 1 then groups[0]
    else groups[0] + [Break] + JoinWithBreaks(groups[1..])
  }

  /** Every node of a join is a node of some group or a break. */
  lemma {:induction false} JoinWithBreaksEvery(groups: seq<seq<Node>>, P: Node -> bool)
    requires |groups| >= 1 && P(Break)
    requires forall g, k :: 0 <= g < |groups| && 0 <= k < |groups[g]| ==> P(groups[g][k])
    ensures forall i :: 0 <= i < |JoinWithBreaks(groups)| ==> P(JoinWithBreaks(groups)[i])
    decreases |groups|
  {
    if |groups| > 1 {
      assert forall g, k :: 0 <= g < |groups[1..]| && 0 <= k < |groups[1..][g]| ==>
        groups[1..][g][k] == groups[g + 1][k];
      JoinWithBreaksEvery(groups[1..], P);
      var rest := JoinWithBreaks(groups[1..]);
      var j := groups[0] + [Break] + rest;
      assert forall i :: 0 <= i < |j| ==> j[i] == (if i < |groups[0]| then groups[0][i] else if i == |groups[0]| then Break else rest[i - |groups[0]| - 1]);
    }
  }

  /** One group per break plus one, and no group holds a break. */
  lemma {:induction false} SplitShape(nodes: seq<Node>)
    ensures |SplitOnThematicBreak(nodes)| == CountBreaks(nodes) + 1
    ensures forall g :: 0 <= g < |SplitOnThematicBreak(nodes)| ==> NoBreaks(SplitOnThematicBreak(nodes)[g])
    decreases |nodes|
  {
    if nodes != [] {
      SplitShape(nodes[1..]);
      var rest := SplitOnThematicBreak(nodes[1..]);
      if nodes[0].kind != ThematicBreak {
        var first := [nodes[0]] + rest[0];
        assert forall i :: 1 <= i < |first| ==> first[i] == rest[0][i - 1];
        assert NoBreaks(first);
      }
    }
  }

  /** Splitting undoes joining, for groups free of breaks. */
  lemma {:induction false} SplitJoin(groups: seq<seq<Node>>)
    requires |groups| >= 1
    requires forall g :: 0 <= g < |groups| ==> NoBreaks(groups[g])
    ensures SplitOnThematicBreak(JoinWithBreaks(groups)) == groups
    decreases |groups|
  {
    if |groups| == 1 {
      SplitNoBreaks(groups[0], []);
      assert groups[0] + [] == groups[0];
      assert groups == [groups[0]];
    } else {
      var tail := [Break] + JoinWithBreaks(groups[1..]);
      assert JoinWithBreaks(groups) == groups[0] + tail;
      SplitJoin(groups[1..]);
      SplitBreakFirst(JoinWithBreaks(groups[1..]));
      SplitNoBreaks(groups[0], tail);
      assert groups[0] + [] == groups[0];
      assert groups == [groups[0]] + groups[1..];
    }
  }

  lemma SplitBreakFirst(rest: seq<Node>)
    ensures SplitOnThematicBreak([Break] + rest) == [[]] + SplitOnThematicBreak(rest)
  {
    assert ([Break] + rest)[1..] == rest;
  }

  /** Prepending break-free nodes extends the first group only. */
  lemma {:induction false} SplitNoBreaks(a: seq<Node>, rest: seq<Node>)
    requires NoBreaks(a)
    requires rest == [] || rest[0].kind == ThematicBreak
    ensures SplitOnThematicBreak(a + rest) ==
            [a + SplitOnThematicBreak(rest)[0]] + SplitOnThematicBreak(rest)[1..]
    decreases |a|
  {
    if a == [] {
      assert a + rest == rest;
      var r := SplitOnThematicBreak(rest);
      assert r == [r[0]] + r[1..];
      assert a + r[0] == r[0];
    } else {
      assert (a + rest)[1..] == a[1..] + rest;
      assert (a + rest)[0] == a[0];
      SplitNoBreaks(a[1..], rest);
      assert [a[0]] + (a[1..] + SplitOnThematicBreak(rest)[0]) == a + SplitOnThematicBreak(rest)[0];
    }
  }
}
