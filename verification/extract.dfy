/** Body-text extraction of a publication page (`get_contents`).

    The parsed HTML tree is abstracted to its text nodes in document order,
    each paired with the tag name of its parent element. */
module Extract {
  import opened Options
  import opened Seqs

  datatype TextNode = TextNode(parent: string, text: string)

  /** Parent tags whose direct text is never body content (15 entries). */
  const ParentBlacklist: seq<string> :=
    ["[document]", "html", "head", "style", "script", "body", "div", "a",
     "section", "tr", "td", "label", "ul", "header", "aside"]

  /** A node contributes to the content when its parent is not blacklisted and
      its raw text (untrimmed, counted in code points) is longer than 10. */
  predicate Qualifies(n: TextNode)
  {
    n.parent !in ParentBlacklist && |n.text| > 10
  }

  /** Positions of the qualifying nodes, ascending: exactly the qualifying ones. */
  function KeptIndices(nodes: seq<TextNode>): (r: seq<nat>)
    ensures forall j :: 0 <= j < |r| ==> r[j] < |nodes| && Qualifies(nodes[r[j]])
    ensures forall j, k :: 0 <= j < k < |r| ==> r[j] < r[k]
    ensures forall i :: 0 <= i < |nodes| && Qualifies(nodes[i]) ==> i in r
  {
    if nodes == [] then []
    else
      var front := KeptIndices(nodes[..|nodes| - 1]);
      assert forall j :: 0 <= j < |front| ==> nodes[front[j]] == nodes[..|nodes| - 1][front[j]];
      if Qualifies(nodes[|nodes| - 1]) then front + [|nodes| - 1] else front
  }

  /** Texts of the qualifying nodes, in document order. */
  function Fragments(nodes: seq<TextNode>): seq<string>
  {
    if nodes == [] then []
    else
      var last := nodes[|nodes| - 1];
      Fragments(nodes[..|nodes| - 1]) + (if Qualifies(last) then [last.text] else [])
  }

  /** Each fragment followed by one space. */
  function Pieces(frags: seq<string>): (r: seq<string>)
    ensures |r| == |frags|
  {
    seq(|frags|, j requires 0 <= j < |frags| => frags[j] + " ")
  }

  /** The content extracted from a list of text nodes. */
  function Render(nodes: seq<TextNode>): string
  {
    Concat(Pieces(Fragments(nodes)))
  }

  /** Content of a page; `None` stands for a parse that raised, which the
      script maps to the empty string. */
  function Contents(nodes: Option<seq<TextNode>>): (r: string)
    ensures nodes.None? ==> r == ""
  {
    match nodes
    case None => ""
    case Some(ns) => Render(ns)
  }

  /** The script's loop: walk the text nodes, appending each qualifying one
      followed by a space. */
  method GetContents(nodes: Option<seq<TextNode>>) returns (content: string)
    ensures nodes.None? ==> content == ""
    ensures nodes.Some? ==> content == Concat(Pieces(Fragments(nodes.value)))
  {
    if nodes.None? {
      return "";
    }
    var ns := nodes.value;
    content := "";
    var i := 0;
    while i < |ns|
      invariant 0 <= i <= |ns|
      invariant content == Render(ns[..i])
    {
      var t := ns[i];
      RenderSnoc(ns[..i], t);
      assert ns[..i + 1] == ns[..i] + [t];
      if Qualifies(t) {
        content := content + t.text + " ";
      }
      i := i + 1;
    }
    assert ns[..i] == ns;
  }

  /** Appending one node appends its text and a space exactly when it qualifies. */
  lemma RenderSnoc(nodes: seq<TextNode>, t: TextNode)
    ensures Render(nodes + [t]) == Render(nodes) + (if Qualifies(t) then t.text + " " else "")
  {
    var all := nodes + [t];
    assert all[..|all| - 1] == nodes;
    var f := Fragments(nodes);
    if Qualifies(t) {
      assert Pieces(f + [t.text]) == Pieces(f) + [t.text + " "];
      ConcatAppend(Pieces(f), [t.text + " "]);
      assert Concat([t.text + " "]) == t.text + " " by {
        assert [t.text + " "][..0] == [];
      }
    } else {
      assert f + [] == f;
    }
  }

  /** The fragments are the texts at the kept positions, one for one. */
  lemma {:induction false} FragmentsAtKeptIndices(nodes: seq<TextNode>)
    ensures |Fragments(nodes)| == |KeptIndices(nodes)|
    ensures forall j :: 0 <= j < |Fragments(nodes)| ==>
      Fragments(nodes)[j] == nodes[KeptIndices(nodes)[j]].text
  {
    if nodes != [] {
      var front := nodes[..|nodes| - 1];
      FragmentsAtKeptIndices(front);
      forall j | 0 <= j < |KeptIndices(front)|
        ensures nodes[KeptIndices(front)[j]] == front[KeptIndices(front)[j]]
      {
      }
    }
  }

  /** Layout of the content: fragment `j` is the text of the `j`-th qualifying
      node, sits at its offset, and is followed by exactly one space. */
  lemma ContentLayout(nodes: seq<TextNode>, j: nat)
    requires j < |Fragments(nodes)|
    ensures var frags := Fragments(nodes);
            var at := Offset(Pieces(frags), j);
            && j < |KeptIndices(nodes)|
            && frags[j] == nodes[KeptIndices(nodes)[j]].text
            && Qualifies(nodes[KeptIndices(nodes)[j]])
            && at + |frags[j]| < |Render(nodes)|
            && Render(nodes)[at .. at + |frags[j]|] == frags[j]
            && Render(nodes)[at + |frags[j]|] == ' '
  {
    FragmentsAtKeptIndices(nodes);
    var frags := Fragments(nodes);
    var ps := Pieces(frags);
    ConcatPart(ps, j);
    var at := Offset(ps, j);
    var r := Render(nodes);
    assert r[at .. at + |ps[j]|] == frags[j] + " ";
    assert r[at .. at + |frags[j]|] == (frags[j] + " ")[..|frags[j]|];
    assert r[at + |frags[j]|] == (frags[j] + " ")[|frags[j]|];
  }

  /** The content is empty exactly when no text node qualifies. */
  lemma {:induction false} RenderEmptyIff(nodes: seq<TextNode>)
    ensures Render(nodes) == "" <==> forall i :: 0 <= i < |nodes| ==> !Qualifies(nodes[i])
  {
    if nodes != [] {
      var front := nodes[..|nodes| - 1];
      var t := nodes[|nodes| - 1];
      assert nodes == front + [t];
      RenderSnoc(front, t);
      RenderEmptyIff(front);
      assert forall i :: 0 <= i < |front| ==> front[i] == nodes[i];
    } else {
      assert Fragments(nodes) == [];
      assert Pieces([]) == [];
    }
  }

  /** Document order: the content of a concatenated node list is the
      concatenation of the contents. */
  lemma {:induction false} RenderAppend(a: seq<TextNode>, b: seq<TextNode>)
    ensures Render(a + b) == Render(a) + Render(b)
    decreases |b|
  {
    if b == [] {
      assert a + b == a;
      RenderEmptyIff(b);
    } else {
      var b' := b[..|b| - 1];
      var t := b[|b| - 1];
      assert a + b == (a + b') + [t];
      assert b == b' + [t];
      RenderAppend(a, b');
      RenderSnoc(a + b', t);
      RenderSnoc(b', t);
    }
  }

  /** The length check is on the raw text: eleven characters of which only
      three are not spaces still qualify. */
  lemma RawLengthCounts()
    ensures Qualifies(TextNode("p", "    abc    "))
    ensures Render([TextNode("p", "    abc    ")]) == "    abc     "
  {
    RenderSnoc([], TextNode("p", "    abc    "));
    RenderEmptyIff([]);
  }
}
