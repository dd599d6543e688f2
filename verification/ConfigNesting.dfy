// Which entry the loader hangs a line under, told from the indents alone.
module ConfigNesting {
  import opened Options
  import opened ConfigText
  import opened ConfigArena

  // One mark per node: its indent, -1 for the root, None for a comment.
  type Marks = seq<Option<int>>

  function LineMarks(ls: seq<string>): Marks {
    if ls == [] then []
    else
      (match ParseLine(ls[0])
       case Entry(indent, _, _) => [Some(indent)]
       case Comment(_) => [None]
       case _ => []) + LineMarks(ls[1..])
  }

  ghost predicate ValidMarks(marks: Marks) {
    marks != [] && marks[0] == Some(-1) && forall i | 1 <= i < |marks| && marks[i].Some? :: marks[i].value >= 0
  }

  predicate Under(m: Option<int>, bound: Option<int>) {
    m.Some? && (bound.None? || m.value < bound.value)
  }

  // The nearest entry before n, or the root, with an indent below the bound; any entry if there
  // is no bound.
  function Nearest(marks: Marks, n: nat, bound: Option<int>): (r: nat)
    requires ValidMarks(marks) && 1 <= n <= |marks| && (bound.Some? ==> bound.value >= 0)
    ensures r < n && Under(marks[r], bound) && forall j | r < j < n :: !Under(marks[j], bound)
  {
    if Under(marks[n - 1], bound) then n - 1 else Nearest(marks, n - 1, bound)
  }

  lemma {:induction false} NearestIs(marks: Marks, n: nat, bound: Option<int>, r: nat)
    requires ValidMarks(marks) && 1 <= n <= |marks| && (bound.Some? ==> bound.value >= 0)
    requires r < n && Under(marks[r], bound) && forall j | r < j < n :: !Under(marks[j], bound)
    ensures Nearest(marks, n, bound) == r
  {
    hide Under;
    if r < n - 1 {
      NearestIs(marks, n - 1, bound, r);
    }
  }

  // Node i hangs under the nearest node its mark allows, one level deeper; its depth is its
  // indent or one more.
  ghost predicate Nested(nodes: Nodes, marks: Marks, i: nat)
    requires WellFormed(nodes) && ValidMarks(marks) && 1 <= i < |nodes| == |marks|
  {
    && nodes[i].parent == Nearest(marks, i, marks[i])
    && (marks[i].Some? ==>
          && nodes[i].depth - 1 <= marks[i].value <= nodes[i].depth
          && (nodes[i].parent == 0 || marks[nodes[i].parent] == Some(marks[i].value - 1)))
  }

  ghost predicate Inv(l: Loader, marks: Marks) {
    && WellFormed(l.nodes) && ValidMarks(marks) && |marks| == |l.nodes| && l.cfg < |l.nodes|
    && marks[l.cfg].Some? && (forall j | l.cfg < j < |marks| :: marks[j].None?)
    && l.lastIndent == (if l.cfg == 0 then 0 else marks[l.cfg].value)
    && forall i | 1 <= i < |l.nodes| :: Nested(l.nodes, marks, i)
  }

  // Walking up from entry c, with only deeper or equal entries behind it, ends at the nearest one
  // with a smaller indent.
  lemma {:induction false} UpIsNearest(nodes: Nodes, marks: Marks, c: nat, indent: nat, times: nat)
    requires WellFormed(nodes) && ValidMarks(marks) && |marks| == |nodes| && c < |nodes| && marks[c].Some?
    requires forall i | 1 <= i < |nodes| :: Nested(nodes, marks, i)
    requires forall j | c < j < |marks| :: !Under(marks[j], Some(indent))
    requires if c == 0 then indent <= 1 else times == marks[c].value - indent + 1
    ensures var r := Up(nodes, c, times);
            && r == Nearest(marks, |marks|, Some(indent))
            && if r == 0 then indent <= 1 else marks[r] == Some(indent - 1)
    decreases c
  {
    hide WellFormed, Nearest;
    if c == 0 || indent == marks[c].value + 1 {
      NearestIs(marks, |marks|, Some(indent), c);
    } else {
      var p := nodes[c].parent;
      ParentBefore(nodes, c);
      assert Nested(nodes, marks, c);
      assert forall j | p < j < c :: !Under(marks[j], marks[c]);
      UpIsNearest(nodes, marks, p, indent, times - 1);
    }
  }

  lemma {:induction false} ParentBefore(nodes: Nodes, c: nat)
    requires WellFormed(nodes) && 0 < c < |nodes|
    ensures 0 <= nodes[c].parent < c
    ensures nodes[c].parent == 0 ==> nodes[c].depth == 1
  {
  }

  lemma {:induction false} NearestPrefix(marks: Marks, m: Option<int>, n: nat, bound: Option<int>)
    requires ValidMarks(marks) && ValidMarks(marks + [m]) && 1 <= n <= |marks| && (bound.Some? ==> bound.value >= 0)
    ensures Nearest(marks + [m], n, bound) == Nearest(marks, n, bound)
  {
    hide Nearest;
    NearestIs(marks + [m], n, bound, Nearest(marks, n, bound));
  }

  // A new node under node p, which is the nearest allowed.
  lemma {:induction false} AddNested(nodes: Nodes, marks: Marks, p: nat, key: string, val: string, m: Option<int>)
    requires WellFormed(nodes) && ValidMarks(marks) && |marks| == |nodes|
    requires forall i | 1 <= i < |nodes| :: Nested(nodes, marks, i)
    requires m.Some? ==> m.value >= 0
    requires p == Nearest(marks, |marks|, m)
    requires m.Some? ==> if p == 0 then m.value <= 1 else marks[p] == Some(m.value - 1)
    ensures var nodes', marks' := AddNode(nodes, p, key, val), marks + [m];
            && WellFormed(nodes') && ValidMarks(marks')
            && forall i | 1 <= i < |nodes'| :: Nested(nodes', marks', i)
  {
    var nodes', marks' := AddNode(nodes, p, key, val), marks + [m];
    AddWellFormed(nodes, p, key, val);
    AddAgrees(nodes, p, key, val);
    assert ValidMarks(marks');
    NewNested(nodes, marks, p, key, val, m, nodes', marks');
    hide WellFormed, AddNode, Nearest, Under;
    forall i | 1 <= i < |nodes| ensures Nested(nodes', marks', i) {
      ParentBefore(nodes, i);
      NestedKeeps(nodes, nodes', marks, m, i);
    }
  }

  lemma {:induction false} RootDepth(nodes: Nodes)
    requires WellFormed(nodes)
    ensures nodes[0].depth == 0
  {
  }

  lemma {:induction false} NewNested(
    nodes: Nodes, marks: Marks, p: nat, key: string, val: string, m: Option<int>, nodes': Nodes, marks': Marks)
    requires WellFormed(nodes) && ValidMarks(marks) && |marks| == |nodes| && p < |nodes|
    requires p != 0 ==> Nested(nodes, marks, p)
    requires nodes' == AddNode(nodes, p, key, val) && WellFormed(nodes')
    requires marks' == marks + [m] && ValidMarks(marks') && |nodes'| == |marks'|
    requires m.Some? ==> m.value >= 0
    requires p == Nearest(marks, |marks|, m)
    requires m.Some? ==> if p == 0 then m.value <= 1 else marks[p] == Some(m.value - 1)
    ensures Nested(nodes', marks', |nodes|)
  {
    hide WellFormed, AddNode, Nearest;
    RootDepth(nodes);
    AddAgrees(nodes, p, key, val);
    NearestPrefix(marks, m, |nodes|, m);
  }

  lemma {:induction false} NestedKeeps(nodes: Nodes, nodes': Nodes, marks: Marks, m: Option<int>, i: nat)
    requires WellFormed(nodes) && WellFormed(nodes') && ValidMarks(marks) && ValidMarks(marks + [m])
    requires |marks| == |nodes| && |nodes'| == |nodes| + 1 && 1 <= i < |nodes| && 0 <= nodes[i].parent < i
    requires nodes'[i].parent == nodes[i].parent && nodes'[i].depth == nodes[i].depth && Nested(nodes, marks, i)
    ensures Nested(nodes', marks + [m], i)
  {
    hide WellFormed, Nearest;
    NearestPrefix(marks, m, i, marks[i]);
  }

  lemma {:induction false} LoadLineNests(l: Loader, marks: Marks, buf: string)
    requires Inv(l, marks) && LoadLine(l, ParseLine(buf)).Some?
    ensures Inv(LoadLine(l, ParseLine(buf)).value, marks + LineMarks([buf]))
  {
    hide Nearest, ParseLine, WellFormed, AddNode, Up;
    assert WellFormed(l.nodes);
    match ParseLine(buf)
    case Comment(text) =>
      NearestIs(marks, |marks|, None, l.cfg);
      AddNested(l.nodes, marks, l.cfg, "#", text, None);
      AddAgrees(l.nodes, l.cfg, "#", text);
      assert LineMarks([buf]) == [None];
    case Entry(indent, key, val) =>
      var times := if indent <= l.lastIndent then l.lastIndent - indent + 1 else 0;
      var p := Up(l.nodes, l.cfg, times);
      UpIsNearest(l.nodes, marks, l.cfg, indent, times);
      AddNested(l.nodes, marks, p, key, val, Some(indent));
      AddAgrees(l.nodes, p, key, val);
      assert LineMarks([buf]) == [Some(indent)];
    case Empty =>
      assert LineMarks([buf]) == [];
      assert marks + [] == marks;
    case Invalid =>
  }

  lemma {:induction false} MarksAssociate(a: Marks, b: Marks, c: Marks)
    ensures a + (b + c) == a + b + c
  {
  }

  lemma {:induction false} LineMarksFirst(ls: seq<string>)
    ensures ls == [] ==> LineMarks(ls) == []
    ensures ls != [] ==> LineMarks(ls) == LineMarks([ls[0]]) + LineMarks(ls[1..])
  {
    hide ParseLine;
    if ls != [] {
      assert LineMarks([ls[0]][1..]) == [];
    }
  }

  lemma {:induction false} LoadNests(l: Loader, marks: Marks, ls: seq<string>)
    requires Inv(l, marks) && LoadLines(l, ls).Some?
    ensures Inv(LoadLines(l, ls).value, marks + LineMarks(ls))
    decreases |ls|
  {
    hide ParseLine, LoadLine, Nested, WellFormed, ValidMarks, LineMarks;
    LineMarksFirst(ls);
    if ls == [] {
      assert marks + [] == marks;
    } else {
      LoadLineNests(l, marks, ls[0]);
      LoadNests(LoadLine(l, ParseLine(ls[0])).value, marks + LineMarks([ls[0]]), ls[1..]);
      MarksAssociate(marks, LineMarks([ls[0]]), LineMarks(ls[1..]));
    }
  }

  // Main result: in every accepted file each entry hangs under the nearest earlier entry with a
  // smaller indent, or the root; each comment under the entry before it.
  lemma {:induction false} IndentsNest(text: string, i: nat)
    requires LoadLines(BEGIN, Lines(text)).Some?
    ensures var l, marks := LoadLines(BEGIN, Lines(text)).value, [Some(-1)] + LineMarks(Lines(text));
            && |l.nodes| == |marks| && ValidMarks(marks)
            && (1 <= i < |l.nodes| ==> Nested(l.nodes, marks, i))
  {
    hide Lines, LoadLines, LineMarks;
    LoadNests(BEGIN, [Some(-1)], Lines(text));
  }
}
