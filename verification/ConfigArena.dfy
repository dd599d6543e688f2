// The nodes of a configuration and their pointers, in the order of creation: what the methods
// of Config do to them, and what that means for the tree they form.
module ConfigArena {
  import opened Options
  import opened ConfigText
  import opened ConfigTree

  // parent is -1 for NULL; children are positions in the list of nodes.
  datatype Node = Node(parent: int, depth: nat, key: string, val: string, children: seq<nat>)

  type Nodes = seq<Node>

  const FIRST: Nodes := [Node(-1, 0, "root", "", [])]

  // The pointers make a tree: parent and children agree, and children come after their parent.
  ghost predicate WellFormed(nodes: Nodes) {
    && nodes != [] && nodes[0].parent == -1 && nodes[0].depth == 0
    && (forall i | 1 <= i < |nodes| ::
          0 <= nodes[i].parent < i && nodes[i].depth == nodes[nodes[i].parent].depth + 1)
    && (forall i | 0 <= i < |nodes| :: forall j | 0 <= j < |nodes[i].children| ::
          i < nodes[i].children[j] < |nodes| && nodes[nodes[i].children[j]].parent == i)
  }

  // Config::add_child on node i; the new node is the last of the list.
  function AddNode(nodes: Nodes, i: nat, key: string, val: string): Nodes
    requires i < |nodes|
  {
    nodes[i := nodes[i].(children := nodes[i].children + [|nodes|])]
    + [Node(i, nodes[i].depth + 1, key, val, [])]
  }

  lemma {:induction false} AddWellFormed(nodes: Nodes, i: nat, key: string, val: string)
    requires WellFormed(nodes) && i < |nodes|
    ensures WellFormed(AddNode(nodes, i, key, val))
  {
    var nodes' := AddNode(nodes, i, key, val);
    assert forall x | 0 <= x < |nodes| && x != i :: nodes'[x] == nodes[x];
  }

  // The tree under node i.
  function TreeOf(nodes: Nodes, i: nat): Tree
    requires WellFormed(nodes) && i < |nodes|
    decreases |nodes| - i
  {
    var cs := nodes[i].children;
    Tree(nodes[i].key, nodes[i].val, seq(|cs|, j requires 0 <= j < |cs| => TreeOf(nodes, cs[j])))
  }

  // ---------- The loader ----------

  datatype Loader = Loader(nodes: Nodes, cfg: nat, lastIndent: nat)

  const BEGIN := Loader(FIRST, 0, 0)

  // cfg after `times` moves to the parent; the root stays.
  function Up(nodes: Nodes, cfg: nat, times: nat): (r: nat)
    requires WellFormed(nodes) && cfg < |nodes|
    ensures r <= cfg
    decreases times
  {
    if times == 0 || cfg == 0 then cfg else Up(nodes, nodes[cfg].parent, times - 1)
  }

  function LoadLine(l: Loader, line: Line): (r: Option<Loader>)
    requires WellFormed(l.nodes) && l.cfg < |l.nodes|
    ensures r.Some? ==> WellFormed(r.value.nodes) && r.value.cfg < |r.value.nodes|
  {
    match line
    case Empty => Some(l)
    case Comment(text) =>
      AddWellFormed(l.nodes, l.cfg, "#", text);
      Some(l.(nodes := AddNode(l.nodes, l.cfg, "#", text)))
    case Entry(indent, key, val) =>
      if indent > l.lastIndent + 1 then None
      else
        var cfg := Up(l.nodes, l.cfg, if indent <= l.lastIndent then l.lastIndent - indent + 1 else 0);
        AddWellFormed(l.nodes, cfg, key, val);
        Some(Loader(AddNode(l.nodes, cfg, key, val), |l.nodes|, indent))
    case Invalid => None
  }

  function LoadLines(l: Loader, ls: seq<string>): (r: Option<Loader>)
    requires WellFormed(l.nodes) && l.cfg < |l.nodes|
    ensures r.Some? ==> WellFormed(r.value.nodes) && r.value.cfg < |r.value.nodes|
    decreases |ls|
  {
    if ls == [] then Some(l)
    else
      var next := LoadLine(l, ParseLine(ls[0]));
      if next == None then None else LoadLines(next.value, ls[1..])
  }

  // ---------- The pointers build the tree of the fold ----------

  // All nodes under i (and i) come before node m.
  ghost predicate Within(nodes: Nodes, i: nat, m: nat)
    requires WellFormed(nodes) && i < |nodes|
    decreases |nodes| - i
  {
    i < m && forall j | 0 <= j < |nodes[i].children| :: Within(nodes, nodes[i].children[j], m)
  }

  lemma {:induction false} WithinMore(nodes: Nodes, i: nat, m: nat, m': nat)
    requires WellFormed(nodes) && i < |nodes| && m <= m' && Within(nodes, i, m)
    ensures Within(nodes, i, m')
    decreases |nodes| - i
  {
    forall j | 0 <= j < |nodes[i].children| ensures Within(nodes, nodes[i].children[j], m') {
      WithinMore(nodes, nodes[i].children[j], m, m');
    }
  }

  // A subtree depends on its own nodes only.
  lemma {:induction false} Untouched(nodes: Nodes, nodes': Nodes, i: nat, m: nat)
    requires WellFormed(nodes) && WellFormed(nodes') && i < |nodes| && |nodes| <= |nodes'| && m <= |nodes|
    requires Within(nodes, i, m) && forall x | i <= x < m :: nodes'[x] == nodes[x]
    ensures Within(nodes', i, m) && TreeOf(nodes', i) == TreeOf(nodes, i)
    decreases |nodes| - i
  {
    hide WellFormed;
    var cs := nodes[i].children;
    forall j | 0 <= j < |cs|
      ensures i < cs[j] < |nodes|
      ensures Within(nodes', cs[j], m) && TreeOf(nodes', cs[j]) == TreeOf(nodes, cs[j])
    {
      ChildAfter(nodes, i, j);
      Untouched(nodes, nodes', cs[j], m);
    }
  }

  lemma {:induction false} ChildAfter(nodes: Nodes, i: nat, j: nat)
    requires WellFormed(nodes) && i < |nodes| && j < |nodes[i].children|
    ensures i < nodes[i].children[j] < |nodes|
  {
  }

  // Node c is the open node t: its first |t.kids| children are done and lie before node m.
  ghost predicate Open(nodes: Nodes, c: nat, t: Tree, m: nat)
    requires WellFormed(nodes) && c < |nodes|
  {
    && nodes[c].key == t.key && nodes[c].val == t.val && |t.kids| <= |nodes[c].children|
    && forall j | 0 <= j < |t.kids| ::
         Within(nodes, nodes[c].children[j], m) && TreeOf(nodes, nodes[c].children[j]) == t.kids[j]
  }

  // The ancestors of c are the open nodes `above`, each holding the next one as its last child.
  ghost predicate Chain(nodes: Nodes, c: nat, above: seq<Tree>)
    requires WellFormed(nodes) && c < |nodes|
    decreases c
  {
    if c == 0 then above == []
    else
      && above != []
      && var p, t := nodes[c].parent, above[|above| - 1];
         Open(nodes, p, t, c) && nodes[p].children == nodes[p].children[..|t.kids|] + [c] &&
         Chain(nodes, p, above[..|above| - 1])
  }

  // The cursor of the loader and the spine of the fold describe the same partial tree.
  ghost predicate Sim(nodes: Nodes, cfg: nat, spine: seq<Tree>) {
    && WellFormed(nodes) && cfg < |nodes| && spine != []
    && var last := |spine| - 1;
       Open(nodes, cfg, spine[last], |nodes|) && |nodes[cfg].children| == |spine[last].kids| &&
       Chain(nodes, cfg, spine[..last])
  }

  lemma {:induction false} OpenDone(nodes: Nodes, c: nat, t: Tree, m: nat)
    requires WellFormed(nodes) && c < |nodes| && c < m
    requires Open(nodes, c, t, m) && |nodes[c].children| == |t.kids|
    ensures TreeOf(nodes, c) == t && Within(nodes, c, m)
  {
    hide WellFormed;
    assert TreeOf(nodes, c).kids == t.kids;
  }

  // A done node c, the last child of the open node p, is one more done child of p.
  lemma {:induction false} OpenAdd(nodes: Nodes, p: nat, t: Tree, c: nat, kid: Tree, m: nat)
    requires WellFormed(nodes) && p < |nodes| && c < |nodes| && c <= m
    requires Open(nodes, p, t, c) && nodes[p].children == nodes[p].children[..|t.kids|] + [c]
    requires Within(nodes, c, m) && TreeOf(nodes, c) == kid
    ensures Open(nodes, p, t.Add(kid), m) && |nodes[p].children| == |t.kids| + 1
  {
    hide WellFormed, TreeOf;
    var t' := t.Add(kid);
    forall j | 0 <= j < |t'.kids|
      ensures Within(nodes, nodes[p].children[j], m) && TreeOf(nodes, nodes[p].children[j]) == t'.kids[j]
    {
      if j < |t.kids| {
        WithinMore(nodes, nodes[p].children[j], c, m);
      }
    }
  }

  lemma {:induction false} PopLast(spine: seq<Tree>)
    requires |spine| >= 2
    ensures var n := |spine| - 2;
            PopTo(spine, n + 1) == spine[..n] + [spine[n].Add(spine[n + 1])]
  {
  }

  lemma {:induction false} ChainStep(nodes: Nodes, c: nat, above: seq<Tree>)
    requires WellFormed(nodes) && 0 < c < |nodes| && Chain(nodes, c, above)
    ensures 0 <= nodes[c].parent < c && above != []
    ensures var p, t := nodes[c].parent, above[|above| - 1];
            Open(nodes, p, t, c) && nodes[p].children == nodes[p].children[..|t.kids|] + [c] &&
            Chain(nodes, p, above[..|above| - 1])
  {
  }

  lemma {:induction false} SimPop(nodes: Nodes, cfg: nat, spine: seq<Tree>)
    requires Sim(nodes, cfg, spine) && cfg != 0
    ensures 0 <= nodes[cfg].parent < cfg
    ensures |spine| >= 2 && Sim(nodes, nodes[cfg].parent, PopTo(spine, |spine| - 1))
  {
    hide Within, TreeOf, PopTo, Open, Chain, WellFormed;
    var last, p := |spine| - 1, nodes[cfg].parent;
    OpenDone(nodes, cfg, spine[last], |nodes|);
    ChainStep(nodes, cfg, spine[..last]);
    assert spine[..last][last - 1] == spine[last - 1] && spine[..last][..last - 1] == spine[..last - 1];
    OpenAdd(nodes, p, spine[last - 1], cfg, spine[last], |nodes|);
    PopLast(spine);
    assert PopTo(spine, last)[last - 1] == spine[last - 1].Add(spine[last]);
  }

  lemma {:induction false} SimUp(nodes: Nodes, cfg: nat, spine: seq<Tree>, times: nat)
    requires Sim(nodes, cfg, spine)
    ensures Sim(nodes, Up(nodes, cfg, times), PopTo(spine, if |spine| - times >= 1 then |spine| - times else 1))
    decreases times
  {
    hide WellFormed, Open, Chain;
    if times > 0 && cfg != 0 {
      SimPop(nodes, cfg, spine);
      SimUp(nodes, nodes[cfg].parent, PopTo(spine, |spine| - 1), times - 1);
      PopPop(spine, |spine| - 1, if |spine| - times >= 1 then |spine| - times else 1);
    } else if cfg == 0 {
      ChainRoot(nodes, spine);
    }
  }

  lemma {:induction false} ChainRoot(nodes: Nodes, spine: seq<Tree>)
    requires Sim(nodes, 0, spine)
    ensures |spine| == 1
  {
    assert spine[..|spine| - 1] == [];
  }

  lemma {:induction false} ChainKeeps(nodes: Nodes, nodes': Nodes, c: nat, above: seq<Tree>)
    requires WellFormed(nodes) && WellFormed(nodes') && c < |nodes| <= |nodes'|
    requires nodes'[c].parent == nodes[c].parent && forall x | 0 <= x < c :: nodes'[x] == nodes[x]
    requires Chain(nodes, c, above)
    ensures Chain(nodes', c, above)
    decreases c
  {
    hide Within, TreeOf;
    if c != 0 {
      var p, t := nodes[c].parent, above[|above| - 1];
      OpenKeeps(nodes, nodes', p, t, c);
      ChainKeeps(nodes, nodes', p, above[..|above| - 1]);
    }
  }

  // The done children of an open node stay done while only c and later nodes change, or only
  // nodes that are no descendants.
  lemma {:induction false} OpenKeeps(nodes: Nodes, nodes': Nodes, c: nat, t: Tree, m: nat)
    requires WellFormed(nodes) && WellFormed(nodes') && c < |nodes| <= |nodes'| && m <= |nodes|
    requires Open(nodes, c, t, m)
    requires nodes'[c].key == nodes[c].key && nodes'[c].val == nodes[c].val && nodes[c].children <= nodes'[c].children
    requires forall x | c < x < m :: nodes'[x] == nodes[x]
    ensures Open(nodes', c, t, m)
  {
    hide TreeOf;
    forall j | 0 <= j < |t.kids|
      ensures Within(nodes', nodes'[c].children[j], m) && TreeOf(nodes', nodes'[c].children[j]) == t.kids[j]
    {
      assert nodes'[c].children[j] == nodes[c].children[j];
      Untouched(nodes, nodes', nodes[c].children[j], m);
    }
  }

  lemma {:induction false} AddAgrees(nodes: Nodes, i: nat, key: string, val: string)
    requires i < |nodes|
    ensures var nodes' := AddNode(nodes, i, key, val);
            && |nodes'| == |nodes| + 1
            && (forall x | 0 <= x < |nodes| && x != i :: nodes'[x] == nodes[x])
            && nodes'[i] == nodes[i].(children := nodes[i].children + [|nodes|])
            && nodes'[|nodes|] == Node(i, nodes[i].depth + 1, key, val, [])
  {
  }

  lemma {:induction false} SimEntry(nodes: Nodes, cfg: nat, spine: seq<Tree>, key: string, val: string)
    requires Sim(nodes, cfg, spine)
    ensures Sim(AddNode(nodes, cfg, key, val), |nodes|, spine + [Tree(key, val, [])])
  {
    hide Within, TreeOf, AddNode, WellFormed;
    var nodes', last := AddNode(nodes, cfg, key, val), |spine| - 1;
    AddWellFormed(nodes, cfg, key, val);
    AddAgrees(nodes, cfg, key, val);
    OpenKeeps(nodes, nodes', cfg, spine[last], |nodes|);
    ChainKeeps(nodes, nodes', cfg, spine[..last]);
    var spine' := spine + [Tree(key, val, [])];
    assert spine'[..|spine|] == spine;
  }

  lemma {:induction false} OpenFull(nodes: Nodes, c: nat, t: Tree)
    requires WellFormed(nodes) && c < |nodes| && Open(nodes, c, t, |nodes|) && |nodes[c].children| == |t.kids|
    ensures nodes[c].key == t.key && nodes[c].val == t.val && nodes[c].children[..|t.kids|] == nodes[c].children
  {
  }

  lemma {:induction false} OpenLeaf(nodes: Nodes, c: nat, m: nat)
    requires WellFormed(nodes) && c < |nodes| && nodes[c].children == []
    ensures Open(nodes, c, Tree(nodes[c].key, nodes[c].val, []), m)
  {
  }

  lemma {:induction false} SimComment(nodes: Nodes, cfg: nat, spine: seq<Tree>, text: string)
    requires Sim(nodes, cfg, spine)
    ensures Sim(AddNode(nodes, cfg, "#", text), cfg,
                spine[|spine| - 1 := spine[|spine| - 1].Add(Tree("#", text, []))])
  {
    hide AddNode, WellFormed, Open, Chain, Within, TreeOf;
    var nodes', last := AddNode(nodes, cfg, "#", text), |spine| - 1;
    AddWellFormed(nodes, cfg, "#", text);
    AddAgrees(nodes, cfg, "#", text);
    OpenFull(nodes, cfg, spine[last]);
    OpenKeeps(nodes, nodes', cfg, spine[last], |nodes|);
    ChainKeeps(nodes, nodes', cfg, spine[..last]);
    OpenLeaf(nodes', |nodes|, |nodes'|);
    OpenDone(nodes', |nodes|, Tree("#", text, []), |nodes'|);
    OpenAdd(nodes', cfg, spine[last], |nodes|, Tree("#", text, []), |nodes'|);
    LastReplaced(spine, spine[last].Add(Tree("#", text, [])));
  }

  lemma {:induction false} LastReplaced(spine: seq<Tree>, t: Tree)
    requires spine != []
    ensures var last, s := |spine| - 1, spine[|spine| - 1 := t];
            |s| == |spine| && s[last] == t && s[..last] == spine[..last]
  {
  }

  lemma {:induction false} SimClose(nodes: Nodes, cfg: nat, spine: seq<Tree>)
    requires Sim(nodes, cfg, spine)
    ensures TreeOf(nodes, 0) == Close(spine)
    decreases cfg
  {
    hide WellFormed, Within, TreeOf, Open, Chain;
    SimUp(nodes, cfg, spine, |spine| + cfg);
    UpToRoot(nodes, cfg, |spine| + cfg);
    SimRoot(nodes, PopTo(spine, 1));
  }

  lemma {:induction false} UpToRoot(nodes: Nodes, cfg: nat, times: nat)
    requires WellFormed(nodes) && cfg < |nodes| && times >= cfg
    ensures Up(nodes, cfg, times) == 0
    decreases times
  {
    if times > 0 && cfg != 0 {
      UpToRoot(nodes, nodes[cfg].parent, times - 1);
    }
  }

  lemma {:induction false} SimRoot(nodes: Nodes, spine: seq<Tree>)
    requires Sim(nodes, 0, spine)
    ensures TreeOf(nodes, 0) == spine[0]
  {
    hide WellFormed, Within, TreeOf;
    ChainRoot(nodes, spine);
    OpenDone(nodes, 0, spine[0], |nodes|);
  }

  ghost predicate Simulates(l: Loader, st: State) {
    Sim(l.nodes, l.cfg, st.spine) && l.lastIndent == st.lastIndent
  }

  lemma {:induction false} LoadLineRefines(l: Loader, st: State, line: Line)
    requires Simulates(l, st)
    ensures LoadLine(l, line).None? <==> Step(st, line).None?
    ensures LoadLine(l, line).Some? ==> Simulates(LoadLine(l, line).value, Step(st, line).value)
  {
    hide WellFormed, Open, Chain, AddNode, Up, PopTo;
    assert WellFormed(l.nodes) && l.cfg < |l.nodes|;
    match line
    case Comment(text) =>
      SimComment(l.nodes, l.cfg, st.spine, text);
    case Entry(indent, key, val) =>
      if indent <= l.lastIndent + 1 {
        var times := if indent <= l.lastIndent then l.lastIndent - indent + 1 else 0;
        SimUp(l.nodes, l.cfg, st.spine, times);
        var spine := PopTo(st.spine, Kept(|st.spine|, indent, st.lastIndent));
        SimEntry(l.nodes, Up(l.nodes, l.cfg, times), spine, key, val);
      }
    case _ =>
  }

  lemma {:induction false} LoadRefines(l: Loader, st: State, ls: seq<string>)
    requires Simulates(l, st)
    ensures LoadLines(l, ls).None? <==> Run(st, ls).None?
    ensures LoadLines(l, ls).Some? ==> Simulates(LoadLines(l, ls).value, Run(st, ls).value)
    decreases |ls|
  {
    hide WellFormed, Open, Chain, LoadLine, Step, ParseLine;
    assert WellFormed(l.nodes);
    if ls != [] {
      LoadLineRefines(l, st, ParseLine(ls[0]));
      if LoadLine(l, ParseLine(ls[0])).Some? {
        LoadRefines(LoadLine(l, ParseLine(ls[0])).value, Step(st, ParseLine(ls[0])).value, ls[1..]);
      }
    }
  }

  // Main result on the loader: walking parent pointers over the nodes yields the tree of the fold.
  lemma {:induction false} LoaderBuildsTree(text: string)
    ensures var l := LoadLines(BEGIN, Lines(text));
            if l.None? then Load(text) == None else Load(text) == Some(TreeOf(l.value.nodes, 0))
  {
    hide Lines, LoadLines, Run, PopTo;
    assert Simulates(BEGIN, START) by {
      assert START.spine[..0] == [];
    }
    LoadRefines(BEGIN, START, Lines(text));
    var l := LoadLines(BEGIN, Lines(text));
    if l.Some? {
      SimClose(l.value.nodes, l.value.cfg, Run(START, Lines(text)).value.spine);
    }
  }
}
