// What Config::set does to the tree, and when a tree that was changed by it still survives save
// and load.
module ConfigUpdates {
  import opened Options
  import opened ConfigText
  import opened ConfigTree
  import opened ConfigLimits
  import opened ConfigArena
  import opened ConfigPaths

  // ---------- Set on trees ----------

  // One more than the position of the last of the first n kids with this key, 0 if there is none.
  function LastKid(kids: seq<Tree>, key: string, n: nat): (k: nat)
    requires n <= |kids|
    ensures k <= n && (k > 0 ==> kids[k - 1].key == key)
  {
    if n == 0 then 0 else if kids[n - 1].key == key then n else LastKid(kids, key, n - 1)
  }

  function SetTree(t: Tree, fields: seq<string>, val: string): (r: Tree)
    ensures r.key == t.key
    decreases |fields|
  {
    if fields == [] then t.(val := val)
    else
      var k := LastKid(t.kids, fields[0], |t.kids|);
      if k > 0 then t.(kids := t.kids[k - 1 := SetTree(t.kids[k - 1], fields[1..], val)])
      else t.Add(SetTree(Tree(fields[0], "", []), fields[1..], val))
  }

  // ---------- Set on nodes is set on trees ----------

  // No node stands twice among the children of another.
  ghost predicate Ascending(nodes: Nodes) {
    forall i | 0 <= i < |nodes| ::
      forall j, k | 0 <= j < k < |nodes[i].children| :: nodes[i].children[j] < nodes[i].children[k]
  }

  // y is x or lies below it.
  predicate Above(nodes: Nodes, x: nat, y: nat)
    requires WellFormed(nodes) && y < |nodes|
    decreases y
  {
    x == y || (y > 0 && Above(nodes, x, nodes[y].parent))
  }

  lemma {:induction false} AboveIsSmaller(nodes: Nodes, x: nat, y: nat)
    requires WellFormed(nodes) && y < |nodes| && Above(nodes, x, y)
    ensures x <= y
    decreases y
  {
    if x != y {
      AboveIsSmaller(nodes, x, nodes[y].parent);
    }
  }

  lemma {:induction false} AboveParent(nodes: Nodes, x: nat, y: nat)
    requires WellFormed(nodes) && y < |nodes| && 0 < x < |nodes| && Above(nodes, x, y)
    ensures Above(nodes, nodes[x].parent, y)
    decreases y
  {
    if x == y {
      assert Above(nodes, nodes[x].parent, nodes[x].parent);
    } else {
      AboveParent(nodes, x, nodes[y].parent);
    }
  }

  // What lies beside c keeps its tree if only what lies below c changes.
  lemma {:induction false} BesideKeeps(nodes: Nodes, nodes': Nodes, c: nat, x: nat)
    requires WellFormed(nodes) && WellFormed(nodes') && c < |nodes| && x < |nodes| <= |nodes'|
    requires !Above(nodes, x, c) && !Above(nodes, c, x)
    requires forall y | 0 <= y < |nodes| && !Above(nodes, c, y) :: nodes'[y] == nodes[y]
    ensures TreeOf(nodes', x) == TreeOf(nodes, x)
    decreases |nodes| - x
  {
    var cs := nodes[x].children;
    forall j | 0 <= j < |cs| ensures TreeOf(nodes', cs[j]) == TreeOf(nodes, cs[j]) {
      ChildAfter(nodes, x, j);
      if Above(nodes, cs[j], c) {
        AboveParent(nodes, cs[j], c);
      }
      BesideKeeps(nodes, nodes', c, cs[j]);
    }
  }

  // What comes after i keeps its tree if only i changes.
  lemma {:induction false} BehindKeeps(nodes: Nodes, nodes': Nodes, i: nat, x: nat)
    requires WellFormed(nodes) && WellFormed(nodes') && i < x < |nodes| <= |nodes'|
    requires forall y | 0 <= y < |nodes| && y != i :: nodes'[y] == nodes[y]
    ensures TreeOf(nodes', x) == TreeOf(nodes, x)
    decreases |nodes| - x
  {
    var cs := nodes[x].children;
    forall j | 0 <= j < |cs| ensures TreeOf(nodes', cs[j]) == TreeOf(nodes, cs[j]) {
      ChildAfter(nodes, x, j);
      BehindKeeps(nodes, nodes', i, cs[j]);
    }
  }

  // The tree under a node, part by part.
  lemma {:induction false} TreeParts(nodes: Nodes, i: nat)
    requires WellFormed(nodes) && i < |nodes|
    ensures var t, cs := TreeOf(nodes, i), nodes[i].children;
            && t.key == nodes[i].key && t.val == nodes[i].val && |t.kids| == |cs|
            && forall j | 0 <= j < |cs| :: i < cs[j] < |nodes| && t.kids[j] == TreeOf(nodes, cs[j])
  {
  }

  lemma {:induction false} TreeIs(nodes: Nodes, i: nat, t: Tree)
    requires WellFormed(nodes) && i < |nodes|
    requires var cs := nodes[i].children;
             && t.key == nodes[i].key && t.val == nodes[i].val && |t.kids| == |cs|
             && forall j | 0 <= j < |cs| :: cs[j] < |nodes| && t.kids[j] == TreeOf(nodes, cs[j])
    ensures TreeOf(nodes, i) == t
  {
    hide TreeOf;
    TreeParts(nodes, i);
    assert TreeOf(nodes, i).kids == t.kids;
  }

  lemma {:induction false} FindIsLastKid(nodes: Nodes, i: nat, key: string, n: nat)
    requires WellFormed(nodes) && i < |nodes| && n <= |nodes[i].children| == |TreeOf(nodes, i).kids|
    ensures var k := LastKid(TreeOf(nodes, i).kids, key, n);
            FindAmong(nodes, i, key, n) == if k == 0 then None else Some(nodes[i].children[k - 1])
  {
    hide WellFormed, TreeOf;
    if n > 0 {
      TreeParts(nodes, i);
      TreeParts(nodes, nodes[i].children[n - 1]);
      FindIsLastKid(nodes, i, key, n - 1);
    }
  }

  lemma {:induction false} AddAscending(nodes: Nodes, i: nat, key: string, val: string)
    requires WellFormed(nodes) && Ascending(nodes) && i < |nodes|
    ensures Ascending(AddNode(nodes, i, key, val))
  {
    AddAgrees(nodes, i, key, val);
  }

  lemma {:induction false} SetFirst(nodes: Nodes, i: nat, fields: seq<string>, val: string)
    requires WellFormed(nodes) && i < |nodes| && fields != []
    ensures var c := FindChild(nodes, i, fields[0]);
            && (c.Some? ==> ConfigPaths.Set(nodes, i, fields, val) == ConfigPaths.Set(nodes, c.value, fields[1..], val))
            && (c.None? ==>
                  var nodes1 := AddNode(nodes, i, fields[0], "");
                  && WellFormed(nodes1)
                  && ConfigPaths.Set(nodes, i, fields, val) == ConfigPaths.Set(nodes1, |nodes|, fields[1..], val))
  {
    AddWellFormed(nodes, i, fields[0], "");
    hide WellFormed, FindChild, AddNode;
  }

  // What set leaves alone: all that does not lie below node i.
  ghost predicate OnlyBelow(nodes: Nodes, nodes': Nodes, i: nat)
    requires WellFormed(nodes)
  {
    |nodes| <= |nodes'| && forall y | 0 <= y < |nodes| && !Above(nodes, i, y) :: nodes'[y] == nodes[y]
  }

  // Main result on the pointers: set changes the tree under node i as SetTree does.
  lemma {:induction false} SetIsSetTree(nodes: Nodes, i: nat, fields: seq<string>, val: string)
    requires WellFormed(nodes) && Ascending(nodes) && i < |nodes|
    ensures var nodes' := ConfigPaths.Set(nodes, i, fields, val).0;
            && WellFormed(nodes') && Ascending(nodes') && OnlyBelow(nodes, nodes', i)
            && TreeOf(nodes', i) == SetTree(TreeOf(nodes, i), fields, val)
    decreases |fields|
  {
    hide WellFormed, TreeOf, Ascending, ConfigPaths.Set, OnlyBelow, FindChild, FindAmong, AddNode, LastKid, SetTree;
    if fields == [] {
      SetHere(nodes, i, val);
      SetTreeHere(TreeOf(nodes, i), val);
    } else {
      var c := FindChild(nodes, i, fields[0]);
      SetFirst(nodes, i, fields, val);
      FindAll(nodes, i, fields[0]);
      TreeParts(nodes, i);
      FindIsLastKid(nodes, i, fields[0], |nodes[i].children|);
      if c.Some? {
        SetIsSetTree(nodes, c.value, fields[1..], val);
        SetInKid(nodes, ConfigPaths.Set(nodes, i, fields, val).0, i, fields, val);
      } else {
        var nodes1 := AddNode(nodes, i, fields[0], "");
        AddAscending(nodes, i, fields[0], "");
        AddAgrees(nodes, i, fields[0], "");
        SetIsSetTree(nodes1, |nodes|, fields[1..], val);
        SetInNew(nodes, ConfigPaths.Set(nodes, i, fields, val).0, i, fields, val);
      }
    }
  }

  lemma {:induction false} SetTreeHere(t: Tree, val: string)
    ensures SetTree(t, [], val) == t.(val := val)
  {
  }

  lemma {:induction false} SetHere(nodes: Nodes, i: nat, val: string)
    requires WellFormed(nodes) && Ascending(nodes) && i < |nodes|
    ensures var nodes' := ConfigPaths.Set(nodes, i, [], val).0;
            && WellFormed(nodes') && Ascending(nodes') && OnlyBelow(nodes, nodes', i)
            && TreeOf(nodes', i) == TreeOf(nodes, i).(val := val)
  {
    hide WellFormed, Ascending, ConfigPaths.Set, TreeOf, Resolve, OnlyBelow;
    ResolveIgnoresValue(nodes, i, val, 0, []);
    SetNothing(nodes, i, val);
    ValueAscending(nodes, i, val);
    ValueBelow(nodes, nodes[i := nodes[i].(val := val)], i, val);
  }

  lemma {:induction false} ValueBelow(nodes: Nodes, nodes': Nodes, i: nat, val: string)
    requires WellFormed(nodes) && i < |nodes| && WellFormed(nodes') && nodes' == nodes[i := nodes[i].(val := val)]
    ensures OnlyBelow(nodes, nodes', i)
    ensures TreeOf(nodes', i) == TreeOf(nodes, i).(val := val)
  {
    hide WellFormed, TreeOf;
    assert Above(nodes, i, i);
    var cs := nodes[i].children;
    TreeParts(nodes, i);
    forall j | 0 <= j < |cs| ensures TreeOf(nodes', cs[j]) == TreeOf(nodes, cs[j]) {
      BehindKeeps(nodes, nodes', i, cs[j]);
    }
    TreeIs(nodes', i, TreeOf(nodes, i).(val := val));
  }

  lemma {:induction false} SetNothing(nodes: Nodes, i: nat, val: string)
    requires WellFormed(nodes) && i < |nodes|
    ensures ConfigPaths.Set(nodes, i, [], val) == (nodes[i := nodes[i].(val := val)], i)
  {
    hide WellFormed;
  }

  lemma {:induction false} ValueAscending(nodes: Nodes, i: nat, val: string)
    requires Ascending(nodes) && i < |nodes|
    ensures Ascending(nodes[i := nodes[i].(val := val)])
  {
    var nodes' := nodes[i := nodes[i].(val := val)];
    assert forall x | 0 <= x < |nodes| :: nodes'[x].children == nodes[x].children;
  }

  // The last child with the key was changed.
  lemma {:induction false} SetInKid(nodes: Nodes, nodes': Nodes, i: nat, fields: seq<string>, val: string)
    requires WellFormed(nodes) && Ascending(nodes) && i < |nodes| && fields != [] && WellFormed(nodes')
    requires |nodes[i].children| == |TreeOf(nodes, i).kids|
    requires var k := LastKid(TreeOf(nodes, i).kids, fields[0], |nodes[i].children|);
             && k > 0
             && var c := nodes[i].children[k - 1];
                && c < |nodes| && OnlyBelow(nodes, nodes', c)
                && TreeOf(nodes', c) == SetTree(TreeOf(nodes, c), fields[1..], val)
    ensures OnlyBelow(nodes, nodes', i)
    ensures TreeOf(nodes', i) == SetTree(TreeOf(nodes, i), fields, val)
  {
    hide WellFormed, Ascending, TreeOf, LastKid;
    var cs, t := nodes[i].children, TreeOf(nodes, i);
    var k := LastKid(t.kids, fields[0], |cs|);
    var c := cs[k - 1];
    TreeParts(nodes, i);
    BelowKid(nodes, nodes', i, k - 1);
    forall j | 0 <= j < |cs| && j != k - 1 ensures TreeOf(nodes', cs[j]) == TreeOf(nodes, cs[j]) {
      Siblings(nodes, i, j, k - 1);
      BesideKeeps(nodes, nodes', c, cs[j]);
    }
    TreeIs(nodes', i, t.(kids := t.kids[k - 1 := TreeOf(nodes', c)]));
  }

  // What does not lie below i does not lie below a child of i; neither does i.
  lemma {:induction false} BelowKid(nodes: Nodes, nodes': Nodes, i: nat, k: nat)
    requires WellFormed(nodes) && i < |nodes| && k < |nodes[i].children|
    requires var c := nodes[i].children[k]; c < |nodes| && OnlyBelow(nodes, nodes', c)
    ensures OnlyBelow(nodes, nodes', i) && nodes'[i] == nodes[i]
  {
    var c := nodes[i].children[k];
    ChildAfter(nodes, i, k);
    hide WellFormed;
    forall y | 0 <= y < |nodes| && !Above(nodes, i, y) ensures nodes'[y] == nodes[y] {
      if Above(nodes, c, y) {
        AboveParent(nodes, c, y);
      }
    }
    if Above(nodes, c, i) {
      AboveIsSmaller(nodes, c, i);
    }
  }

  lemma {:induction false} Siblings(nodes: Nodes, i: nat, j: nat, k: nat)
    requires WellFormed(nodes) && Ascending(nodes) && i < |nodes|
    requires j < |nodes[i].children| && k < |nodes[i].children| && j != k
    ensures var x, c := nodes[i].children[j], nodes[i].children[k];
            x < |nodes| && c < |nodes| && !Above(nodes, x, c) && !Above(nodes, c, x)
  {
    var x, c := nodes[i].children[j], nodes[i].children[k];
    ChildAfter(nodes, i, j);
    ChildAfter(nodes, i, k);
    assert x != c;
    if Above(nodes, x, i) {
      AboveIsSmaller(nodes, x, i);
    }
    if Above(nodes, c, i) {
      AboveIsSmaller(nodes, c, i);
    }
  }

  // A new child was added and built up.
  lemma {:induction false} SetInNew(nodes: Nodes, nodes': Nodes, i: nat, fields: seq<string>, val: string)
    requires WellFormed(nodes) && i < |nodes| && fields != [] && WellFormed(nodes')
    requires |nodes[i].children| == |TreeOf(nodes, i).kids|
    requires LastKid(TreeOf(nodes, i).kids, fields[0], |nodes[i].children|) == 0
    requires var nodes1 := AddNode(nodes, i, fields[0], "");
             && WellFormed(nodes1) && OnlyBelow(nodes1, nodes', |nodes|)
             && TreeOf(nodes', |nodes|) == SetTree(TreeOf(nodes1, |nodes|), fields[1..], val)
    ensures OnlyBelow(nodes, nodes', i)
    ensures TreeOf(nodes', i) == SetTree(TreeOf(nodes, i), fields, val)
  {
    hide WellFormed, TreeOf, AddNode, LastKid;
    var n, nodes1, cs, t := |nodes|, AddNode(nodes, i, fields[0], ""), nodes[i].children, TreeOf(nodes, i);
    AddAgrees(nodes, i, fields[0], "");
    forall y | 0 <= y < n ensures nodes'[y] == nodes1[y] {
      if Above(nodes1, n, y) {
        AboveIsSmaller(nodes1, n, y);
      }
    }
    assert Above(nodes, i, i);
    TreeIs(nodes1, n, Tree(fields[0], "", []));
    TreeParts(nodes, i);
    forall j | 0 <= j < |cs| ensures TreeOf(nodes', cs[j]) == TreeOf(nodes, cs[j]) {
      BehindKeeps(nodes, nodes', i, cs[j]);
    }
    TreeIs(nodes', i, t.Add(TreeOf(nodes', n)));
  }

  lemma {:induction false} LoadedAscending(l: Loader, ls: seq<string>)
    requires WellFormed(l.nodes) && Ascending(l.nodes) && l.cfg < |l.nodes| && LoadLines(l, ls).Some?
    ensures Ascending(LoadLines(l, ls).value.nodes)
    decreases |ls|
  {
    hide WellFormed, Ascending, ParseLine, AddNode;
    if ls != [] {
      var line := ParseLine(ls[0]);
      LoadLineAscending(l, line);
      LoadedAscending(LoadLine(l, line).value, ls[1..]);
    }
  }

  lemma {:induction false} LoadLineAscending(l: Loader, line: Line)
    requires WellFormed(l.nodes) && Ascending(l.nodes) && l.cfg < |l.nodes| && LoadLine(l, line).Some?
    ensures Ascending(LoadLine(l, line).value.nodes)
  {
    hide WellFormed, Ascending, AddNode;
    match line
    case Comment(text) => AddAscending(l.nodes, l.cfg, "#", text);
    case Entry(indent, key, val) =>
      var times := if indent <= l.lastIndent then l.lastIndent - indent + 1 else 0;
      AddAscending(l.nodes, Up(l.nodes, l.cfg, times), key, val);
    case Empty =>
    case Invalid =>
  }

  // ---------- Which updates survive save and load ----------

  // The node t with this value is one that load can make, and its line fits.
  predicate ValueFits(t: Tree, d: nat, val: string) {
    && LineFits(t.(val := val), d)
    && if t.IsComment() then t.key == "#" && t.kids == [] && LineSafe(val) else EntryShape(t.key, val)
  }

  // What the fields and the value must be like for the node t, d levels below the children of the
  // root, to survive: the nodes on the way are entries, new ones with keys as a line can hold them,
  // and the last one gets a value that its line can hold.
  predicate Keeps(t: Tree, d: nat, fields: seq<string>, val: string)
    decreases |fields|
  {
    if fields == [] then ValueFits(t, d, val)
    else !t.IsComment() && ValueFits(t, d, t.val) && KidsKeep(t.kids, d + 1, fields, val)
  }

  // A new comment must not come behind an entry.
  predicate KidsKeep(kids: seq<Tree>, d: nat, fields: seq<string>, val: string)
    requires fields != []
    decreases |fields|, 0
  {
    var k, added := LastKid(kids, fields[0], |kids|), Tree(fields[0], "", []);
    if k > 0 then Keeps(kids[k - 1], d, fields[1..], val)
    else (added.IsComment() ==> OnlyComments(kids)) && Keeps(added, d, fields[1..], val)
  }

  // What save and load ask of a list of nodes, node by node.
  predicate NodeFits(t: Tree, d: nat) {
    CanonicalNode(t) && LineFits(t, d) && LinesFit(t.kids, d + 1)
  }

  lemma {:induction false} LinesFitAll(kids: seq<Tree>, d: nat)
    ensures LinesFit(kids, d) <==> forall i | 0 <= i < |kids| :: LineFits(kids[i], d) && LinesFit(kids[i].kids, d + 1)
    decreases |kids|
  {
    hide LineFits;
    if kids != [] {
      LinesFitAll(kids[1..], d);
      assert kids == [kids[0]] + kids[1..];
      assert forall i | 1 <= i < |kids| :: kids[i] == kids[1..][i - 1];
    }
  }

  predicate AllFit(kids: seq<Tree>, d: nat) {
    && (forall i, j | 0 <= i < j < |kids| && kids[j].IsComment() :: kids[i].IsComment())
    && forall i | 0 <= i < |kids| :: NodeFits(kids[i], d)
  }

  lemma {:induction false} AllFitIs(kids: seq<Tree>, d: nat)
    ensures AllFit(kids, d) <==> Canonical(kids) && LinesFit(kids, d)
  {
    hide LineFits, LinesFit, CanonicalNode;
    LinesFitAll(kids, d);
  }

  lemma {:induction false} OneOther(kids: seq<Tree>, d: nat, k: nat, x: Tree)
    requires AllFit(kids, d) && k < |kids| && x.key == kids[k].key
    ensures AllFit(kids[k := x], d) <==> NodeFits(x, d)
  {
    hide NodeFits;
    var kids' := kids[k := x];
    assert forall i | 0 <= i < |kids| :: kids'[i].IsComment() == kids[i].IsComment();
    assert kids'[k] == x;
  }

  lemma {:induction false} OneMore(kids: seq<Tree>, d: nat, x: Tree)
    requires AllFit(kids, d)
    ensures AllFit(kids + [x], d) <==> NodeFits(x, d) && (x.IsComment() ==> OnlyComments(kids))
  {
    hide NodeFits;
    var kids' := kids + [x];
    assert kids'[|kids|] == x;
    assert forall i | 0 <= i < |kids| :: kids'[i] == kids[i];
    if AllFit(kids', d) && x.IsComment() {
      assert forall i | 0 <= i < |kids| :: kids'[i].IsComment();
    }
  }

  // t fits, or is a new node without value and children.
  predicate FitsOrNew(t: Tree, d: nat) {
    NodeFits(t, d) || (t.val == "" && t.kids == [])
  }

  lemma {:induction false} NodeSurvives(t: Tree, d: nat, fields: seq<string>, val: string)
    requires FitsOrNew(t, d)
    ensures NodeFits(SetTree(t, fields, val), d) <==> Keeps(t, d, fields, val)
    decreases |fields|
  {
    if fields == [] {
      ValueSurvives(t, d, val);
    } else {
      hide LineFits, LinesFit, Canonical, EntryShape, LastKid, AllFit;
      assert AllFit(t.kids, d + 1) by {
        AllFitIs(t.kids, d + 1);
        NoKids(d + 1);
      }
      KidsSurvive(t, d + 1, fields, val);
      AllFitIs(SetTree(t, fields, val).kids, d + 1);
      SameLine(t, SetTree(t, fields, val), d);
    }
  }

  lemma {:induction false} NoKids(d: nat)
    ensures Canonical([]) && LinesFit([], d)
  {
  }

  lemma {:induction false} SameLine(t: Tree, u: Tree, d: nat)
    requires t.key == u.key && t.val == u.val
    ensures LineFits(u, d) == LineFits(t, d)
  {
  }

  lemma {:induction false} ValueSurvives(t: Tree, d: nat, val: string)
    requires FitsOrNew(t, d)
    ensures NodeFits(t.(val := val), d) <==> ValueFits(t, d, val)
  {
    hide LineFits;
    NoKids(d + 1);
  }

  lemma {:induction false} KidsSurvive(t: Tree, d: nat, fields: seq<string>, val: string)
    requires AllFit(t.kids, d) && fields != []
    ensures var u := SetTree(t, fields, val);
            && u.val == t.val && u.kids != []
            && (AllFit(u.kids, d) <==> KidsKeep(t.kids, d, fields, val))
    decreases |fields|, 0
  {
    hide LineFits, LinesFit, Canonical, CanonicalNode;
    var k, added := LastKid(t.kids, fields[0], |t.kids|), Tree(fields[0], "", []);
    if k > 0 {
      var kid := t.kids[k - 1];
      NodeSurvives(kid, d, fields[1..], val);
      OneOther(t.kids, d, k - 1, SetTree(kid, fields[1..], val));
    } else {
      NodeSurvives(added, d, fields[1..], val);
      OneMore(t.kids, d, SetTree(added, fields[1..], val));
    }
  }

  // ---------- No NUL comes in by the way ----------

  predicate NoNul(kids: seq<Tree>) {
    forall i | 0 <= i < |kids| :: '\0' !in kids[i].key && '\0' !in kids[i].val && NoNul(kids[i].kids)
  }

  lemma {:induction false} CanonicalNoNul(kids: seq<Tree>)
    requires Canonical(kids)
    ensures NoNul(kids)
    decreases kids
  {
    forall i | 0 <= i < |kids|
      ensures '\0' !in kids[i].key && '\0' !in kids[i].val && NoNul(kids[i].kids)
    {
      assert CanonicalNode(kids[i]);
      CanonicalNoNul(kids[i].kids);
    }
  }

  lemma {:induction false} SetNoNul(t: Tree, fields: seq<string>, val: string)
    requires NoNul(t.kids) && '\0' !in t.val && '\0' !in val && forall f <- fields :: '\0' !in f
    ensures NoNul(SetTree(t, fields, val).kids) && '\0' !in SetTree(t, fields, val).val
    decreases |fields|
  {
    if fields != [] {
      var k := LastKid(t.kids, fields[0], |t.kids|);
      var kid := if k > 0 then t.kids[k - 1] else Tree(fields[0], "", []);
      assert '\0' !in kid.key && '\0' !in kid.val && NoNul(kid.kids);
      SetNoNul(kid, fields[1..], val);
    }
  }

  lemma {:induction false} PrintedNoNul(kids: seq<Tree>, d: nat)
    requires NoNul(kids)
    ensures forall i | 0 <= i < |PrintLines(kids, d)| :: '\0' !in PrintLines(kids, d)[i]
    decreases kids
  {
    hide ParseLine;
    if kids != [] {
      PrintedNoNul(kids[0].kids, d + 1);
      PrintedNoNul(kids[1..], d);
      assert '\0' !in PrintLine(d, kids[0].key, kids[0].val);
    }
  }

  lemma {:induction false} JoinedNoNul(ls: seq<string>)
    requires forall i | 0 <= i < |ls| :: '\0' !in ls[i]
    ensures '\0' !in Join(ls)
  {
    if ls != [] {
      JoinedNoNul(ls[1..]);
    }
  }

  lemma {:induction false} FieldsNoNul(path: string)
    requires '\0' !in path
    ensures forall f <- Fields(path) :: '\0' !in f
  {
    if path != "" {
      FieldsNoNul(path[1..]);
    }
  }

  // Main result on updates: a tree that would survive save and load still does after set, exactly
  // if the fields of the path and the value keep to what lines can hold.
  lemma {:induction false} SetSurvivesExactly(nodes: Nodes, fields: seq<string>, val: string)
    requires WellFormed(nodes) && Ascending(nodes) && fields != []
    requires '\0' !in val && forall f <- fields :: '\0' !in f
    requires var t := TreeOf(nodes, 0);
             t.key == ROOT.key && t.val == ROOT.val && Canonical(t.kids) && Printable(t)
    ensures var nodes' := ConfigPaths.Set(nodes, 0, fields, val).0;
            && WellFormed(nodes') && '\0' !in Save(TreeOf(nodes', 0))
            && (Load(Save(TreeOf(nodes', 0))) == Some(TreeOf(nodes', 0)) <==>
                KidsKeep(TreeOf(nodes, 0).kids, 0, fields, val))
  {
    assert nodes != [];
    hide WellFormed, Ascending, TreeOf, Canonical, LinesFit, Load, ConfigPaths.Set, KidsKeep, AllFit, NoNul;
    hide PrintLines, Join, SetTree;
    SetIsSetTree(nodes, 0, fields, val);
    var t := TreeOf(nodes, 0);
    var u := SetTree(t, fields, val);
    AllFitIs(t.kids, 0);
    KidsSurvive(t, 0, fields, val);
    AllFitIs(u.kids, 0);
    CanonicalNoNul(t.kids);
    SetNoNul(t, fields, val);
    PrintedNoNul(u.kids, 0);
    JoinedNoNul(PrintLines(u.kids, 0));
    LoadSaveExact(u);
  }

  // A separator in a new key: it is read back as a shorter key.
  lemma {:induction false} SetExample()
    ensures !KidsKeep([], 0, ["a=b"], "c") && KidsKeep([], 0, ["a"], "c")
  {
    assert LastKid([], "a=b", 0) == 0 && LastKid([], "a", 0) == 0;
    assert ["a=b"][1..] == [] && ["a"][1..] == [];
    assert IsSeparator("a=b"[1]);
    assert |PrintLine(0, "a", "c")| == 4;
  }
}
