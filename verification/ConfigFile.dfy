// The Config objects of util/config.cpp. The ghost arguments of the methods list all objects of
// one configuration in the order of creation, and what they hold.
module ConfigFile {
  import opened Options
  import opened ConfigText
  import opened ConfigTree
  import opened ConfigLimits
  import opened ConfigArena
  import opened ConfigPaths
  import opened ConfigUpdates

  class Config {
    var parent: Config?
    var depth: nat
    var children: seq<Config>
    var key: string
    var val: string

    constructor (key: string, val: string)
      ensures parent == null && depth == 0 && children == [] && this.key == key && this.val == val
    {
      parent, depth, children := null, 0, [];
      this.key, this.val := key, val;
    }

    // This object holds node n, its pointers leading to objects of the list.
    ghost predicate Holds(objs: seq<Config>, n: Node)
      reads this
    {
      && key == n.key && val == n.val && depth == n.depth
      && (if n.parent < 0 then parent == null else n.parent < |objs| && parent == objs[n.parent])
      && |children| == |n.children|
      && forall j | 0 <= j < |children| :: n.children[j] < |objs| && children[j] == objs[n.children[j]]
    }

    method AddChild(key: string, val: string, ghost objs: seq<Config>, ghost nodes: Nodes, ghost i: nat)
      returns (c: Config)
      requires Rep(objs, nodes) && i < |objs| && objs[i] == this
      modifies this`children
      ensures fresh(c) && Rep(objs + [c], AddNode(nodes, i, key, val))
      ensures c.parent == this && c.depth == depth + 1 && c.children == [] && c.key == key && c.val == val
      ensures children == old(children) + [c]
    {
      hide WellFormed, AddNode;
      c := new Config(key, val);
      c.parent := this;
      c.depth := depth + 1;
      children := children + [c];
      forall x | 0 <= x < |objs| && x != i ensures objs[x].Holds(objs, nodes[x]) {
        assert old(objs[x].Holds(objs, nodes[x]));
      }
      assert old(objs[i].Holds(objs, nodes[i]));
      RepGrows(objs, nodes, i, c, key, val);
    }

    method FindChild(key: string, ghost objs: seq<Config>, ghost nodes: Nodes, ghost i: nat) returns (c: Config?)
      requires Rep(objs, nodes) && i < |objs| && objs[i] == this
      ensures var r := ConfigPaths.FindChild(nodes, i, key);
              if r == None then c == null else c == objs[r.value]
      ensures LastChild(objs, this, key, c)
    {
      hide WellFormed, LastChild;
      RepFacts(objs, nodes);
      FoundIsLast(objs, nodes, i, key);
      var n := |children|;
      assert objs[i].Holds(objs, nodes[i]);
      while n > 0
        invariant 0 <= n <= |children|
        invariant FindAmong(nodes, i, key, n) == ConfigPaths.FindChild(nodes, i, key)
      {
        ghost var x := nodes[i].children[n - 1];
        assert objs[x].Holds(objs, nodes[x]);
        if children[n - 1].key == key {
          return children[n - 1];
        }
        n := n - 1;
      }
      return null;
    }

    // get: follows the fields of a path; null where a field leads nowhere.
    method Get(key: string, ghost objs: seq<Config>, ghost nodes: Nodes, ghost i: nat) returns (c: Config?)
      requires Rep(objs, nodes) && i < |objs| && objs[i] == this && '\0' !in key
      ensures var r := Resolve(nodes, i, Fields(PathBuffer(key)));
              if r == None then c == null else c == objs[r.value]
      ensures Leads(objs, this, key[..if |key| < 4096 then |key| else 4095], c)
    {
      hide WellFormed, Fields, ConfigPaths.FindChild, Rep, LastChild, Leads;
      RepFacts(objs, nodes);
      BufferIs(key);
      ResolveLeads(objs, nodes, i, PathBuffer(key));
      var path := PathBuffer(key);
      var conf: Config?, f, fs := this, 0, 0;
      ghost var x: nat := i;
      assert path[0..] == path;
      while conf != null
        invariant f <= fs <= |path| && forall k | f <= k < fs :: !IsPathSep(path[k])
        invariant conf != null ==> x < |objs| && conf == objs[x]
        invariant conf != null ==> Resolve(nodes, x, Fields(path[f..])) == Resolve(nodes, i, Fields(path))
        invariant conf == null ==> Resolve(nodes, i, Fields(path)) == None
        decreases |path| - fs
      {
        FieldsCut(path[f..fs], path[fs..]);
        assert path[f..fs] + path[fs..] == path[f..];
        if fs == |path| {
          ResolveOne(nodes, x, path[f..fs]);
          conf := conf.FindChild(path[f..fs], objs, nodes, x);
          return conf;
        }
        fs := fs + 1;
        if IsPathSep(path[fs - 1]) {
          ghost var next := ConfigPaths.FindChild(nodes, x, path[f..fs - 1]);
          assert path[fs - 1..][1..] == path[fs..];
          conf := conf.FindChild(path[f..fs - 1], objs, nodes, x);
          if conf != null {
            x := next.value;
          }
          f := fs;
        }
      }
      return conf;
    }

    // build_key_path: like get, but a missing node is added.
    method BuildKeyPath(key: string, ghost objs: seq<Config>, ghost nodes: Nodes, ghost i: nat)
      returns (c: Config, ghost objs': seq<Config>)
      requires Rep(objs, nodes) && i < |objs| && objs[i] == this && '\0' !in key
      modifies objs
      ensures objs <= objs' && (forall x | |objs| <= x < |objs'| :: fresh(objs'[x]))
      ensures var (nodes', r) := Build(nodes, i, Fields(PathBuffer(key)));
              Rep(objs', nodes') && r < |objs'| && c == objs'[r]
      ensures this in objs' && Leads(objs', this, key[..if |key| < 4096 then |key| else 4095], c)
    {
      hide WellFormed, Fields, ConfigPaths.FindChild, AddNode, Rep, LastChild, Leads, Build;
      var path := PathBuffer(key);
      var conf, f, fs := this, 0, 0;
      ghost var x: nat, ns := i, nodes;
      objs' := objs;
      assert path[0..] == path;
      RepFacts(objs, nodes);
      BuildResolves(nodes, i, Fields(path));
      BufferIs(key);
      while true
        invariant f <= fs <= |path| && forall k | f <= k < fs :: !IsPathSep(path[k])
        invariant objs <= objs' && (forall k | |objs| <= k < |objs'| :: fresh(objs'[k]))
        invariant Rep(objs', ns) && WellFormed(ns) && |objs'| == |ns| && x < |objs'| && conf == objs'[x]
        invariant Build(ns, x, Fields(path[f..])) == Build(nodes, i, Fields(path))
        decreases |path| - fs
      {
        FieldsCut(path[f..fs], path[fs..]);
        assert path[f..fs] + path[fs..] == path[f..];
        var last := fs == |path|;
        if last || IsPathSep(path[fs]) {
          ghost var field := path[f..fs];
          if !last {
            assert path[fs..][1..] == path[fs + 1..];
          }
          conf, objs', ns, x := conf.FindOrAdd(path[f..fs], objs', ns, x);
          if last {
            ResolveLeads(objs', ns, i, path);
            return conf, objs';
          }
          f := fs + 1;
        }
        fs := fs + 1;
      }
    }

    // One field of build_key_path.
    method FindOrAdd(field: string, ghost objs: seq<Config>, ghost nodes: Nodes, ghost i: nat)
      returns (c: Config, ghost objs': seq<Config>, ghost nodes': Nodes, ghost x: nat)
      requires Rep(objs, nodes) && WellFormed(nodes) && |objs| == |nodes| && i < |objs| && objs[i] == this
      modifies this`children
      ensures objs <= objs' && (forall k | |objs| <= k < |objs'| :: fresh(objs'[k]))
      ensures Rep(objs', nodes') && WellFormed(nodes') && |objs'| == |nodes'| && x < |objs'| && c == objs'[x]
      ensures Build(nodes, i, [field]) == (nodes', x)
      ensures forall rest: seq<string> :: Build(nodes, i, [field] + rest) == Build(nodes', x, rest)
    {
      hide WellFormed, ConfigPaths.FindChild, AddNode, Holds;
      ghost var r := ConfigPaths.FindChild(nodes, i, field);
      var found := FindChild(field, objs, nodes, i);
      if found == null {
        c := AddChild(field, "", objs, nodes, i);
        objs', nodes', x := objs + [c], AddNode(nodes, i, field, ""), |nodes|;
        AddWellFormed(nodes, i, field, "");
        AddAgrees(nodes, i, field, "");
      } else {
        c := found;
        objs', nodes', x := objs, nodes, r.value;
      }
      forall rest: seq<string> ensures Build(nodes, i, [field] + rest) == Build(nodes', x, rest) {
        assert ([field] + rest)[1..] == rest;
      }
      assert [field] == [field] + [];
    }

    method Set(key: string, val: string, ghost objs: seq<Config>, ghost nodes: Nodes, ghost i: nat)
      returns (c: Config, ghost objs': seq<Config>)
      requires Rep(objs, nodes) && i < |objs| && objs[i] == this && '\0' !in key
      modifies objs
      ensures objs <= objs' && (forall x | |objs| <= x < |objs'| :: fresh(objs'[x]))
      ensures var (nodes', r) := ConfigPaths.Set(nodes, i, Fields(PathBuffer(key)), val);
              Rep(objs', nodes') && r < |objs'| && c == objs'[r]
      ensures this in objs' && Leads(objs', this, key[..if |key| < 4096 then |key| else 4095], c) && c.val == val
    {
      hide WellFormed, Fields, Build, LastChild, Leads;
      ghost var (ns, r) := Build(nodes, i, Fields(PathBuffer(key)));
      c, objs' := BuildKeyPath(key, objs, nodes, i);
      assert forall x | 0 <= x < |objs'| :: objs'[x].Holds(objs', ns[x]);
      c.val := val;
      ResolveIgnoresValue(ns, r, val, 0, []);
      SetLeads(objs', nodes, i, key, val);
    }

    // Prints everything below this object, which holds node i.
    method Save(ghost objs: seq<Config>, ghost nodes: Nodes, ghost i: nat) returns (out: string)
      requires Rep(objs, nodes) && WellFormed(nodes) && |objs| == |nodes| && i < |objs| && objs[i] == this
      ensures out == Join(PrintLines(TreeOf(nodes, i).kids, nodes[i].depth))
      decreases |nodes| - i
    {
      hide WellFormed, PrintLines, Join, Rep;
      ghost var kids, d := TreeOf(nodes, i).kids, nodes[i].depth;
      RepHolds(objs, nodes, i);
      out := "";
      assert kids[0..] == kids;
      for j := 0 to |children|
        invariant out + Join(PrintLines(kids[j..], d)) == Join(PrintLines(kids, d))
      {
        var c := children[j];
        ghost var x: nat := nodes[i].children[j];
        ChildAfter(nodes, i, j);
        ChildDepth(nodes, i, j);
        RepHolds(objs, nodes, x);
        var line := "";
        for t := 0 to depth
          invariant line == Tabs(t)
        {
          line := line + "\t";
        }
        if |c.key| > 0 && c.key[0] == '#' {
          line := line + "#" + c.val;
        } else {
          line := line + c.key + ": " + c.val;
        }
        assert kids[j] == TreeOf(nodes, x);
        assert line == Tabs(d) + if |c.key| > 0 && c.key[0] == '#' then "#" + c.val else c.key + ": " + c.val;
        assert line == PrintLine(d, kids[j].key, kids[j].val);
        var rest := c.Save(objs, nodes, x);
        PrintFirst(kids[j..], d);
        assert kids[j..][1..] == kids[j + 1..];
        ghost var before := out;
        out := out + line + "\n" + rest;
        ghost var more := Join(PrintLines(kids[j + 1..], d));
        assert before + (line + "\n" + rest + more) == out + more;
      }
      PrintNone(d);
      assert kids[|children|..] == [];
      assert out + "" == out;
    }

    // load: the root of the configuration, or null for a file that is not accepted.
    static method Load(text: string) returns (root: Config?, ghost objs: seq<Config>, ghost nodes: Nodes)
      requires '\0' !in text
      ensures var l := LoadLines(BEGIN, Lines(text));
              if l == None then root == null
              else fresh(root) && nodes == l.value.nodes && Rep(objs, nodes) && |objs| > 0 && objs[0] == root
      ensures root != null ==> root.key == "root" && root.val == "" && root.parent == null && root.depth == 0
    {
      hide LoadLines, LoadLine, Rep, ParseLine, Lines, ChunkLength, WellFormed;
      root := new Config("root", "");
      var cfg, lastIndent, pos := root, 0, 0;
      objs := [root];
      ghost var l := BEGIN;
      RepStart(root);
      FirstWellFormed();
      assert text[0..] == text;
      while pos < |text|
        invariant pos <= |text|
        invariant WellFormed(l.nodes) && |objs| == |l.nodes| && l.cfg < |objs| && fresh(objs)
        invariant Rep(objs, l.nodes) && objs[0] == root && objs[l.cfg] == cfg && l.lastIndent == lastIndent
        invariant root.key == "root" && root.val == "" && root.parent == null && root.depth == 0
        invariant LoadLines(l, Lines(text[pos..])) == LoadLines(BEGIN, Lines(text))
        decreases |text| - pos
      {
        var n := ChunkLength(text[pos..], CONFIG_MAX_LINE - 1);
        var buf := text[pos..][..n - 1];
        LoadNext(l, text[pos..]);
        assert text[pos..][n..] == text[pos + n..];
        pos := pos + n;
        var line := ReadLine(buf);
        var ok;
        ok, cfg, lastIndent, objs, l := root.Accept(line, cfg, lastIndent, objs, l);
        if !ok {
          return null, objs, l.nodes;
        }
      }
      assert text[pos..] == "";
      LoadEnd(l);
      nodes := l.nodes;
    }

    // One line of load; this is the root.
    method Accept(line: Line, cfg: Config, lastIndent: nat, ghost objs: seq<Config>, ghost l: Loader)
      returns (ok: bool, cfg': Config, lastIndent': nat, ghost objs': seq<Config>, ghost l': Loader)
      requires WellFormed(l.nodes) && |objs| == |l.nodes| && l.cfg < |objs|
      requires Rep(objs, l.nodes) && objs[0] == this && objs[l.cfg] == cfg && l.lastIndent == lastIndent
      modifies objs
      ensures key == old(key) && val == old(val) && parent == old(parent) && depth == old(depth)
      ensures ok <==> LoadLine(l, line).Some?
      ensures ok ==> LoadLine(l, line) == Some(l')
      ensures ok ==> objs <= objs' && forall x | |objs| <= x < |objs'| :: fresh(objs'[x])
      ensures ok ==> |objs'| == |l'.nodes| && l'.cfg < |objs'|
      ensures ok ==> Rep(objs', l'.nodes) && objs'[l'.cfg] == cfg' && l'.lastIndent == lastIndent'
    {
      hide WellFormed, Rep, AddNode, Up;
      cfg', lastIndent', objs', l' := cfg, lastIndent, objs, l;
      match line
      case Empty =>
        return true, cfg', lastIndent', objs', l';
      case Comment(text) =>
        var c := cfg.AddChild("#", text, objs, l.nodes, l.cfg);
        AddAgrees(l.nodes, l.cfg, "#", text);
        return true, cfg', lastIndent', objs + [c], l.(nodes := AddNode(l.nodes, l.cfg, "#", text));
      case Entry(indent, key, val) =>
        if indent > lastIndent + 1 {
          return false, cfg', lastIndent', objs', l';
        }
        ghost var x: nat := l.cfg;
        var i := indent;
        while i <= lastIndent
          modifies {}
          invariant indent <= i && (i <= lastIndent + 1 || i == indent)
          invariant Rep(objs, l.nodes) && x < |objs| && objs[x] == cfg'
          invariant Up(l.nodes, l.cfg, if indent <= lastIndent then lastIndent - indent + 1 else 0) ==
                    Up(l.nodes, x, if i <= lastIndent then lastIndent - i + 1 else 0)
        {
          UpStep(objs, l.nodes, x, lastIndent - i + 1);
          if cfg' != this {
            cfg' := cfg'.parent;
            x := l.nodes[x].parent;
          }
          i := i + 1;
        }
        UpZero(l.nodes, x);
        var c := cfg'.AddChild(key, val, objs, l.nodes, x);
        AddAgrees(l.nodes, x, key, val);
        return true, c, indent, objs + [c], Loader(AddNode(l.nodes, x, key, val), |l.nodes|, indent);
      case Invalid =>
        return false, cfg', lastIndent', objs', l';
    }
  }

  // Save, and load again.
  method SaveReload(root: Config, ghost objs: seq<Config>, ghost nodes: Nodes)
    returns (again: Config?, ghost objs2: seq<Config>, ghost nodes2: Nodes)
    requires Rep(objs, nodes) && WellFormed(nodes) && |objs| == |nodes| > 0 && objs[0] == root
    requires '\0' !in ConfigTree.Save(TreeOf(nodes, 0))
    ensures again != null ==> Rep(objs2, nodes2) && WellFormed(nodes2) && |objs2| > 0 && objs2[0] == again
    ensures var t := TreeOf(nodes, 0);
            again != null && TreeOf(nodes2, 0) == t <==> ConfigTree.Load(ConfigTree.Save(t)) == Some(t)
  {
    hide ConfigTree.Load, ConfigTree.Save, Rep, TreeOf, LoadLines, Lines, WellFormed;
    FirstDepth(nodes);
    var saved := root.Save(objs, nodes, 0);
    SavedIs(TreeOf(nodes, 0), saved);
    LoaderBuildsTree(saved);
    again, objs2, nodes2 := Config.Load(saved);
    if again != null {
      RepFacts(objs2, nodes2);
    }
  }

  // Main result on the objects: what load returned can be saved, and loading that text again gives
  // objects that form the same tree, exactly if its lines fit.
  method LoadSaveReload(text: string)
    returns (root: Config?, again: Config?,
             ghost objs: seq<Config>, ghost nodes: Nodes, ghost objs2: seq<Config>, ghost nodes2: Nodes)
    requires '\0' !in text
    ensures root == null <==> ConfigTree.Load(text) == None
    ensures root != null ==> Rep(objs, nodes) && |objs| > 0 && objs[0] == root
    ensures again != null ==> root != null && Rep(objs2, nodes2) && |objs2| > 0 && objs2[0] == again
    ensures root != null ==>
              (again != null && TreeOf(nodes2, 0) == TreeOf(nodes, 0) <==> Printable(ConfigTree.Load(text).value))
  {
    hide ConfigTree.Load, ConfigTree.Save, Rep, TreeOf, Canonical, Printable, LoadLines, Lines, WellFormed;
    root, objs, nodes := Config.Load(text);
    LoaderBuildsTree(text);
    again, objs2, nodes2 := null, [], [];
    if root != null {
      RepFacts(objs, nodes);
      LoadedIsCanonical(text);
      SavedText(TreeOf(nodes, 0));
      LoadSaveLoad(text);
      again, objs2, nodes2 := SaveReload(root, objs, nodes);
    }
  }

  lemma {:induction false} SavedIs(t: Tree, saved: string)
    requires saved == Join(PrintLines(t.kids, 0))
    ensures saved == ConfigTree.Save(t)
  {
  }

  // Main result on paths, on the objects: after set, get leads to the object with the new value.
  // What another path led to it still leads to, and its value is the old one unless the path has
  // the same fields.
  method SetThenGet(root: Config, key: string, val: string, other: string,
                    ghost objs: seq<Config>, ghost nodes: Nodes, ghost i: nat)
    returns (before: Config?, got: Config?, after: Config?)
    requires Rep(objs, nodes) && i < |objs| && objs[i] == root && '\0' !in key && '\0' !in other
    modifies objs
    ensures got != null && got.val == val
    ensures before != null ==>
              && after == before && before in objs
              && after.val == if SamePath(PathBuffer(other), PathBuffer(key)) then val else old(before.val)
  {
    hide Rep, WellFormed, Fields, Resolve, ConfigPaths.Set, SamePath, Leads;
    RepFacts(objs, nodes);
    before := root.Get(other, objs, nodes, i);
    ghost var fields, others := Fields(PathBuffer(key)), Fields(PathBuffer(other));
    FieldsSameExactly(PathBuffer(other), PathBuffer(key));
    ConfigPaths.SetThenGet(nodes, i, fields, val, others);
    ghost var (nodes', r) := ConfigPaths.Set(nodes, i, fields, val);
    if before != null {
      RepHolds(objs, nodes, Resolve(nodes, i, others).value);
    }
    ghost var objs';
    var c;
    c, objs' := root.Set(key, val, objs, nodes, i);
    RepHolds(objs', nodes', r);
    got := root.Get(key, objs', nodes', i);
    after := root.Get(other, objs', nodes', i);
    if before != null {
      RepHolds(objs', nodes', Resolve(nodes, i, others).value);
    }
  }

  // Main result on updates, on the objects: set, save and load give objects that form the tree that
  // set made exactly if the path and the value keep to what lines can hold.
  method SetSaveReload(root: Config, key: string, val: string, ghost objs: seq<Config>, ghost nodes: Nodes)
    returns (again: Config?,
             ghost objs': seq<Config>, ghost nodes': Nodes, ghost objs2: seq<Config>, ghost nodes2: Nodes)
    requires Rep(objs, nodes) && WellFormed(nodes) && |objs| == |nodes| && objs[0] == root && Ascending(nodes)
    requires '\0' !in key && '\0' !in val
    requires var t := TreeOf(nodes, 0);
             t.key == ROOT.key && t.val == ROOT.val && Canonical(t.kids) && Printable(t)
    modifies objs
    ensures nodes' == ConfigPaths.Set(nodes, 0, Fields(PathBuffer(key)), val).0
    ensures Rep(objs', nodes') && WellFormed(nodes') && |objs'| > 0 && objs'[0] == root
    ensures again != null ==> Rep(objs2, nodes2) && |objs2| > 0 && objs2[0] == again
    ensures again != null && TreeOf(nodes2, 0) == TreeOf(nodes', 0) <==>
            KidsKeep(TreeOf(nodes, 0).kids, 0, Fields(PathBuffer(key)), val)
  {
    assert |nodes| > 0;
    hide ConfigTree.Load, ConfigTree.Save, Rep, TreeOf, Canonical, Printable, WellFormed;
    hide Fields, KidsKeep, ConfigPaths.Set, Ascending, PathBuffer;
    ghost var fields := Fields(PathBuffer(key));
    BufferNoNul(key);
    FieldsNoNul(PathBuffer(key));
    SetSurvivesExactly(nodes, fields, val);
    nodes' := ConfigPaths.Set(nodes, 0, fields, val).0;
    var c;
    c, objs' := root.Set(key, val, objs, nodes, 0);
    RepFacts(objs', nodes');
    again, objs2, nodes2 := SaveReload(root, objs', nodes');
  }

  lemma {:induction false} BufferNoNul(key: string)
    requires '\0' !in key
    ensures '\0' !in PathBuffer(key)
  {
  }

  lemma {:induction false} FirstDepth(nodes: Nodes)
    requires WellFormed(nodes)
    ensures nodes[0].depth == 0
  {
  }

  // What snprintf into char[CONFIG_MAX_LINE] leaves of a path.
  function PathBuffer(key: string): string {
    if |key| < CONFIG_MAX_LINE then key else key[..CONFIG_MAX_LINE - 1]
  }

  lemma {:induction false} BufferIs(key: string)
    ensures PathBuffer(key) == key[..if |key| < 4096 then |key| else 4095]
  {
  }

  // ---------- Where a path leads, from the objects alone ----------

  // d is the last child of c with this key, or null if there is none.
  ghost predicate LastChild(objs: seq<Config>, c: Config, key: string, d: Config?)
    requires c in objs
    reads objs
  {
    if d == null then forall o <- c.children :: o in objs && o.key != key
    else
      exists j | 0 <= j < |c.children| ::
        && c.children[j] == d && d in objs && d.key == key
        && forall k | j < k < |c.children| :: c.children[k] in objs && c.children[k].key != key
  }

  // The path leads from c to d; null if it leads nowhere. Its fields stand between dots and slashes.
  ghost predicate Leads(objs: seq<Config>, c: Config, path: string, d: Config?)
    requires c in objs
    reads objs
    decreases |path|
  {
    if '.' !in path && '/' !in path then LastChild(objs, c, path, d)
    else
      exists n | 0 <= n < |path| ::
        && (path[n] == '.' || path[n] == '/') && (forall i | 0 <= i < n :: path[i] != '.' && path[i] != '/')
        && if LastChild(objs, c, path[..n], null) then d == null
           else exists m <- objs :: LastChild(objs, c, path[..n], m) && Leads(objs, m, path[n + 1..], d)
  }

  lemma {:induction false} FoundIsLast(objs: seq<Config>, nodes: Nodes, i: nat, key: string)
    requires Rep(objs, nodes) && WellFormed(nodes) && |objs| == |nodes| && i < |objs|
    ensures var r := ConfigPaths.FindChild(nodes, i, key);
            LastChild(objs, objs[i], key, if r == None then null else objs[r.value])
  {
    FindIsLast(nodes, i, key);
    hide WellFormed, FindAmong, ConfigPaths.FindChild;
    assert objs[i].Holds(objs, nodes[i]);
    var cs := nodes[i].children;
    forall j | 0 <= j < |cs| ensures cs[j] < |objs| && objs[cs[j]].key == nodes[cs[j]].key {
      ChildAfter(nodes, i, j);
      assert objs[cs[j]].Holds(objs, nodes[cs[j]]);
    }
    assert forall j | 0 <= j < |cs| :: objs[i].children[j] == objs[cs[j]];
  }

  // What get follows on the nodes is where the path leads on the objects.
  lemma {:induction false} ResolveLeads(objs: seq<Config>, nodes: Nodes, i: nat, path: string)
    requires Rep(objs, nodes) && WellFormed(nodes) && |objs| == |nodes| && i < |objs|
    ensures var r := Resolve(nodes, i, Fields(path));
            Leads(objs, objs[i], path, if r == None then null else objs[r.value])
    decreases |path|
  {
    hide Rep, WellFormed, Fields, LastChild, Leads, Resolve, ConfigPaths.FindChild;
    var n := FirstSeparator(path, 0);
    ResolveCut(nodes, i, path, n);
    var child := ConfigPaths.FindChild(nodes, i, path[..n]);
    FoundIsLast(objs, nodes, i, path[..n]);
    if n == |path| {
      assert path[..n] == path;
      LeadsOne(objs, objs[i], path, if child == None then null else objs[child.value]);
    } else if child.None? {
      LeadsNowhere(objs, objs[i], path, n);
    } else {
      var rest := path[n + 1..];
      ResolveLeads(objs, nodes, child.value, rest);
      var r := Resolve(nodes, child.value, Fields(rest));
      LeadsThrough(objs, objs[i], path, n, objs[child.value], if r == None then null else objs[r.value]);
    }
  }

  // The first field is looked up, and then the rest of the path.
  lemma {:induction false} ResolveCut(nodes: Nodes, i: nat, path: string, n: nat)
    requires WellFormed(nodes) && i < |nodes| && n <= |path| && forall k | 0 <= k < n :: !IsPathSep(path[k])
    requires n < |path| ==> IsPathSep(path[n])
    ensures var child := ConfigPaths.FindChild(nodes, i, path[..n]);
            Resolve(nodes, i, Fields(path)) ==
            if n == |path| || child == None then child
            else Resolve(nodes, child.value, Fields(path[n + 1..]))
  {
    hide WellFormed, Fields, ConfigPaths.FindChild;
    var f, rest := path[..n], path[n..];
    assert f + rest == path;
    FieldsCut(f, rest);
    ResolveOne(nodes, i, f);
    if n < |path| {
      assert rest[1..] == path[n + 1..];
      assert ([f] + Fields(rest[1..]))[1..] == Fields(rest[1..]);
    }
  }

  lemma {:induction false} LeadsOne(objs: seq<Config>, c: Config, path: string, d: Config?)
    requires c in objs && LastChild(objs, c, path, d)
    requires forall i | 0 <= i < |path| :: path[i] != '.' && path[i] != '/'
    ensures Leads(objs, c, path, d)
  {
    hide LastChild;
  }

  lemma {:induction false} LeadsNowhere(objs: seq<Config>, c: Config, path: string, n: nat)
    requires c in objs && n < |path| && (path[n] == '.' || path[n] == '/')
    requires forall i | 0 <= i < n :: path[i] != '.' && path[i] != '/'
    requires LastChild(objs, c, path[..n], null)
    ensures Leads(objs, c, path, null)
  {
    hide LastChild;
    assert path[n] in path;
  }

  lemma {:induction false} LeadsThrough(
    objs: seq<Config>, c: Config, path: string, n: nat, m: Config, d: Config?)
    requires c in objs && m in objs && n < |path| && (path[n] == '.' || path[n] == '/')
    requires forall i | 0 <= i < n :: path[i] != '.' && path[i] != '/'
    requires LastChild(objs, c, path[..n], m) && Leads(objs, m, path[n + 1..], d)
    ensures Leads(objs, c, path, d)
  {
    OneLast(objs, c, path[..n], m);
    hide LastChild;
    assert path[n] in path;
  }

  lemma {:induction false} SetLeads(objs: seq<Config>, nodes: Nodes, i: nat, key: string, val: string)
    requires WellFormed(nodes) && i < |nodes|
    requires Rep(objs, ConfigPaths.Set(nodes, i, Fields(PathBuffer(key)), val).0)
    ensures var r := ConfigPaths.Set(nodes, i, Fields(PathBuffer(key)), val).1;
            && i < |objs| && r < |objs|
            && Leads(objs, objs[i], key[..if |key| < 4096 then |key| else 4095], objs[r])
  {
    hide Rep, WellFormed, Fields, Leads, ConfigPaths.Set;
    var fields := Fields(PathBuffer(key));
    var (nodes', r) := ConfigPaths.Set(nodes, i, fields, val);
    RepFacts(objs, nodes');
    ConfigPaths.SetThenGet(nodes, i, fields, val, fields);
    BufferIs(key);
    ResolveLeads(objs, nodes', i, PathBuffer(key));
  }

  lemma {:induction false} OneLast(objs: seq<Config>, c: Config, key: string, d: Config)
    requires c in objs && LastChild(objs, c, key, d)
    ensures !LastChild(objs, c, key, null)
  {
  }

  lemma {:induction false} FirstSeparator(path: string, from: nat) returns (n: nat)
    requires from <= |path|
    ensures from <= n <= |path| && (n < |path| ==> path[n] == '.' || path[n] == '/')
    ensures forall i | from <= i < n :: path[i] != '.' && path[i] != '/' && !IsPathSep(path[i])
    decreases |path| - from
  {
    if from == |path| || path[from] == '.' || path[from] == '/' {
      n := from;
    } else {
      n := FirstSeparator(path, from + 1);
    }
  }

  // The objects hold exactly these nodes.
  ghost predicate Rep(objs: seq<Config>, nodes: Nodes)
    reads objs
  {
    && |objs| == |nodes| && WellFormed(nodes)
    && (forall i, j | 0 <= i < j < |objs| :: objs[i] != objs[j])
    && forall i | 0 <= i < |objs| :: objs[i].Holds(objs, nodes[i])
  }

  // A new object c, hung under object i, represents an added node.
  lemma {:induction false} RepGrows(objs: seq<Config>, nodes: Nodes, i: nat, c: Config, key: string, val: string)
    requires |objs| == |nodes| && WellFormed(nodes) && i < |objs| && c !in objs
    requires forall x, y | 0 <= x < y < |objs| :: objs[x] != objs[y]
    requires forall x | 0 <= x < |objs| && x != i :: objs[x].Holds(objs, nodes[x])
    requires objs[i].Holds(objs + [c], nodes[i].(children := nodes[i].children + [|nodes|]))
    requires c.Holds(objs + [c], Node(i, nodes[i].depth + 1, key, val, []))
    ensures Rep(objs + [c], AddNode(nodes, i, key, val))
  {
    AddWellFormed(nodes, i, key, val);
    AddAgrees(nodes, i, key, val);
    RootParent(nodes);
    hide WellFormed, AddNode, Config.Holds;
    var objs', nodes' := objs + [c], AddNode(nodes, i, key, val);
    forall x | 0 <= x < |objs'| ensures objs'[x].Holds(objs', nodes'[x]) {
      if x < |objs| && x != i {
        HoldsMore(objs[x], objs, c, nodes[x]);
      }
    }
  }

  lemma {:induction false} HoldsMore(o: Config, objs: seq<Config>, c: Config, n: Node)
    requires o.Holds(objs, n) && n.parent < |objs|
    ensures o.Holds(objs + [c], n)
  {
  }

  lemma {:induction false} RepFacts(objs: seq<Config>, nodes: Nodes)
    requires Rep(objs, nodes)
    ensures WellFormed(nodes) && |objs| == |nodes|
  {
  }

  lemma {:induction false} RootParent(nodes: Nodes)
    requires WellFormed(nodes)
    ensures forall i | 0 <= i < |nodes| :: nodes[i].parent < |nodes|
  {
  }

  lemma {:induction false} RepHolds(objs: seq<Config>, nodes: Nodes, i: nat)
    requires Rep(objs, nodes) && i < |objs|
    ensures |objs| == |nodes| && objs[i].Holds(objs, nodes[i])
  {
  }

  lemma {:induction false} RepStart(root: Config)
    requires root.parent == null && root.depth == 0 && root.children == [] && root.key == "root" && root.val == ""
    ensures Rep([root], FIRST)
  {
  }

  // A move to the parent, on the objects and on the nodes.
  lemma {:induction false} UpStep(objs: seq<Config>, nodes: Nodes, x: nat, times: nat)
    requires Rep(objs, nodes) && WellFormed(nodes) && |objs| == |nodes| && x < |objs| && times > 0
    ensures objs[x] == objs[0] <==> x == 0
    ensures x == 0 ==> Up(nodes, x, times) == Up(nodes, x, times - 1) == 0
    ensures x > 0 ==> 0 <= nodes[x].parent < |nodes| && objs[x].parent == objs[nodes[x].parent] &&
                      Up(nodes, x, times) == Up(nodes, nodes[x].parent, times - 1)
  {
    assert objs[x].Holds(objs, nodes[x]);
  }

  lemma {:induction false} UpZero(nodes: Nodes, x: nat)
    requires WellFormed(nodes) && x < |nodes|
    ensures Up(nodes, x, 0) == x
  {
  }

  lemma {:induction false} FirstWellFormed()
    ensures WellFormed(FIRST)
  {
  }

  lemma {:induction false} LoadNext(l: Loader, s: string)
    requires WellFormed(l.nodes) && l.cfg < |l.nodes| && s != ""
    ensures var n := ChunkLength(s, CONFIG_MAX_LINE - 1);
            var next := LoadLine(l, ParseLine(s[..n - 1]));
            LoadLines(l, Lines(s)) == if next == None then None else LoadLines(next.value, Lines(s[n..]))
  {
    hide LoadLine, ParseLine, ChunkLength, WellFormed;
  }

  lemma {:induction false} LoadEnd(l: Loader)
    requires WellFormed(l.nodes) && l.cfg < |l.nodes|
    ensures LoadLines(l, Lines("")) == Some(l)
  {
  }

  lemma {:induction false} ChildDepth(nodes: Nodes, i: nat, j: nat)
    requires WellFormed(nodes) && i < |nodes| && j < |nodes[i].children|
    ensures nodes[nodes[i].children[j]].depth == nodes[i].depth + 1
  {
    ChildAfter(nodes, i, j);
  }
}
