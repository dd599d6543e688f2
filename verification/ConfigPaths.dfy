// Looking nodes up by path, and making the path to a node, over the nodes of ConfigArena.
module ConfigPaths {
  import opened Options
  import opened ConfigArena

  predicate IsPathSep(c: char) {
    c == '.' || c == '/'
  }

  // The fields of a path.
  function Fields(path: string): (fs: seq<string>)
    ensures fs != []
  {
    if path == "" then [""]
    else
      var fs := Fields(path[1..]);
      if IsPathSep(path[0]) then [""] + fs else [[path[0]] + fs[0]] + fs[1..]
  }

  lemma {:induction false} FieldsCut(f: string, rest: string)
    requires forall i | 0 <= i < |f| :: !IsPathSep(f[i])
    ensures rest == "" ==> Fields(f + rest) == [f]
    ensures rest != "" && IsPathSep(rest[0]) ==> Fields(f + rest) == [f] + Fields(rest[1..])
  {
    if f == "" {
      assert f + rest == rest;
    } else {
      assert (f + rest)[1..] == f[1..] + rest;
      FieldsCut(f[1..], rest);
      assert [f[0]] + f[1..] == f;
    }
  }

  // The same path, but for which of dot and slash stands between the fields.
  predicate SamePath(a: string, b: string) {
    |a| == |b| &&
    forall i | 0 <= i < |a| :: a[i] == b[i] || ((a[i] == '.' || a[i] == '/') && (b[i] == '.' || b[i] == '/'))
  }

  lemma {:induction false} FieldsSameExactly(a: string, b: string)
    ensures Fields(a) == Fields(b) <==> SamePath(a, b)
  {
    hide Fields;
    FieldsFirst(a);
    FieldsFirst(b);
    if a != "" && b != "" {
      FieldsSameExactly(a[1..], b[1..]);
      var fa, fb := Fields(a[1..]), Fields(b[1..]);
      assert SamePath(a, b) <==> SamePath(a[..1], b[..1]) && SamePath(a[1..], b[1..]);
      if Fields(a) == Fields(b) {
        if IsPathSep(a[0]) {
          assert fa == ([""] + fa)[1..] && fb == ([""] + fb)[1..];
        } else {
          assert !IsPathSep(b[0]) && [a[0]] + fa[0] == [b[0]] + fb[0];
          assert a[0] == ([a[0]] + fa[0])[0] == ([b[0]] + fb[0])[0] == b[0];
          assert fa[0] == ([a[0]] + fa[0])[1..] && fb[0] == ([b[0]] + fb[0])[1..];
          assert fa[1..] == Fields(a)[1..] == Fields(b)[1..] == fb[1..];
          assert fa == [fa[0]] + fa[1..] && fb == [fb[0]] + fb[1..];
        }
      }
    }
  }

  lemma {:induction false} FieldsFirst(path: string)
    ensures path == "" ==> Fields(path) == [""]
    ensures path != "" ==> var fs := Fields(path[1..]);
                           Fields(path) == if IsPathSep(path[0]) then [""] + fs else [[path[0]] + fs[0]] + fs[1..]
    ensures path != "" ==> (Fields(path)[0] == "" <==> IsPathSep(path[0]))
    ensures path != "" && IsPathSep(path[0]) ==> |Fields(path)| > 1
  {
  }

  // The last of the first n children of node i with this key.
  function FindAmong(nodes: Nodes, i: nat, key: string, n: nat): (r: Option<nat>)
    requires WellFormed(nodes) && i < |nodes| && n <= |nodes[i].children|
    ensures r.Some? ==> i < r.value < |nodes| && nodes[r.value].key == key && nodes[r.value].parent == i
  {
    if n == 0 then None
    else if nodes[nodes[i].children[n - 1]].key == key then Some(nodes[i].children[n - 1])
    else FindAmong(nodes, i, key, n - 1)
  }

  // Config::find_child on node i
  function FindChild(nodes: Nodes, i: nat, key: string): (r: Option<nat>)
    requires WellFormed(nodes) && i < |nodes|
    ensures r.Some? ==> i < r.value < |nodes| && nodes[r.value].key == key && nodes[r.value].parent == i
  {
    FindAmong(nodes, i, key, |nodes[i].children|)
  }

  lemma {:induction false} FindIsLast(nodes: Nodes, i: nat, key: string)
    requires WellFormed(nodes) && i < |nodes|
    ensures var r, cs := FindChild(nodes, i, key), nodes[i].children;
            && (forall j | 0 <= j < |cs| :: cs[j] < |nodes|)
            && if r == None then forall j | 0 <= j < |cs| :: nodes[cs[j]].key != key
               else exists j | 0 <= j < |cs| ::
                      && cs[j] == r.value && nodes[cs[j]].key == key
                      && forall k | j < k < |cs| :: nodes[cs[k]].key != key
  {
    var cs := nodes[i].children;
    var n := |cs|;
    while n > 0 && nodes[cs[n - 1]].key != key
      invariant 0 <= n <= |cs| && FindChild(nodes, i, key) == FindAmong(nodes, i, key, n)
      invariant forall j | n <= j < |cs| :: nodes[cs[j]].key != key
    {
      n := n - 1;
    }
    assert n > 0 ==> FindChild(nodes, i, key) == Some(cs[n - 1]);
  }

  // The node that the fields lead to from node i.
  function Resolve(nodes: Nodes, i: nat, fields: seq<string>): (r: Option<nat>)
    requires WellFormed(nodes) && i < |nodes|
    ensures r.Some? ==> i <= r.value < |nodes|
    decreases |fields|
  {
    if fields == [] then Some(i)
    else
      var c := FindChild(nodes, i, fields[0]);
      if c == None then None else Resolve(nodes, c.value, fields[1..])
  }

  // Config::build_key_path from node i: the nodes with the missing fields added, and the last one.
  function Build(nodes: Nodes, i: nat, fields: seq<string>): (r: (Nodes, nat))
    requires WellFormed(nodes) && i < |nodes|
    ensures WellFormed(r.0) && i <= r.1 < |r.0| && |nodes| <= |r.0|
    decreases |fields|
  {
    if fields == [] then (nodes, i)
    else
      var c := FindChild(nodes, i, fields[0]);
      if c.Some? then Build(nodes, c.value, fields[1..])
      else
        AddWellFormed(nodes, i, fields[0], "");
        Build(AddNode(nodes, i, fields[0], ""), |nodes|, fields[1..])
  }

  // Config::set from node i
  function Set(nodes: Nodes, i: nat, fields: seq<string>, val: string): (r: (Nodes, nat))
    requires WellFormed(nodes) && i < |nodes|
    ensures r.1 < |r.0|
  {
    var (nodes', c) := Build(nodes, i, fields);
    (nodes'[c := nodes'[c].(val := val)], c)
  }

  // How many fields lead to nodes that exist.
  function Known(nodes: Nodes, i: nat, fields: seq<string>): (n: nat)
    requires WellFormed(nodes) && i < |nodes|
    ensures n <= |fields|
    decreases |fields|
  {
    if fields == [] then 0
    else
      var c := FindChild(nodes, i, fields[0]);
      if c == None then 0 else 1 + Known(nodes, c.value, fields[1..])
  }

  lemma {:induction false} KnownIs(nodes: Nodes, i: nat, fields: seq<string>, n: nat)
    requires WellFormed(nodes) && i < |nodes| && n <= |fields|
    ensures Resolve(nodes, i, fields[..n]).Some? <==> n <= Known(nodes, i, fields)
    decreases |fields|
  {
    hide WellFormed, FindChild;
    if n > 0 {
      var c := FindChild(nodes, i, fields[0]);
      assert fields[..n][0] == fields[0] && fields[..n][1..] == fields[1..][..n - 1];
      if c.Some? {
        KnownIs(nodes, c.value, fields[1..], n - 1);
      }
    }
  }

  // ---------- What an added node changes ----------

  lemma {:induction false} FindAfterAdd(nodes: Nodes, i: nat, key: string, val: string, j: nat, k: string)
    requires WellFormed(nodes) && i < |nodes| && FindChild(nodes, i, key) == None && j <= |nodes|
    ensures var nodes' := AddNode(nodes, i, key, val);
            && WellFormed(nodes')
            && FindChild(nodes', j, k) ==
               if j == |nodes| then None
               else if j == i && k == key then Some(|nodes|)
               else FindChild(nodes, j, k)
  {
    hide WellFormed, AddNode, FindAmong, FindChild;
    var nodes' := AddNode(nodes, i, key, val);
    AddWellFormed(nodes, i, key, val);
    AddAgrees(nodes, i, key, val);
    FindFirst(nodes', j, k);
    if j < |nodes| {
      var n := |nodes[j].children|;
      FindAmongAfterAdd(nodes, nodes', j, k, n);
      FindAll(nodes, j, k);
      if j == i {
        assert nodes'[i].children[n] == |nodes|;
      } else {
        FindAll(nodes', j, k);
      }
    }
  }

  lemma {:induction false} FindAll(nodes: Nodes, j: nat, k: string)
    requires WellFormed(nodes) && j < |nodes|
    ensures FindChild(nodes, j, k) == FindAmong(nodes, j, k, |nodes[j].children|)
  {
    hide WellFormed, FindAmong;
  }

  // find_child looks at the last child first.
  lemma {:induction false} FindFirst(nodes: Nodes, j: nat, k: string)
    requires WellFormed(nodes) && j < |nodes|
    ensures var n := |nodes[j].children|;
            && (n > 0 ==> nodes[j].children[n - 1] < |nodes|)
            && FindChild(nodes, j, k) ==
               if n == 0 then None
               else if nodes[nodes[j].children[n - 1]].key == k then Some(nodes[j].children[n - 1])
               else FindAmong(nodes, j, k, n - 1)
  {
    if nodes[j].children != [] {
      ChildAfter(nodes, j, |nodes[j].children| - 1);
    }
    hide WellFormed;
  }

  lemma {:induction false} FindAmongAfterAdd(nodes: Nodes, nodes': Nodes, j: nat, k: string, n: nat)
    requires WellFormed(nodes) && WellFormed(nodes') && j < |nodes| <= |nodes'|
    requires n <= |nodes[j].children| && nodes[j].children <= nodes'[j].children
    requires forall x | 0 <= x < |nodes| :: nodes'[x].key == nodes[x].key
    ensures FindAmong(nodes', j, k, n) == FindAmong(nodes, j, k, n)
  {
    hide WellFormed;
    if n > 0 {
      ChildAfter(nodes, j, n - 1);
      assert nodes'[j].children[n - 1] == nodes[j].children[n - 1];
      FindAmongAfterAdd(nodes, nodes', j, k, n - 1);
    }
  }

  // A node that was found by a path is still found by it.
  lemma {:induction false} ResolveAfterAdd(
    nodes: Nodes, i: nat, key: string, val: string, j: nat, fields: seq<string>)
    requires WellFormed(nodes) && i < |nodes| && FindChild(nodes, i, key) == None && j < |nodes|
    requires Resolve(nodes, j, fields).Some?
    ensures var nodes' := AddNode(nodes, i, key, val);
            WellFormed(nodes') && Resolve(nodes', j, fields) == Resolve(nodes, j, fields)
    decreases |fields|
  {
    AddWellFormed(nodes, i, key, val);
    hide WellFormed, AddNode, FindChild;
    if fields != [] {
      FindAfterAdd(nodes, i, key, val, j, fields[0]);
      ResolveAfterAdd(nodes, i, key, val, FindChild(nodes, j, fields[0]).value, fields[1..]);
    }
  }

  // Old nodes keep everything but new children.
  ghost predicate Grew(nodes: Nodes, nodes': Nodes) {
    && |nodes| <= |nodes'|
    && forall x | 0 <= x < |nodes| ::
         nodes'[x] == nodes[x].(children := nodes'[x].children) && nodes[x].children <= nodes'[x].children
  }

  lemma {:induction false} BuildKeeps(nodes: Nodes, i: nat, fields: seq<string>)
    requires WellFormed(nodes) && i < |nodes|
    ensures Grew(nodes, Build(nodes, i, fields).0)
    decreases |fields|
  {
    hide WellFormed, AddNode, FindChild;
    if fields != [] {
      var c := FindChild(nodes, i, fields[0]);
      if c.Some? {
        BuildKeeps(nodes, c.value, fields[1..]);
      } else {
        AddWellFormed(nodes, i, fields[0], "");
        AddAgrees(nodes, i, fields[0], "");
        BuildKeeps(AddNode(nodes, i, fields[0], ""), |nodes|, fields[1..]);
      }
    }
  }

  lemma {:induction false} ResolveAfterBuild(nodes: Nodes, i: nat, fields: seq<string>, j: nat, other: seq<string>)
    requires WellFormed(nodes) && i < |nodes| && j < |nodes| && Resolve(nodes, j, other).Some?
    ensures Resolve(Build(nodes, i, fields).0, j, other) == Resolve(nodes, j, other)
    decreases |fields|
  {
    hide WellFormed, AddNode, FindChild, Resolve;
    if fields != [] {
      var c := FindChild(nodes, i, fields[0]);
      if c.Some? {
        ResolveAfterBuild(nodes, c.value, fields[1..], j, other);
      } else {
        AddWellFormed(nodes, i, fields[0], "");
        AddAgrees(nodes, i, fields[0], "");
        ResolveAfterAdd(nodes, i, fields[0], "", j, other);
        ResolveAfterBuild(AddNode(nodes, i, fields[0], ""), |nodes|, fields[1..], j, other);
      }
    }
  }

  // build_key_path really makes the path.
  lemma {:induction false} BuildResolves(nodes: Nodes, i: nat, fields: seq<string>)
    requires WellFormed(nodes) && i < |nodes|
    ensures var (nodes', c) := Build(nodes, i, fields); Resolve(nodes', i, fields) == Some(c)
    decreases |fields|
  {
    hide WellFormed, AddNode, FindChild;
    if fields != [] {
      var c := FindChild(nodes, i, fields[0]);
      var one := [fields[0]];
      if c.Some? {
        BuildResolves(nodes, c.value, fields[1..]);
        assert Resolve(nodes, i, one) == c;
        ResolveAfterBuild(nodes, c.value, fields[1..], i, one);
      } else {
        AddWellFormed(nodes, i, fields[0], "");
        AddAgrees(nodes, i, fields[0], "");
        var nodes1 := AddNode(nodes, i, fields[0], "");
        BuildResolves(nodes1, |nodes|, fields[1..]);
        FindAfterAdd(nodes, i, fields[0], "", i, fields[0]);
        assert Resolve(nodes1, i, one) == Some(|nodes|);
        ResolveAfterBuild(nodes1, |nodes|, fields[1..], i, one);
      }
      ResolveOne(Build(nodes, i, fields).0, i, fields[0]);
    }
  }

  lemma {:induction false} ResolveOne(nodes: Nodes, i: nat, field: string)
    requires WellFormed(nodes) && i < |nodes|
    ensures Resolve(nodes, i, [field]) == FindChild(nodes, i, field)
  {
    hide WellFormed, FindChild;
    assert [field][1..] == [];
  }

  // From node n on there are just the nodes of these fields, one below the other, under p.
  ghost predicate Appended(nodes: Nodes, n: nat, fields: seq<string>, p: int) {
    && |nodes| == n + |fields|
    && forall x | n <= x < |nodes| ::
         nodes[x].key == fields[x - n] && nodes[x].val == "" && nodes[x].parent == if x == n then p else x - 1
  }

  // A fresh node has no children, so everything below it is missing.
  lemma {:induction false} BuildAddsAll(nodes: Nodes, i: nat, fields: seq<string>)
    requires WellFormed(nodes) && i < |nodes| && (fields != [] ==> FindChild(nodes, i, fields[0]) == None)
    ensures Appended(Build(nodes, i, fields).0, |nodes|, fields, i)
    decreases |fields|
  {
    hide WellFormed, AddNode, FindChild, Appended;
    if fields == [] {
      NothingAppended(nodes, i);
    } else {
      var nodes1, n := AddNode(nodes, i, fields[0], ""), |nodes|;
      AddWellFormed(nodes, i, fields[0], "");
      AddAgrees(nodes, i, fields[0], "");
      BuildKeeps(nodes1, n, fields[1..]);
      if |fields| > 1 {
        FindAfterAdd(nodes, i, fields[0], "", n, fields[1]);
      }
      BuildAddsAll(nodes1, n, fields[1..]);
      AppendedFirst(Build(nodes, i, fields).0, n, fields, i);
    }
  }

  lemma {:induction false} NothingAppended(nodes: Nodes, i: nat)
    ensures Appended(nodes, |nodes|, [], i)
  {
  }

  lemma {:induction false} AppendedFirst(nodes: Nodes, n: nat, fields: seq<string>, p: int)
    requires fields != [] && Appended(nodes, n + 1, fields[1..], n) && n < |nodes|
    requires nodes[n].key == fields[0] && nodes[n].val == "" && nodes[n].parent == p
    ensures Appended(nodes, n, fields, p)
  {
  }

  // The new nodes are exactly the missing fields.
  lemma {:induction false} BuildAdds(nodes: Nodes, i: nat, fields: seq<string>)
    requires WellFormed(nodes) && i < |nodes|
    ensures var m := Known(nodes, i, fields);
            && Resolve(nodes, i, fields[..m]).Some?
            && Appended(Build(nodes, i, fields).0, |nodes|, fields[m..], Resolve(nodes, i, fields[..m]).value)
    decreases |fields|
  {
    hide WellFormed, AddNode, FindChild, Appended;
    var m := Known(nodes, i, fields);
    if m == 0 {
      assert fields[m..] == fields;
      BuildAddsAll(nodes, i, fields);
    } else {
      BuildAdds(nodes, FindChild(nodes, i, fields[0]).value, fields[1..]);
      assert fields[..m][0] == fields[0] && fields[..m][1..] == fields[1..][..m - 1];
      assert fields[m..] == fields[1..][m - 1..];
    }
  }

  // ---------- A node has one path ----------

  lemma {:induction false} ResolveSnoc(nodes: Nodes, i: nat, fields: seq<string>, field: string)
    requires WellFormed(nodes) && i < |nodes|
    ensures Resolve(nodes, i, fields + [field]) ==
            if Resolve(nodes, i, fields) == None then None
            else FindChild(nodes, Resolve(nodes, i, fields).value, field)
    decreases |fields|
  {
    hide WellFormed, FindChild;
    if fields == [] {
      assert fields + [field] == [field];
      ResolveOne(nodes, i, field);
    } else {
      assert (fields + [field])[1..] == fields[1..] + [field];
      var c := FindChild(nodes, i, fields[0]);
      if c.Some? {
        ResolveSnoc(nodes, c.value, fields[1..], field);
      }
    }
  }

  lemma {:induction false} ResolveUnique(nodes: Nodes, i: nat, a: seq<string>, b: seq<string>)
    requires WellFormed(nodes) && i < |nodes|
    requires Resolve(nodes, i, a).Some? && Resolve(nodes, i, a) == Resolve(nodes, i, b)
    ensures a == b
    decreases |a|
  {
    hide WellFormed, FindChild;
    var x := Resolve(nodes, i, a).value;
    if a != [] {
      LastStep(nodes, i, a);
    }
    if b != [] {
      LastStep(nodes, i, b);
    }
    if a != [] && b != [] {
      ResolveUnique(nodes, i, a[..|a| - 1], b[..|b| - 1]);
      assert a == a[..|a| - 1] + [a[|a| - 1]] && b == b[..|b| - 1] + [b[|b| - 1]];
    }
  }

  lemma {:induction false} LastStep(nodes: Nodes, i: nat, a: seq<string>)
    requires WellFormed(nodes) && i < |nodes| && a != [] && Resolve(nodes, i, a).Some?
    ensures var x, n := Resolve(nodes, i, a).value, |a| - 1;
            && x > i && nodes[x].key == a[n] && nodes[x].parent >= 0
            && Resolve(nodes, i, a[..n]) == Some(nodes[x].parent as nat)
  {
    hide WellFormed, FindChild;
    var n := |a| - 1;
    assert a == a[..n] + [a[n]];
    ResolveSnoc(nodes, i, a[..n], a[n]);
  }

  // ---------- set and get ----------

  // Values play no part in finding nodes.
  lemma {:induction false} ResolveIgnoresValue(nodes: Nodes, c: nat, val: string, i: nat, fields: seq<string>)
    requires WellFormed(nodes) && c < |nodes| && i < |nodes|
    ensures var nodes' := nodes[c := nodes[c].(val := val)];
            WellFormed(nodes') && Resolve(nodes', i, fields) == Resolve(nodes, i, fields)
    decreases |fields|
  {
    var nodes' := nodes[c := nodes[c].(val := val)];
    assert forall x | 0 <= x < |nodes| :: nodes'[x] == nodes[x].(val := nodes'[x].val);
    assert WellFormed(nodes');
    hide WellFormed, FindChild;
    if fields != [] {
      FindAmongAfterAdd(nodes, nodes', i, fields[0], |nodes[i].children|);
      FindIs(nodes, nodes', i, fields[0]);
      var next := FindChild(nodes, i, fields[0]);
      if next.Some? {
        ResolveIgnoresValue(nodes, c, val, next.value, fields[1..]);
      }
    }
  }

  lemma {:induction false} FindIs(nodes: Nodes, nodes': Nodes, i: nat, key: string)
    requires WellFormed(nodes) && WellFormed(nodes') && i < |nodes| <= |nodes'|
    requires nodes'[i].children == nodes[i].children
    requires FindAmong(nodes', i, key, |nodes[i].children|) == FindAmong(nodes, i, key, |nodes[i].children|)
    ensures FindChild(nodes', i, key) == FindChild(nodes, i, key)
  {
  }

  // Main result on paths: after set the path leads to a node with the new value; every path that
  // led somewhere leads to the same node, and only the path that was set sees another value.
  lemma {:induction false} SetThenGet(nodes: Nodes, i: nat, fields: seq<string>, val: string, other: seq<string>)
    requires WellFormed(nodes) && i < |nodes|
    ensures var (nodes', c) := Set(nodes, i, fields, val);
            && WellFormed(nodes') && |nodes| <= |nodes'|
            && Resolve(nodes', i, fields) == Some(c) && nodes'[c].val == val
            && (Resolve(nodes, i, other).Some? ==>
                  var x := Resolve(nodes, i, other).value;
                  && Resolve(nodes', i, other) == Some(x)
                  && nodes'[x].val == if other == fields then val else nodes[x].val)
  {
    hide WellFormed, Resolve, Build;
    var (nodes1, c) := Build(nodes, i, fields);
    BuildResolves(nodes, i, fields);
    BuildKeeps(nodes, i, fields);
    ResolveIgnoresValue(nodes1, c, val, i, fields);
    if Resolve(nodes, i, other).Some? {
      ResolveAfterBuild(nodes, i, fields, i, other);
      ResolveIgnoresValue(nodes1, c, val, i, other);
      if Resolve(nodes1, i, other) == Some(c) {
        ResolveUnique(nodes1, i, other, fields);
      }
    }
  }
}
