// Configuration trees as values: the loader as a fold over lines, the printer, and the two
// undoing each other.
module ConfigTree {
  import opened Options
  import opened ConfigText

  datatype Tree = Tree(key: string, val: string, kids: seq<Tree>) {
    predicate IsComment() {
      |key| > 0 && key[0] == '#'
    }

    function Add(kid: Tree): Tree {
      this.(kids := kids + [kid])
    }
  }

  const ROOT := Tree("root", "", [])

  // ---------- Loading ----------

  // The nodes from the root to the cursor of the loader, each without the next one among its
  // children, and the indent of the last entry.
  datatype State = State(spine: seq<Tree>, lastIndent: nat)

  const START := State([ROOT], 0)

  // Closes the last nodes of the spine until n are left.
  function PopTo(spine: seq<Tree>, n: nat): (r: seq<Tree>)
    requires 1 <= n <= |spine|
    ensures |r| == n && r[..n - 1] == spine[..n - 1] && (n == |spine| ==> r == spine)
    decreases |spine|
  {
    if n == |spine| then spine
    else
      var m := |spine| - 2;
      PopTo(spine[..m] + [spine[m].Add(spine[m + 1])], n)
  }

  function Close(spine: seq<Tree>): Tree
    requires spine != []
  {
    PopTo(spine, 1)[0]
  }

  // How many nodes of a spine of length n are left when an entry with this indent comes.
  function Kept(n: nat, indent: nat, lastIndent: nat): (k: nat)
    requires n >= 1
    ensures 1 <= k <= n
  {
    if indent > lastIndent || n == 1 then n
    else
      var k := n - (lastIndent - indent + 1);
      if k >= 1 then k else 1
  }

  function Step(st: State, line: Line): (r: Option<State>)
    requires st.spine != []
    ensures r.Some? ==> r.value.spine != []
  {
    var last := |st.spine| - 1;
    match line
    case Empty => Some(st)
    case Comment(text) => Some(st.(spine := st.spine[last := st.spine[last].Add(Tree("#", text, []))]))
    case Entry(indent, key, val) =>
      if indent > st.lastIndent + 1 then None
      else Some(State(PopTo(st.spine, Kept(|st.spine|, indent, st.lastIndent)) + [Tree(key, val, [])], indent))
    case Invalid => None
  }

  function Run(st: State, ls: seq<string>): (r: Option<State>)
    requires st.spine != []
    ensures r.Some? ==> r.value.spine != []
    decreases |ls|
  {
    if ls == [] then Some(st)
    else
      var next := Step(st, ParseLine(ls[0]));
      if next == None then None else Run(next.value, ls[1..])
  }

  // Config::load on the text of a file; None stands for NULL.
  function Load(text: string): Option<Tree> {
    var r := Run(START, Lines(text));
    if r == None then None else Some(Close(r.value.spine))
  }

  // ---------- Saving ----------

  function PrintLines(kids: seq<Tree>, depth: nat): seq<string> {
    if kids == [] then []
    else
      [PrintLine(depth, kids[0].key, kids[0].val)]
      + PrintLines(kids[0].kids, depth + 1) + PrintLines(kids[1..], depth)
  }

  // Config::save on the root.
  function Save(t: Tree): string {
    Join(PrintLines(t.kids, 0))
  }

  lemma {:induction false} PrintFirst(kids: seq<Tree>, d: nat)
    requires kids != []
    ensures Join(PrintLines(kids, d)) ==
            PrintLine(d, kids[0].key, kids[0].val) + "\n"
            + Join(PrintLines(kids[0].kids, d + 1)) + Join(PrintLines(kids[1..], d))
  {
    var line := PrintLine(d, kids[0].key, kids[0].val);
    var ls, more := PrintLines(kids[0].kids, d + 1), PrintLines(kids[1..], d);
    hide PrintLine;
    JoinAppend([line] + ls, more);
    JoinAppend([line], ls);
    assert [line][1..] == [];
    assert Join([line]) == line + "\n";
    assert PrintLines(kids, d) == [line] + ls + more;
  }

  lemma {:induction false} PrintNone(d: nat)
    ensures Join(PrintLines([], d)) == ""
  {
  }

  // ---------- Canonical trees ----------

  // What a loaded tree looks like below its root: comments in front and without children, keys
  // and values as an entry line can hold them.
  predicate Canonical(kids: seq<Tree>) {
    && (forall i, j | 0 <= i < j < |kids| && kids[j].IsComment() :: kids[i].IsComment())
    && forall i | 0 <= i < |kids| :: CanonicalNode(kids[i])
  }

  predicate CanonicalNode(t: Tree) {
    if t.IsComment() then t.key == "#" && t.kids == [] && LineSafe(t.val)
    else EntryShape(t.key, t.val) && Canonical(t.kids)
  }

  predicate NoComments(kids: seq<Tree>) {
    forall i | 0 <= i < |kids| :: !kids[i].IsComment()
  }

  predicate OnlyComments(kids: seq<Tree>) {
    forall i | 0 <= i < |kids| :: kids[i].IsComment()
  }

  lemma {:induction false} CanonicalAppend(kids: seq<Tree>, kid: Tree)
    requires Canonical(kids) && CanonicalNode(kid) && (kid.IsComment() ==> OnlyComments(kids))
    ensures Canonical(kids + [kid])
  {
  }

  // Every open node is canonical so far, and only comments hang under the cursor.
  predicate SpineCanonical(spine: seq<Tree>) {
    && spine != [] && spine[0].key == ROOT.key && spine[0].val == ROOT.val
    && (forall i | 0 <= i < |spine| :: Canonical(spine[i].kids))
    && (forall i | 1 <= i < |spine| :: EntryShape(spine[i].key, spine[i].val))
  }

  lemma {:induction false} PopCanonical(spine: seq<Tree>, n: nat)
    requires SpineCanonical(spine) && 1 <= n <= |spine|
    ensures SpineCanonical(PopTo(spine, n))
    decreases |spine|
  {
    if n < |spine| {
      var m := |spine| - 2;
      assert CanonicalNode(spine[m + 1]);
      CanonicalAppend(spine[m].kids, spine[m + 1]);
      PopCanonical(spine[..m] + [spine[m].Add(spine[m + 1])], n);
    }
  }

  predicate StateCanonical(st: State) {
    SpineCanonical(st.spine) && OnlyComments(st.spine[|st.spine| - 1].kids)
  }

  lemma {:induction false} StepCanonical(st: State, buf: string)
    requires StateCanonical(st) && LineSafe(buf) && Step(st, ParseLine(buf)).Some?
    ensures StateCanonical(Step(st, ParseLine(buf)).value)
  {
    hide ParseLine, PopTo, EntryShape, LineSafe;
    var line, last := ParseLine(buf), |st.spine| - 1;
    ParsedShape(buf);
    match line
    case Comment(text) =>
      CanonicalAppend(st.spine[last].kids, Tree("#", text, []));
    case Entry(indent, key, val) =>
      PopCanonical(st.spine, Kept(|st.spine|, indent, st.lastIndent));
    case _ =>
  }

  lemma {:induction false} RunCanonical(st: State, ls: seq<string>)
    requires StateCanonical(st) && (forall i | 0 <= i < |ls| :: LineSafe(ls[i])) && Run(st, ls).Some?
    ensures StateCanonical(Run(st, ls).value)
    decreases |ls|
  {
    hide ParseLine, Step, LineSafe;
    if ls != [] {
      StepCanonical(st, ls[0]);
      RunCanonical(Step(st, ParseLine(ls[0])).value, ls[1..]);
    }
  }

  // Whatever load returns is canonical.
  lemma {:induction false} LoadedIsCanonical(text: string)
    requires '\0' !in text && Load(text).Some?
    ensures var t := Load(text).value;
            t.key == ROOT.key && t.val == ROOT.val && Canonical(t.kids)
  {
    hide Run, PopTo, Lines;
    LinesSafe(text);
    RunCanonical(START, Lines(text));
    PopCanonical(Run(START, Lines(text)).value.spine, 1);
  }

  // The indent of the last entry of ls, 0 if there is none.
  function LastIndent(ls: seq<string>): nat {
    if ls == [] then 0
    else
      var last := ParseLine(ls[|ls| - 1]);
      if last.Entry? then last.indent else LastIndent(ls[..|ls| - 1])
  }

  // Line i can be read and is at most one level deeper than the entry before it.
  predicate Acceptable(ls: seq<string>, i: nat)
    requires i < |ls|
  {
    var line := ParseLine(ls[i]);
    line != Invalid && (line.Entry? ==> line.indent <= LastIndent(ls[..i]) + 1)
  }

  // load accepts exactly the files all of whose lines are acceptable.
  lemma {:induction false} AcceptedExactly(ls: seq<string>)
    ensures Run(START, ls).Some? <==> forall i | 0 <= i < |ls| :: Acceptable(ls, i)
    ensures Run(START, ls).Some? ==> Run(START, ls).value.lastIndent == LastIndent(ls)
    decreases |ls|
  {
    hide ParseLine, PopTo;
    if ls != [] {
      var n := |ls| - 1;
      var front, last := ls[..n], ls[n];
      AcceptedExactly(front);
      assert ls == front + [last];
      RunAppend(START, front, [last]);
      assert forall i | 0 <= i < n :: ls[..i] == front[..i];
      assert forall i | 0 <= i < n :: Acceptable(ls, i) == Acceptable(front, i);
      assert ls[..n] == front;
      assert (forall i | 0 <= i < |ls| :: Acceptable(ls, i)) <==>
             (forall i | 0 <= i < n :: Acceptable(front, i)) && Acceptable(ls, n);
      if Run(START, front).Some? {
        RunOne(Run(START, front).value, last);
      }
    }
  }

  lemma {:induction false} FirstIndentExample()
    ensures ParseLine("\ta=b") == Entry(1, "a", "b") && Run(START, ["\ta=b"]).Some?
  {
    TrimmedId("a");
    TrimmedId("b");
    assert Tabs(1) + "a" + ['='] + "b" == "\ta=b";
    hide ParseLine, Trimmed, Tabs, PopTo;
    EntryLineIs("\ta=b", 1, "a", '=', "b");
    LineIsEntry("\ta=b", 1, "a", "b");
    RunOne(START, "\ta=b");
  }

  // ---------- load undoes save ----------

  lemma {:induction false} RunAppend(st: State, a: seq<string>, b: seq<string>)
    requires st.spine != []
    ensures Run(st, a + b) ==
            if Run(st, a) == None then None else Run(Run(st, a).value, b)
    decreases |a|
  {
    hide ParseLine, Step;
    if a == [] {
      assert a + b == b;
    } else {
      assert (a + b)[1..] == a[1..] + b;
      var next := Step(st, ParseLine(a[0]));
      if next.Some? {
        RunAppend(next.value, a[1..], b);
      }
    }
  }

  // The cursor is one level below the indent of the last entry.
  predicate Aligned(st: State) {
    |st.spine| >= 1 && st.lastIndent == if |st.spine| == 1 then 0 else |st.spine| - 2
  }

  lemma {:induction false} PopPop(spine: seq<Tree>, m: nat, n: nat)
    requires 1 <= n <= m <= |spine|
    ensures PopTo(spine, n) == PopTo(PopTo(spine, m), n)
    decreases |spine|
  {
    if m < |spine| {
      var k := |spine| - 2;
      PopPop(spine[..k] + [spine[k].Add(spine[k + 1])], m, n);
    }
  }

  // The spine with kids added under its last node.
  function Grown(spine: seq<Tree>, kids: seq<Tree>): seq<Tree>
    requires spine != []
  {
    var last := |spine| - 1;
    spine[..last] + [spine[last].(kids := spine[last].kids + kids)]
  }

  lemma {:induction false} PopOne(spine: seq<Tree>, t: Tree)
    requires spine != []
    ensures PopTo(spine + [t], |spine|) == Grown(spine, [t])
  {
    hide Grown;
    var m := |spine| - 1;
    var s := spine + [t];
    assert s[..m] == spine[..m];
    var next := s[..m] + [s[m].Add(s[m + 1])];
    assert PopTo(s, |spine|) == PopTo(next, |spine|) == next;
    GrownByOne(spine, t);
  }

  lemma {:induction false} GrownByOne(spine: seq<Tree>, t: Tree)
    requires spine != []
    ensures Grown(spine, [t]) == spine[..|spine| - 1] + [spine[|spine| - 1].Add(t)]
  {
  }

  lemma {:induction false} GrownTwice(spine: seq<Tree>, a: seq<Tree>, b: seq<Tree>)
    requires spine != []
    ensures Grown(spine, []) == spine
    ensures |Grown(spine, a)| == |spine| && Grown(Grown(spine, a), b) == Grown(spine, a + b)
  {
    var last := |spine| - 1;
    assert spine[last].kids + [] == spine[last].kids;
    assert spine[last].kids + (a + b) == spine[last].kids + a + b;
  }

  // Running over the printed lines of kids at depth d adds just these kids to the node at depth d.
  lemma {:induction false} RunPrinted(st: State, kids: seq<Tree>, d: nat) returns (end: State)
    requires Aligned(st) && d + 1 <= |st.spine| && Canonical(kids)
    requires |st.spine| == d + 1 || NoComments(kids)
    ensures Run(st, PrintLines(kids, d)) == Some(end)
    ensures Aligned(end) && d + 1 <= |end.spine|
    ensures PopTo(end.spine, d + 1) == Grown(PopTo(st.spine, d + 1), kids)
    decreases kids
  {
    hide ParseLine, PopTo, PrintLine, EntryShape, LineSafe, Grown, Step, Aligned;
    var base := PopTo(st.spine, d + 1);
    GrownTwice(base, [], []);
    if kids == [] {
      end := st;
      return;
    }
    var kid := kids[0];
    assert CanonicalNode(kid);
    var ls, more := PrintLines([kid], d), PrintLines(kids[1..], d);
    var next := RunKid(st, kid, d);
    PrintKid(kids, d);
    RunAppend(st, ls, more);
    end := RunPrinted(next, kids[1..], d);
    GrownTwice(base, [kid], kids[1..]);
    assert [kid] + kids[1..] == kids;
  }

  lemma {:induction false} PrintKid(kids: seq<Tree>, d: nat)
    requires kids != []
    ensures PrintLines(kids, d) == PrintLines([kids[0]], d) + PrintLines(kids[1..], d)
    ensures PrintLines([kids[0]], d) == [PrintLine(d, kids[0].key, kids[0].val)] + PrintLines(kids[0].kids, d + 1)
  {
    hide PrintLine;
    var one := [PrintLine(d, kids[0].key, kids[0].val)] + PrintLines(kids[0].kids, d + 1);
    assert [kids[0]][1..] == [] && one + [] == one;
  }

  // The same for the lines of one node and what is below it.
  lemma {:induction false} RunKid(st: State, kid: Tree, d: nat) returns (end: State)
    requires Aligned(st) && d + 1 <= |st.spine| && CanonicalNode(kid)
    requires kid.IsComment() ==> |st.spine| == d + 1
    ensures Run(st, PrintLines([kid], d)) == Some(end)
    ensures Aligned(end) && d + 1 <= |end.spine| && (kid.IsComment() ==> |end.spine| == d + 1)
    ensures PopTo(end.spine, d + 1) == Grown(PopTo(st.spine, d + 1), [kid])
    decreases kid
  {
    hide ParseLine, PopTo, PrintLine, EntryShape, LineSafe, Grown, Step, Aligned;
    var base, line, ls := PopTo(st.spine, d + 1), PrintLine(d, kid.key, kid.val), PrintLines(kid.kids, d + 1);
    PrintKid([kid], d);
    RunOne(st, line);
    RunAppend(st, [line], ls);
    if kid.IsComment() {
      end := StepComment(st, kid, d);
      assert ls == [];
    } else {
      var st1 := StepEntry(st, kid, d);
      end := RunPrinted(st1, kid.kids, d + 1);
      PopPop(end.spine, d + 2, d + 1);
      GrownLast(base, Tree(kid.key, kid.val, []), kid.kids);
      PopOne(base, kid);
    }
  }

  lemma {:induction false} StepComment(st: State, kid: Tree, d: nat) returns (st1: State)
    requires Aligned(st) && |st.spine| == d + 1 && CanonicalNode(kid) && kid.IsComment()
    ensures Step(st, ParseLine(PrintLine(d, kid.key, kid.val))) == Some(st1) && Aligned(st1)
    ensures |st1.spine| == d + 1 && st1.spine == Grown(PopTo(st.spine, d + 1), [kid])
  {
    hide ParseLine, PrintLine, LineSafe;
    ReadPrinted(d, kid.key, kid.val);
    GrownByOne(st.spine, kid);
    assert kid == Tree("#", kid.val, []);
    assert st.spine[d := st.spine[d].Add(kid)] == Grown(st.spine, [kid]);
    st1 := st.(spine := Grown(st.spine, [kid]));
  }

  lemma {:induction false} StepEntry(st: State, kid: Tree, d: nat) returns (st1: State)
    requires Aligned(st) && d + 1 <= |st.spine| && CanonicalNode(kid) && !kid.IsComment()
    ensures Step(st, ParseLine(PrintLine(d, kid.key, kid.val))) == Some(st1) && Aligned(st1)
    ensures |st1.spine| == d + 2 && st1.spine == PopTo(st.spine, d + 1) + [Tree(kid.key, kid.val, [])]
    ensures PopTo(st1.spine, d + 2) == st1.spine
  {
    hide ParseLine, PrintLine, PopTo, EntryShape;
    ReadPrinted(d, kid.key, kid.val);
    st1 := State(PopTo(st.spine, d + 1) + [Tree(kid.key, kid.val, [])], d);
  }

  lemma {:induction false} GrownLast(spine: seq<Tree>, t: Tree, kids: seq<Tree>)
    requires t.kids == []
    ensures Grown(spine + [t], kids) == spine + [t.(kids := kids)]
  {
    assert t.kids + kids == kids;
  }

  lemma {:induction false} RunOne(st: State, line: string)
    requires st.spine != []
    ensures Run(st, [line]) == Step(st, ParseLine(line))
  {
    hide ParseLine, Step;
    if Step(st, ParseLine(line)).Some? {
      assert Run(Step(st, ParseLine(line)).value, []) == Step(st, ParseLine(line));
    }
  }

  // A printed line fits the loader's buffer with its line feed. One character more is harmless
  // where that cuts off the space behind the separator of an empty value.
  predicate LineFits(t: Tree, d: nat) {
    var n := |PrintLine(d, t.key, t.val)|;
    n < CONFIG_MAX_LINE - 1 || (n == CONFIG_MAX_LINE - 1 && !t.IsComment() && t.val == "")
  }

  predicate LinesFit(kids: seq<Tree>, d: nat) {
    kids != [] ==> LineFits(kids[0], d) && LinesFit(kids[0].kids, d + 1) && LinesFit(kids[1..], d)
  }

  predicate Printable(t: Tree) {
    LinesFit(t.kids, 0)
  }

  // Written out and read in again, the line is taken for the same.
  predicate Survives(l: string) {
    && LineSafe(l)
    && (FileLine(l) || (|l| == CONFIG_MAX_LINE - 1 && ParseLine(l[..|l| - 1]) == ParseLine(l)))
  }

  lemma {:induction false} FitSurvives(kid: Tree, d: nat)
    requires CanonicalNode(kid) && LineFits(kid, d)
    ensures Survives(PrintLine(d, kid.key, kid.val))
  {
    hide ParseLine, Canonical;
    var l := PrintLine(d, kid.key, kid.val);
    if |l| == CONFIG_MAX_LINE - 1 {
      ReadPrinted(d, kid.key, kid.val);
      TrimmedId(kid.key);
      TrimmedId("");
      var cut := Tabs(d) + kid.key + [':'] + "";
      assert l[..|l| - 1] == cut;
      EntryLineIs(cut, d, kid.key, ':', "");
      LineIsEntry(cut, d, kid.key, "");
    }
  }

  lemma {:induction false} PrintedSurvive(kids: seq<Tree>, d: nat)
    requires Canonical(kids) && LinesFit(kids, d)
    ensures forall i | 0 <= i < |PrintLines(kids, d)| :: Survives(PrintLines(kids, d)[i])
    decreases kids
  {
    hide Survives, LineFits, PrintLine;
    if kids != [] {
      assert CanonicalNode(kids[0]);
      FitSurvives(kids[0], d);
      assert kids[0].IsComment() ==> PrintLines(kids[0].kids, d + 1) == [];
      if !kids[0].IsComment() {
        PrintedSurvive(kids[0].kids, d + 1);
      }
      PrintedSurvive(kids[1..], d);
    }
  }

  // The lines l makes in a file, in front of others.
  lemma {:induction false} LinesOfLine(l: string, rest: string)
    requires '\n' !in l && |l| <= CONFIG_MAX_LINE - 1
    ensures Lines(l + "\n" + rest) ==
            (if |l| < CONFIG_MAX_LINE - 1 then [l] else [l[..|l| - 1], ""]) + Lines(rest)
  {
    hide ChunkLength, Lines;
    var room, tail := CONFIG_MAX_LINE - 1, "" + "\n" + rest;
    if |l| < room {
      ChunkOf(l, rest, room);
      LinesCut(l + "\n", rest);
      assert (l + "\n")[..|l|] == l;
    } else {
      assert l + "\n" + rest == l + tail;
      ChunkFull(l, tail);
      LinesCut(l, tail);
      ChunkOf("", rest, room);
      LinesCut("" + "\n", rest);
      assert ("" + "\n")[..0] == "";
      assert [l[..|l| - 1]] + ([""] + Lines(rest)) == [l[..|l| - 1], ""] + Lines(rest);
    }
  }

  lemma {:induction false} LinesCut(chunk: string, rest: string)
    requires chunk != "" && ChunkLength(chunk + rest, CONFIG_MAX_LINE - 1) == |chunk|
    ensures Lines(chunk + rest) == [chunk[..|chunk| - 1]] + Lines(rest)
  {
    hide ChunkLength;
    var s := chunk + rest;
    assert s[..|chunk| - 1] == chunk[..|chunk| - 1] && s[|chunk|..] == rest;
  }

  // Lines that survive are read from a file as they are.
  lemma {:induction false} RunJoined(st: State, ls: seq<string>)
    requires st.spine != [] && forall i | 0 <= i < |ls| :: Survives(ls[i])
    ensures Run(st, Lines(Join(ls))) == Run(st, ls)
    decreases |ls|
  {
    hide ParseLine, Step, Lines;
    if ls == [] {
      NoLines();
    } else {
      var rest := Join(ls[1..]);
      assert Survives(ls[0]);
      LinesOfLine(ls[0], rest);
      var next := Step(st, ParseLine(ls[0]));
      if next.Some? {
        RunJoined(next.value, ls[1..]);
      }
      if FileLine(ls[0]) {
        assert ([ls[0]] + Lines(rest))[1..] == Lines(rest);
      } else {
        var two := [ls[0][..|ls[0]| - 1], ""];
        RunAppend(st, two, Lines(rest));
        RunCut(st, two[0]);
      }
    }
  }

  lemma {:induction false} NoLines()
    ensures Lines(Join([])) == []
  {
  }

  lemma {:induction false} RunCut(st: State, l: string)
    requires st.spine != []
    ensures Run(st, [l, ""]) == Step(st, ParseLine(l))
  {
    assert ParseLine("") == Empty;
    hide ParseLine;
    assert [l, ""][1..] == [""];
    var next := Step(st, ParseLine(l));
    if next.Some? {
      RunOne(next.value, "");
    }
  }

  // Main result: load undoes save on every canonical tree whose lines fit.
  lemma {:induction false} LoadSave(t: Tree)
    requires t.key == ROOT.key && t.val == ROOT.val && Canonical(t.kids) && Printable(t)
    ensures Load(Save(t)) == Some(t)
  {
    hide PopTo, PrintLines, Run, Lines, Join, Canonical, LinesFit;
    var ls := PrintLines(t.kids, 0);
    PrintedSurvive(t.kids, 0);
    RunJoined(START, ls);
    var end := RunPrinted(START, t.kids, 0);
    assert PopTo(START.spine, 1) == START.spine;
    assert [] + t.kids == t.kids;
    assert Grown(START.spine, t.kids) == [t];
  }
}
