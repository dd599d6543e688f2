// Which trees come back when they are saved and loaded: the canonical ones whose lines fit, and
// no others. A weight that cutting a line lowers shows that a tree with a longer line changes.
module ConfigLimits {
  import opened Options
  import opened ConfigText
  import opened ConfigTree

  // What fgets reads at most.
  const CHUNK := CONFIG_MAX_LINE - 1

  // ---------- The weight of lines and of trees ----------

  function LineWeight(line: Line): nat {
    match line
    case Entry(indent, key, val) => 2 * (indent + |key| + |val|) + 1
    case Comment(text) => 2 * |text| + 1
    case Empty => 0
    case Invalid => 0
  }

  function TextWeight(ls: seq<string>): nat {
    if ls == [] then 0 else LineWeight(ParseLine(ls[0])) + TextWeight(ls[1..])
  }

  // A node that hangs d levels below the children of the root.
  function NodeWeight(t: Tree, d: nat): nat {
    2 * ((if t.IsComment() then 0 else d + |t.key|) + |t.val|) + 1
  }

  function Weight(kids: seq<Tree>, d: nat): nat {
    if kids == [] then 0
    else NodeWeight(kids[0], d) + Weight(kids[0].kids, d + 1) + Weight(kids[1..], d)
  }

  lemma {:induction false} WeightAppend(kids: seq<Tree>, kid: Tree, d: nat)
    ensures Weight(kids + [kid], d) == Weight(kids, d) + NodeWeight(kid, d) + Weight(kid.kids, d + 1)
    decreases |kids|
  {
    hide NodeWeight;
    if kids == [] {
      assert kids + [kid] == [kid] && [kid][1..] == [];
    } else {
      assert (kids + [kid])[1..] == kids[1..] + [kid];
      WeightAppend(kids[1..], kid, d);
    }
  }

  lemma {:induction false} TextWeightAppend(a: seq<string>, b: seq<string>)
    ensures TextWeight(a + b) == TextWeight(a) + TextWeight(b)
  {
    hide ParseLine;
    if a == [] {
      assert a + b == b;
    } else {
      assert (a + b)[1..] == a[1..] + b;
      TextWeightAppend(a[1..], b);
    }
  }

  // ---------- A loaded tree weighs no more than its text ----------

  // The node at position i of a spine, with what hangs under it already.
  function OpenWeight(t: Tree, i: nat): nat {
    (if i == 0 then 0 else NodeWeight(t, i - 1)) + Weight(t.kids, i)
  }

  function SpineWeight(spine: seq<Tree>): nat {
    if spine == [] then 0
    else
      var n := |spine| - 1;
      SpineWeight(spine[..n]) + OpenWeight(spine[n], n)
  }

  lemma {:induction false} SpineSnoc(spine: seq<Tree>, t: Tree)
    ensures SpineWeight(spine + [t]) == SpineWeight(spine) + OpenWeight(t, |spine|)
  {
    assert (spine + [t])[..|spine|] == spine;
  }

  lemma {:induction false} AddWeight(t: Tree, kid: Tree, i: nat)
    ensures OpenWeight(t.Add(kid), i) == OpenWeight(t, i) + NodeWeight(kid, i) + Weight(kid.kids, i + 1)
  {
    WeightAppend(t.kids, kid, i);
  }

  lemma {:induction false} PopWeight(spine: seq<Tree>, n: nat)
    requires 1 <= n <= |spine|
    ensures SpineWeight(PopTo(spine, n)) == SpineWeight(spine)
    decreases |spine|
  {
    hide SpineWeight, Tree.Add;
    if n < |spine| {
      var m := |spine| - 2;
      CloseWeight(spine[..m], spine[m], spine[m + 1]);
      assert spine == spine[..m] + [spine[m]] + [spine[m + 1]];
      PopWeight(spine[..m] + [spine[m].Add(spine[m + 1])], n);
    }
  }

  lemma {:induction false} CloseWeight(front: seq<Tree>, t: Tree, kid: Tree)
    ensures SpineWeight(front + [t.Add(kid)]) == SpineWeight(front + [t] + [kid])
  {
    hide SpineWeight, Weight, NodeWeight, Tree.Add;
    var m := |front|;
    AddWeight(t, kid, m);
    SpineSnoc(front, t.Add(kid));
    SpineSnoc(front, t);
    SpineSnoc(front + [t], kid);
    assert OpenWeight(kid, m + 1) == NodeWeight(kid, m) + Weight(kid.kids, m + 1);
  }

  // Entries hang no deeper than they are indented.
  predicate Shallow(st: State) {
    |st.spine| >= 1 && |st.spine| <= st.lastIndent + 2
  }

  lemma {:induction false} StepWeight(st: State, line: Line)
    requires Shallow(st) && Step(st, line).Some?
    ensures Shallow(Step(st, line).value)
    ensures SpineWeight(Step(st, line).value.spine) <= SpineWeight(st.spine) + LineWeight(line)
  {
    hide Weight, PopTo;
    match line
    case Comment(text) =>
      var n, kid := |st.spine| - 1, Tree("#", text, []);
      AddWeight(st.spine[n], kid, n);
      assert st.spine[n := st.spine[n].Add(kid)][..n] == st.spine[..n];
      NoWeight(n + 1);
    case Entry(indent, key, val) =>
      var k := Kept(|st.spine|, indent, st.lastIndent);
      PopWeight(st.spine, k);
      SpineSnoc(PopTo(st.spine, k), Tree(key, val, []));
      NoWeight(k);
    case Empty =>
    case Invalid =>
  }

  lemma {:induction false} NoWeight(d: nat)
    ensures Weight([], d) == 0
  {
  }

  lemma {:induction false} RunWeight(st: State, ls: seq<string>)
    requires Shallow(st) && Run(st, ls).Some?
    ensures SpineWeight(Run(st, ls).value.spine) <= SpineWeight(st.spine) + TextWeight(ls)
    decreases |ls|
  {
    hide ParseLine, Step, SpineWeight, LineWeight;
    if ls != [] {
      StepWeight(st, ParseLine(ls[0]));
      RunWeight(Step(st, ParseLine(ls[0])).value, ls[1..]);
    }
  }

  lemma {:induction false} LoadWeight(text: string)
    requires Load(text).Some?
    ensures Weight(Load(text).value.kids, 0) <= TextWeight(Lines(text))
  {
    hide ParseLine, Run, PopTo, Lines, TextWeight, Weight;
    RunWeight(START, Lines(text));
    NoWeight(0);
    assert SpineWeight(START.spine) == 0 by { SpineOfOne(ROOT); }
    var spine := Run(START, Lines(text)).value.spine;
    PopWeight(spine, 1);
    assert PopTo(spine, 1) == [Load(text).value];
    SpineOfOne(Load(text).value);
  }

  lemma {:induction false} SpineOfOne(t: Tree)
    ensures SpineWeight([t]) == Weight(t.kids, 0)
  {
    hide Weight;
    assert [t] == [] + [t];
    SpineSnoc([], t);
  }

  // ---------- A printed line that does not fit loses weight ----------

  // What the line l weighs once it was written to a file and read again.
  function ReadWeight(l: string): nat {
    TextWeight(Lines(l + "\n"))
  }

  function ReadWeights(ls: seq<string>): nat {
    if ls == [] then 0 else ReadWeight(ls[0]) + ReadWeights(ls[1..])
  }

  lemma {:induction false} ReadWeightsAppend(a: seq<string>, b: seq<string>)
    ensures ReadWeights(a + b) == ReadWeights(a) + ReadWeights(b)
  {
    hide ReadWeight;
    if a == [] {
      assert a + b == b;
    } else {
      assert (a + b)[1..] == a[1..] + b;
      ReadWeightsAppend(a[1..], b);
    }
  }

  // A line longer than the buffer: a full chunk, then the rest.
  lemma {:induction false} LinesOfLong(l: string, rest: string)
    requires '\n' !in l && |l| >= CHUNK
    ensures Lines(l + "\n" + rest) == [l[..CHUNK - 1]] + Lines(l[CHUNK..] + "\n" + rest)
  {
    hide ChunkLength, Lines;
    var front, tail := l[..CHUNK], l[CHUNK..] + "\n" + rest;
    assert l + "\n" + rest == front + tail;
    ChunkFull(front, tail);
    LinesCut(front, tail);
    assert front[..CHUNK - 1] == l[..CHUNK - 1];
  }

  lemma {:induction false} LinesOfShort(l: string, rest: string)
    requires '\n' !in l && |l| < CHUNK
    ensures Lines(l + "\n" + rest) == [l] + Lines(rest)
  {
    LinesOfLine(l, rest);
  }

  // Lines are read one after the other.
  lemma {:induction false} LinesSplit(l: string, rest: string)
    requires '\n' !in l
    ensures Lines(l + "\n" + rest) == Lines(l + "\n") + Lines(rest)
    decreases |l|
  {
    hide Lines;
    assert l + "\n" + "" == l + "\n";
    if |l| < CHUNK {
      LinesOfShort(l, rest);
      LinesOfShort(l, "");
      NothingRead();
    } else {
      LinesOfLong(l, rest);
      LinesOfLong(l, "");
      var tail := l[CHUNK..];
      LinesSplit(tail, rest);
      assert tail + "\n" + "" == tail + "\n";
    }
  }

  lemma {:induction false} NothingRead()
    ensures Lines("") == [] && TextWeight([]) == 0
  {
  }

  lemma {:induction false} JoinedWeight(ls: seq<string>)
    requires forall i | 0 <= i < |ls| :: '\n' !in ls[i]
    ensures TextWeight(Lines(Join(ls))) == ReadWeights(ls)
  {
    hide Lines, TextWeight;
    if ls == [] {
      NothingRead();
    } else {
      var rest := Join(ls[1..]);
      LinesSplit(ls[0], rest);
      TextWeightAppend(Lines(ls[0] + "\n"), Lines(rest));
      JoinedWeight(ls[1..]);
    }
  }

  // A line that fits weighs what it is read as; from a longer one the full chunk loses a character.
  lemma {:induction false} ReadShort(l: string)
    requires '\n' !in l && |l| < CHUNK
    ensures ReadWeight(l) == LineWeight(ParseLine(l))
  {
    hide Lines, ParseLine;
    assert l + "\n" + "" == l + "\n";
    LinesOfShort(l, "");
    NothingRead();
  }

  lemma {:induction false} ReadLong(l: string)
    requires '\n' !in l && |l| >= CHUNK
    ensures ReadWeight(l) == LineWeight(ParseLine(l[..CHUNK - 1])) + ReadWeight(l[CHUNK..])
  {
    hide Lines, ParseLine;
    assert l + "\n" + "" == l + "\n" && l[CHUNK..] + "\n" + "" == l[CHUNK..] + "\n";
    LinesOfLong(l, "");
  }

  lemma {:induction false} LineBound(l: string)
    ensures LineWeight(ParseLine(l)) <= if l == "" then 0 else 2 * |l| - 1
  {
    hide Trimmed;
    if ParseLine(l).Entry? {
      var key := l[Indent(l)..];
      var a, b := TrimmedExact(key[..KeyEnd(key)]);
      var a', b' := TrimmedExact(key[KeyEnd(key) + 1..]);
    }
  }

  lemma {:induction false} ReadBound(l: string)
    requires '\n' !in l
    ensures ReadWeight(l) <= if l == "" then 0 else 2 * |l| - 1
    decreases |l|
  {
    hide ReadWeight, LineWeight, ParseLine;
    if |l| < CHUNK {
      ReadShort(l);
      LineBound(l);
    } else {
      ReadLong(l);
      LineBound(l[..CHUNK - 1]);
      ReadBound(l[CHUNK..]);
    }
  }

  lemma {:induction false} EntryWeight(kid: Tree, d: nat)
    requires CanonicalNode(kid) && !kid.IsComment()
    ensures ReadWeight(PrintLine(d, kid.key, kid.val)) <= NodeWeight(kid, d)
    ensures !LineFits(kid, d) ==> ReadWeight(PrintLine(d, kid.key, kid.val)) < NodeWeight(kid, d)
  {
    hide ReadWeight, ParseLine, Canonical;
    var l := PrintLine(d, kid.key, kid.val);
    ReadPrinted(d, kid.key, kid.val);
    if |l| < CHUNK {
      ReadShort(l);
    } else {
      ReadLong(l);
      ReadBound(l[CHUNK..]);
      if |l| > CHUNK {
        LineBound(l[..CHUNK - 1]);
      } else {
        CutEntry(kid, d);
      }
    }
  }

  // One character too long, an entry loses the end of its value, or the space in front of it.
  lemma {:induction false} CutEntry(kid: Tree, d: nat)
    requires CanonicalNode(kid) && !kid.IsComment() && |PrintLine(d, kid.key, kid.val)| == CHUNK
    ensures var w := LineWeight(ParseLine(PrintLine(d, kid.key, kid.val)[..CHUNK - 1]));
            w <= NodeWeight(kid, d) && (kid.val != "" ==> w < NodeWeight(kid, d))
  {
    hide ParseLine, Canonical, LeftTrimmed, RightTrimmed, Trimmed;
    var l := PrintLine(d, kid.key, kid.val);
    TrimmedId(kid.key);
    var rest := (" " + kid.val)[..|kid.val|];
    var cut := Tabs(d) + kid.key + [':'] + rest;
    assert l == Tabs(d) + kid.key + [':'] + (" " + kid.val);
    assert l[..CHUNK - 1] == cut;
    EntryLineIs(cut, d, kid.key, ':', rest);
    LineIsEntry(cut, d, kid.key, Trimmed(rest));
    SpaceTrimmed(kid.val);
  }

  lemma {:induction false} SpaceTrimmed(val: string)
    ensures var rest := (" " + val)[..|val|];
            |Trimmed(rest)| <= |val| && (val != "" ==> |Trimmed(rest)| < |val|)
  {
    hide RightTrimmed;
    var rest := (" " + val)[..|val|];
    if val != "" {
      assert rest[0] == ' ';
      var b := RightCut(LeftTrimmed(rest));
      var a := LeftCut(rest[1..]);
    } else {
      assert rest == "";
      var b := RightCut("");
    }
  }

  lemma {:induction false} TabsAreEmpty(n: nat)
    ensures ParseLine(Tabs(n)) == Empty
  {
  }

  lemma {:induction false} CommentWeight(text: string, d: nat)
    requires '\n' !in text
    ensures var l := Tabs(d) + "#" + text;
            && ReadWeight(l) <= 2 * |text| + 1
            && (|l| >= CHUNK && d < CHUNK ==> ReadWeight(l) < 2 * |text| + 1)
    decreases d
  {
    hide ReadWeight, ParseLine;
    var l := Tabs(d) + "#" + text;
    if |l| < CHUNK {
      ReadShort(l);
      LineIsComment(d, text);
    } else {
      ReadLong(l);
      if d < CHUNK - 1 {
        var k := CHUNK - 2 - d;
        assert l[..CHUNK - 1] == Tabs(d) + "#" + text[..k];
        LineIsComment(d, text[..k]);
        ReadBound(l[CHUNK..]);
      } else {
        assert l[..CHUNK - 1] == Tabs(CHUNK - 1);
        TabsAreEmpty(CHUNK - 1);
        if d == CHUNK - 1 {
          assert l[CHUNK..] == text;
          ReadBound(text);
        } else {
          assert l[CHUNK..] == Tabs(d - CHUNK) + "#" + text;
          CommentWeight(text, d - CHUNK);
        }
      }
    }
  }

  // Printed and read again, a forest weighs no more than before, and less if a line does not fit.
  lemma {:induction false} PrintedWeight(kids: seq<Tree>, d: nat)
    requires Canonical(kids)
    ensures ReadWeights(PrintLines(kids, d)) <= Weight(kids, d)
    ensures d < CHUNK && !LinesFit(kids, d) ==> ReadWeights(PrintLines(kids, d)) < Weight(kids, d)
    decreases kids
  {
    hide ReadWeight, NodeWeight, PrintLine, LineFits;
    if kids != [] {
      var kid := kids[0];
      assert CanonicalNode(kid);
      var line, ls, more := PrintLine(d, kid.key, kid.val), PrintLines(kid.kids, d + 1), PrintLines(kids[1..], d);
      ReadWeightsAppend([line] + ls, more);
      ReadWeightsAppend([line], ls);
      assert [line][1..] == [];
      PrintedWeight(kids[1..], d);
      if kid.IsComment() {
        CommentNode(kid, d);
      } else {
        EntryWeight(kid, d);
        PrintedWeight(kid.kids, d + 1);
        if d == CHUNK - 1 {
          DeepEntry(kid, d);
        }
      }
    }
  }

  lemma {:induction false} CommentNode(kid: Tree, d: nat)
    requires CanonicalNode(kid) && kid.IsComment()
    ensures var w := ReadWeight(PrintLine(d, kid.key, kid.val));
            w <= NodeWeight(kid, d) && (d < CHUNK && !LineFits(kid, d) ==> w < NodeWeight(kid, d))
    ensures kid.kids == [] && LinesFit(kid.kids, d + 1)
  {
    hide ReadWeight;
    CommentWeight(kid.val, d);
    assert Tabs(d) + ("#" + kid.val) == Tabs(d) + "#" + kid.val;
  }

  lemma {:induction false} DeepEntry(kid: Tree, d: nat)
    requires d >= CHUNK - 1 && !kid.IsComment()
    ensures !LineFits(kid, d)
  {
  }

  // ---------- Which trees survive ----------

  lemma {:induction false} TooLongChanges(t: Tree)
    requires Canonical(t.kids) && !Printable(t) && Load(Save(t)).Some?
    ensures Load(Save(t)).value != t
  {
    hide Load, Lines, PrintLines, Weight, TextWeight, ReadWeights, Join, Canonical, LinesFit;
    PrintedLinesSafe(t.kids, 0);
    JoinedWeight(PrintLines(t.kids, 0));
    PrintedWeight(t.kids, 0);
    LoadWeight(Save(t));
  }

  // Main result: exactly the canonical trees whose lines fit come back.
  lemma {:induction false} LoadSaveExact(t: Tree)
    requires '\0' !in Save(t)
    ensures Load(Save(t)) == Some(t) <==>
            t.key == ROOT.key && t.val == ROOT.val && Canonical(t.kids) && Printable(t)
  {
    hide Load, Save, Printable, Canonical;
    if Load(Save(t)) == Some(t) {
      LoadedIsCanonical(Save(t));
      if !Printable(t) {
        TooLongChanges(t);
      }
    } else if t.key == ROOT.key && t.val == ROOT.val && Canonical(t.kids) && Printable(t) {
      LoadSave(t);
    }
  }

  // Its line one character too long for the buffer, an entry does not survive.
  lemma {:induction false} TooLongExample()
    ensures var t := ROOT.Add(Tree("a", seq(CHUNK - 3, _ => 'x'), []));
            Canonical(t.kids) && |PrintLine(0, "a", t.kids[0].val)| == CHUNK && Load(Save(t)) != Some(t)
  {
    hide Load, Save;
    var val := seq(CHUNK - 3, _ => 'x');
    var kid := Tree("a", val, []);
    var t := ROOT.Add(kid);
    assert t.kids == [kid];
    assert val[0] == val[|val| - 1] == 'x' && !IsSpace('x') && !IsSpace('a');
    assert forall c <- val :: c == 'x';
    assert CanonicalNode(kid);
    assert !LineFits(kid, 0);
    SavedText(t);
    LoadSaveExact(t);
  }

  // load, save and load again give the same tree exactly if its lines fit.
  lemma {:induction false} LoadSaveLoad(text: string)
    requires '\0' !in text && Load(text).Some?
    ensures Load(Save(Load(text).value)) == Load(text) <==> Printable(Load(text).value)
  {
    hide Load, Save, Printable, Canonical;
    var t := Load(text).value;
    LoadedIsCanonical(text);
    SavedText(t);
    LoadSaveExact(t);
  }

  // A canonical tree prints whole lines without NUL.
  lemma {:induction false} SavedText(t: Tree)
    requires Canonical(t.kids)
    ensures '\0' !in Save(t)
  {
    hide Canonical, PrintLines, Join;
    PrintedLinesSafe(t.kids, 0);
    JoinNoNul(PrintLines(t.kids, 0));
  }

  lemma {:induction false} PrintedLinesSafe(kids: seq<Tree>, d: nat)
    requires Canonical(kids)
    ensures forall i | 0 <= i < |PrintLines(kids, d)| :: LineSafe(PrintLines(kids, d)[i])
    decreases kids
  {
    hide ParseLine;
    if kids != [] {
      assert CanonicalNode(kids[0]);
      PrintedLinesSafe(kids[0].kids, d + 1);
      PrintedLinesSafe(kids[1..], d);
    }
  }

  lemma {:induction false} JoinNoNul(ls: seq<string>)
    requires forall i | 0 <= i < |ls| :: LineSafe(ls[i])
    ensures '\0' !in Join(ls)
  {
    if ls != [] {
      JoinNoNul(ls[1..]);
    }
  }
}
