// Lines of a configuration file once more, with every character and length written out, and what
// the loader and save do in these terms.
module ConfigLines {
  import opened Options
  import opened ConfigText
  import opened ConfigTree

  // Blank, tab, line feed, vertical tab, form feed, carriage return.
  predicate White(c: char) {
    c == ' ' || c == '\t' || c == '\n' || c as int == 11 || c as int == 12 || c == '\r'
  }

  // s[i..j] is s without the white space at both ends.
  predicate Core(s: string, i: nat, j: nat) {
    && i <= j <= |s|
    && (forall k | 0 <= k < i :: White(s[k])) && (forall k | j <= k < |s| :: White(s[k]))
    && (i < j ==> !White(s[i]) && !White(s[j - 1]))
  }

  ghost predicate Stripped(s: string, t: string) {
    exists i: nat, j: nat :: Core(s, i, j) && t == s[i..j]
  }

  // n tabs, and then something that is no white space.
  predicate Indented(buf: string, n: nat) {
    n < |buf| && (forall i | 0 <= i < n :: buf[i] == '\t') && !White(buf[n])
  }

  ghost predicate IsComment(buf: string, text: string) {
    exists n: nat :: Indented(buf, n) && buf[n] == '#' && text == buf[n + 1..]
  }

  // m is the place of the first '=' or ':' from n on.
  predicate Separated(buf: string, n: nat, m: nat) {
    n <= m < |buf| && (buf[m] == '=' || buf[m] == ':') && forall i | n <= i < m :: buf[i] != '=' && buf[i] != ':'
  }

  ghost predicate IsEntry(buf: string, n: nat, key: string, val: string) {
    Indented(buf, n) && buf[n] != '#' &&
    exists m: nat :: Separated(buf, n, m) && Stripped(buf[n..m], key) && Stripped(buf[m + 1..], val)
  }

  // What the line is.
  ghost predicate ReadsAs(buf: string, line: Line) {
    match line
    case Empty => forall i | 0 <= i < |buf| :: White(buf[i])
    case Comment(text) => IsComment(buf, text)
    case Entry(indent, key, val) => IsEntry(buf, indent, key, val)
    case Invalid =>
      && (exists i | 0 <= i < |buf| :: !White(buf[i]))
      && (forall text :: !IsComment(buf, text))
      && forall n: nat, key, val :: !IsEntry(buf, n, key, val)
  }

  // ---------- Trimming ----------

  lemma {:induction false} StrippedIs(s: string, t: string)
    ensures Stripped(s, t) <==> t == Trimmed(s)
  {
    hide Trimmed;
    var a, b := TrimmedExact(s);
    var i0 := |a|;
    var j0 := i0 + |Trimmed(s)|;
    assert Trimmed(s) == s[i0..j0];
    assert forall k | j0 <= k < |s| :: s[k] == b[k - j0];
    assert Core(s, i0, j0);
    forall i: nat, j: nat | Core(s, i, j) ensures s[i..j] == s[i0..j0] {
      OneCore(s, i, j, i0, j0);
    }
  }

  lemma {:induction false} OneCore(s: string, i: nat, j: nat, i0: nat, j0: nat)
    requires Core(s, i, j) && Core(s, i0, j0)
    ensures s[i..j] == s[i0..j0]
  {
    hide White;
    if i < j || i0 < j0 {
      assert i == i0 && j == j0;
    }
  }

  // ---------- One line ----------

  lemma {:induction false} IndentIs(buf: string, n: nat)
    requires n < |buf| && !White(buf[n])
    ensures Indented(buf, n) <==> Indent(buf) == n
  {
    IndentSplits(buf);
    var k := Indent(buf);
    assert forall i | 0 <= i < k :: buf[i] == Tabs(k)[i];
  }

  lemma {:induction false} SeparatedIs(buf: string, n: nat, m: nat)
    requires n <= |buf|
    ensures Separated(buf, n, m) <==> n <= m < |buf| && KeyEnd(buf[n..]) == m - n
  {
    hide KeyEnd;
    var k := KeyEnd(buf[n..]);
    assert forall i | n <= i < n + k :: !IsSeparator(buf[i]) by {
      forall i | n <= i < n + k ensures !IsSeparator(buf[i]) {
        assert buf[i] == buf[n..][i - n];
      }
    }
    assert k < |buf[n..]| ==> IsSeparator(buf[n + k]);
  }

  lemma {:induction false} EmptyIs(buf: string)
    ensures AllSpace(buf) <==> forall i | 0 <= i < |buf| :: White(buf[i])
    ensures ParseLine(buf) == Empty <==> AllSpace(buf)
  {
    hide Indent, KeyEnd, Trimmed;
  }

  // Where a line that is not empty has its first character that is no tab.
  lemma {:induction false} StartIs(buf: string, n: nat)
    ensures Indented(buf, n) <==> n == Indent(buf) < |buf| && !IsSpace(buf[n])
  {
    hide Indent;
    if n < |buf| && !White(buf[n]) {
      IndentIs(buf, n);
    }
  }

  lemma {:induction false} CommentIs(buf: string, text: string)
    ensures IsComment(buf, text) <==> ParseLine(buf) == Comment(text)
  {
    hide Indent, KeyEnd, Trimmed, Indented;
    forall n: nat ensures Indented(buf, n) <==> n == Indent(buf) < |buf| && !IsSpace(buf[n]) {
      StartIs(buf, n);
    }
  }

  lemma {:induction false} EntryIs(buf: string, n: nat, key: string, val: string)
    ensures IsEntry(buf, n, key, val) <==> ParseLine(buf) == Entry(n, key, val)
  {
    hide Indent, KeyEnd, Trimmed, Indented, Separated, Stripped;
    StartIs(buf, n);
    if n == Indent(buf) < |buf| {
      var m := n + KeyEnd(buf[n..]);
      forall x: nat ensures Separated(buf, n, x) <==> x == m < |buf| {
        SeparatedIs(buf, n, x);
      }
      if m < |buf| {
        StrippedIs(buf[n..m], key);
        StrippedIs(buf[m + 1..], val);
        assert buf[n..][..m - n] == buf[n..m] && buf[n..][m - n + 1..] == buf[m + 1..];
      }
    }
  }

  // Main result on lines: load takes a line for what it is, and for nothing else.
  lemma {:induction false} ReadExactly(buf: string, line: Line)
    ensures ParseLine(buf) == line <==> ReadsAs(buf, line)
  {
    hide ParseLine, White, IsComment, IsEntry;
    EmptyIs(buf);
    forall text ensures IsComment(buf, text) <==> ParseLine(buf) == Comment(text) {
      CommentIs(buf, text);
    }
    forall n: nat, key, val ensures IsEntry(buf, n, key, val) <==> ParseLine(buf) == Entry(n, key, val) {
      EntryIs(buf, n, key, val);
    }
  }

  // A file with CR LF line ends: the value is read without the CR.
  lemma {:induction false} CarriageReturnExample()
    ensures ParseLine("port: 8888\r") == Entry(0, "port", "8888")
  {
    hide ParseLine;
    var buf := "port: 8888\r";
    assert buf[0..4] == "port" && buf[5..] == " 8888\r" && buf[0..4][0..4] == "port" && buf[5..][1..5] == "8888";
    EntryAt(buf, 0, 4, 0, 4, 1, 5);
  }

  // ---------- Files ----------

  // fgets reads 4095 characters at most. What it read is cut by one character.
  lemma {:induction false} LinesAre(l: string, rest: string)
    requires '\n' !in l
    ensures Lines("") == []
    ensures |l| <= 4094 ==> Lines(l + "\n" + rest) == [l] + Lines(rest)
    ensures |l| == 4095 ==> Lines(l + rest) == [l[..4094]] + Lines(rest)
    ensures 0 < |l| <= 4095 ==> Lines(l) == [l[..|l| - 1]]
  {
    hide ChunkLength;
    if |l| <= 4094 {
      var s := l + "\n" + rest;
      ChunkOf(l, rest, 4095);
      assert s[..|l|] == l && s[|l| + 1..] == rest;
    }
    if |l| == 4095 {
      ChunkFull(l, rest);
      assert (l + rest)[..4094] == l[..4094] && (l + rest)[4095..] == rest;
    }
    if 0 < |l| <= 4095 {
      ChunkEnd(l, 4095);
      assert l[|l|..] == "";
    }
  }

  lemma {:induction false} ChunkEnd(l: string, room: nat)
    requires '\n' !in l && |l| <= room
    ensures ChunkLength(l, room) == |l|
  {
    if l != "" {
      assert l[0] in l && '\n' !in l[1..];
      ChunkEnd(l[1..], room - 1);
    }
  }

  // A comment, an entry, and an entry below it that ends in a carriage return.
  lemma {:induction false} LoadExample()
    ensures Load("#hi\na: 1\n\tb=2\r\n") ==
            Some(Tree("root", "", [Tree("#", "hi", []), Tree("a", "1", [Tree("b", "2", [])])]))
  {
    hide Lines, ParseLine, Run;
    var a, b, c := "#hi", "a: 1", "\tb=2\r";
    LinesAre(a, b + "\n" + c + "\n");
    LinesAre(b, c + "\n");
    LinesAre(c, "");
    assert "#hi\na: 1\n\tb=2\r\n" == a + "\n" + (b + "\n" + c + "\n");
    assert b + "\n" + c + "\n" == b + "\n" + (c + "\n") && c + "\n" == c + "\n" + "";
    var ls := [a, b, c];
    assert Lines("#hi\na: 1\n\tb=2\r\n") == ls;
    ExampleComment();
    ExampleEntry();
    ExampleInner();
    var s1 := State([ROOT.Add(Tree("#", "hi", []))], 0);
    var s2 := State(s1.spine + [Tree("a", "1", [])], 0);
    var s3 := State(s2.spine + [Tree("b", "2", [])], 1);
    assert START.spine[0 := s1.spine[0]] == s1.spine;
    RunOne(START, ls, s1);
    RunOne(s1, ls[1..], s2);
    RunOne(s2, ls[1..][1..], s3);
    assert Run(s3, []) == Some(s3) by { RunNone(s3); }
    assert ls[1..][1..][1..] == [];
    ExampleClose(s3.spine);
    assert s3.spine[1].Add(s3.spine[2]).kids == [Tree("b", "2", [])];
    assert s3.spine[0].Add(s3.spine[1].Add(s3.spine[2])).kids ==
           [Tree("#", "hi", []), Tree("a", "1", [Tree("b", "2", [])])];
  }

  // The places of the parts of an entry.
  lemma {:induction false} EntryAt(buf: string, n: nat, m: nat, i: nat, j: nat, k: nat, l: nat)
    requires Indented(buf, n) && buf[n] != '#' && Separated(buf, n, m)
    requires Core(buf[n..m], i, j) && Core(buf[m + 1..], k, l)
    ensures ParseLine(buf) == Entry(n, buf[n..m][i..j], buf[m + 1..][k..l])
  {
    hide ParseLine, White;
    EntryIs(buf, n, buf[n..m][i..j], buf[m + 1..][k..l]);
  }

  lemma {:induction false} ExampleComment()
    ensures ParseLine("#hi") == Comment("hi")
  {
    hide ParseLine;
    assert Indented("#hi", 0) && "#hi"[1..] == "hi";
    CommentIs("#hi", "hi");
  }

  lemma {:induction false} ExampleEntry()
    ensures ParseLine("a: 1") == Entry(0, "a", "1")
  {
    hide ParseLine;
    var b := "a: 1";
    assert b[0..1] == "a" && b[2..] == " 1" && b[0..1][0..1] == "a" && b[2..][1..2] == "1";
    EntryAt(b, 0, 1, 0, 1, 1, 2);
  }

  lemma {:induction false} ExampleInner()
    ensures ParseLine("\tb=2\r") == Entry(1, "b", "2")
  {
    hide ParseLine;
    var c := "\tb=2\r";
    assert c[1..2] == "b" && c[3..] == "2\r" && c[1..2][0..1] == "b" && c[3..][0..1] == "2";
    EntryAt(c, 1, 2, 0, 1, 0, 1);
  }

  lemma {:induction false} RunOne(st: State, ls: seq<string>, next: State)
    requires st.spine != [] && next.spine != [] && ls != [] && Step(st, ParseLine(ls[0])) == Some(next)
    ensures Run(st, ls) == Run(next, ls[1..])
  {
  }

  lemma {:induction false} RunNone(st: State)
    requires st.spine != []
    ensures Run(st, []) == Some(st)
  {
  }

  lemma {:induction false} ExampleClose(spine: seq<Tree>)
    requires |spine| == 3
    ensures Close(spine) == spine[0].Add(spine[1].Add(spine[2]))
  {
    var mid := spine[..1] + [spine[1].Add(spine[2])];
    assert PopTo(spine, 1) == PopTo(mid, 1);
    assert PopTo(mid, 1) == [] + [mid[0].Add(mid[1])];
  }

  // ---------- What save prints ----------

  // A node is a line of tabs, its key, a colon, a blank and its value, and then its children.
  // Keys that start with '#' are not printed; comments are '#' and the value.
  lemma {:induction false} PrintedIs(t: Tree, ts: seq<Tree>, depth: nat)
    ensures Join(PrintLines([], depth)) == ""
    ensures Join(PrintLines([t] + ts, depth)) ==
            seq(depth, _ => '\t')
            + (if |t.key| > 0 && t.key[0] == '#' then "#" + t.val else t.key + ": " + t.val) + "\n"
            + Join(PrintLines(t.kids, depth + 1)) + Join(PrintLines(ts, depth))
  {
    hide PrintLine, Join;
    PrintNone(depth);
    PrintFirst([t] + ts, depth);
    assert ([t] + ts)[1..] == ts;
    PrintLineIs(depth, t.key, t.val);
  }

  lemma {:induction false} PrintLineIs(depth: nat, key: string, val: string)
    ensures PrintLine(depth, key, val) ==
            seq(depth, _ => '\t') + if |key| > 0 && key[0] == '#' then "#" + val else key + ": " + val
  {
    assert Tabs(depth) == seq(depth, _ => '\t');
  }
}
