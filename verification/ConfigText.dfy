// Lines of a configuration file: how one is read and how one is printed.
module ConfigText {
  const CONFIG_MAX_LINE := 4096

  // isspace in the C locale
  predicate IsSpace(c: char) {
    c == ' ' || '\t' <= c <= '\r'
  }

  predicate IsSeparator(c: char) {
    c == '=' || c == ':'
  }

  predicate AllSpace(s: string) {
    forall i | 0 <= i < |s| :: IsSpace(s[i])
  }

  // s without the white space at both ends
  function LeftTrimmed(s: string): string {
    if s != "" && IsSpace(s[0]) then LeftTrimmed(s[1..]) else s
  }

  function RightTrimmed(s: string): string {
    if s != "" && IsSpace(s[|s| - 1]) then RightTrimmed(s[..|s| - 1]) else s
  }

  function Trimmed(s: string): string {
    RightTrimmed(LeftTrimmed(s))
  }

  // strspn(s, "\t")
  function Indent(s: string): (n: nat)
    ensures n <= |s| && (n < |s| ==> s[n] != '\t')
  {
    if s != "" && s[0] == '\t' then 1 + Indent(s[1..]) else 0
  }

  // The index of the first separator, or |s|.
  function KeyEnd(s: string): (n: nat)
    ensures n <= |s| && (n < |s| ==> IsSeparator(s[n]))
    ensures forall i | 0 <= i < n :: !IsSeparator(s[i])
  {
    if s == "" || IsSeparator(s[0]) then 0 else 1 + KeyEnd(s[1..])
  }

  datatype Line = Empty | Comment(text: string) | Entry(indent: nat, key: string, val: string) | Invalid

  // What Config::load takes a line for, its line feed removed.
  function ParseLine(buf: string): Line {
    if AllSpace(buf) then Empty
    else
      var indent := Indent(buf);
      var key := buf[indent..];
      if key == "" then Invalid
      else if key[0] == '#' then Comment(key[1..])
      else if IsSpace(key[0]) || KeyEnd(key) == |key| then Invalid
      else Entry(indent, Trimmed(key[..KeyEnd(key)]), Trimmed(key[KeyEnd(key) + 1..]))
  }

  // ---------- The string helpers of util/strings.h ----------

  method IsEmptyStr(str: string) returns (r: bool)
    ensures r == AllSpace(str)
  {
    var p := 0;
    while p < |str| && IsSpace(str[p])
      invariant p <= |str| && AllSpace(str[..p])
    {
      p := p + 1;
    }
    assert str[..|str|] == str;
    return p == |str|;
  }

  method LTrim(str: string) returns (r: string)
    ensures r == LeftTrimmed(str)
  {
    var p := 0;
    while p < |str| && IsSpace(str[p])
      invariant p <= |str| && LeftTrimmed(str[p..]) == LeftTrimmed(str)
    {
      p := p + 1;
    }
    return str[p..];
  }

  method RTrim(str: string) returns (r: string)
    ensures r == RightTrimmed(str)
  {
    var n := |str|;
    assert str[..n] == str;
    while n > 0 && IsSpace(str[n - 1])
      invariant 0 <= n <= |str| && RightTrimmed(str[..n]) == RightTrimmed(str)
    {
      assert str[..n][..n - 1] == str[..n - 1];
      n := n - 1;
    }
    return str[..n];
  }

  method Trim(str: string) returns (r: string)
    ensures r == Trimmed(str)
  {
    r := LTrim(str);
    r := RTrim(r);
  }

  // The part of the load loop that looks at one line only.
  method ReadLine(buf: string) returns (r: Line)
    ensures r == ParseLine(buf)
  {
    var empty := IsEmptyStr(buf);
    if empty {
      return Empty;
    }
    var indent := Indent(buf);
    var key := buf[indent..];
    if key == "" {
      return Invalid;
    }
    if key[0] == '#' {
      return Comment(key[1..]);
    }
    if IsSpace(key[0]) {
      return Invalid;
    }
    var val := 0;
    while val < |key| && !IsSeparator(key[val])
      invariant val <= |key| && KeyEnd(key) == val + KeyEnd(key[val..])
    {
      val := val + 1;
    }
    if val == |key| {
      return Invalid;
    }
    var k := Trim(key[..val]);
    var v := Trim(key[val + 1..]);
    return Entry(indent, k, v);
  }

  // ---------- Facts about trimming ----------

  predicate IsTrimmed(s: string) {
    s == "" || (!IsSpace(s[0]) && !IsSpace(s[|s| - 1]))
  }

  lemma {:induction false} LeftCut(s: string) returns (a: string)
    ensures s == a + LeftTrimmed(s) && AllSpace(a) && (LeftTrimmed(s) == "" || !IsSpace(LeftTrimmed(s)[0]))
  {
    if s != "" && IsSpace(s[0]) {
      var a' := LeftCut(s[1..]);
      a := [s[0]] + a';
      FirstAndRest(s, a', LeftTrimmed(s[1..]));
    } else {
      a := "";
    }
  }

  lemma {:induction false} FirstAndRest(s: string, x: string, y: string)
    requires s != "" && s[1..] == x + y
    ensures s == [s[0]] + x + y
  {
    assert s == [s[0]] + s[1..];
  }

  lemma {:induction false} RightCut(s: string) returns (b: string)
    ensures s == RightTrimmed(s) + b && AllSpace(b)
    ensures RightTrimmed(s) == "" || !IsSpace(RightTrimmed(s)[|RightTrimmed(s)| - 1])
  {
    var n := |s| - 1;
    if s != "" && IsSpace(s[n]) {
      var b' := RightCut(s[..n]);
      b := b' + [s[n]];
      assert s == s[..n] + [s[n]];
    } else {
      b := "";
    }
  }

  // Trimming cuts off white space at both ends, all of it and nothing else.
  lemma {:induction false} TrimmedExact(s: string) returns (a: string, b: string)
    ensures s == a + Trimmed(s) + b && AllSpace(a) && AllSpace(b) && IsTrimmed(Trimmed(s))
  {
    hide LeftTrimmed, RightTrimmed;
    a := LeftCut(s);
    b := RightCut(LeftTrimmed(s));
  }

  lemma {:induction false} TrimmedShape(s: string)
    ensures IsTrimmed(Trimmed(s))
    ensures forall c | c in Trimmed(s) :: c in s
    ensures s != "" && !IsSpace(s[0]) ==> Trimmed(s) != "" && Trimmed(s)[0] == s[0]
  {
    hide LeftTrimmed, RightTrimmed;
    var a, b := TrimmedExact(s);
    if s != "" && !IsSpace(s[0]) {
      StartsFirst(s);
    }
  }

  lemma {:induction false} StartsFirst(s: string)
    requires s != "" && !IsSpace(s[0])
    ensures LeftTrimmed(s) == s && Trimmed(s) != "" && Trimmed(s)[0] == s[0]
  {
    RightTrimmedNotEmpty(s);
    var b := RightCut(s);
  }

  lemma {:induction false} RightTrimmedNotEmpty(s: string)
    requires s != "" && !IsSpace(s[0])
    ensures RightTrimmed(s) != ""
  {
    if IsSpace(s[|s| - 1]) {
      RightTrimmedNotEmpty(s[..|s| - 1]);
    }
  }

  lemma {:induction false} TrimmedId(s: string)
    requires IsTrimmed(s)
    ensures Trimmed(s) == s && Trimmed(" " + s) == s
  {
    assert (" " + s)[1..] == s;
    assert LeftTrimmed(s) == s;
  }

  // ---------- Printing ----------

  predicate LineSafe(s: string) {
    '\n' !in s && '\0' !in s
  }

  function Tabs(n: nat): (s: string)
    ensures |s| == n && forall i | 0 <= i < n :: s[i] == '\t'
  {
    seq(n, _ => '\t')
  }

  // The line Config::save prints, without its line feed.
  function PrintLine(depth: nat, key: string, val: string): string {
    Tabs(depth) + if |key| > 0 && key[0] == '#' then "#" + val else key + ": " + val
  }

  // The keys and values that load can produce.
  predicate EntryShape(key: string, val: string) {
    && LineSafe(key) && IsTrimmed(key) && (forall i | 0 <= i < |key| :: !IsSeparator(key[i]))
    && (key == "" || key[0] != '#')
    && LineSafe(val) && IsTrimmed(val)
  }

  lemma {:induction false} IndentOf(n: nat, s: string)
    requires s != "" && s[0] != '\t'
    ensures Indent(Tabs(n) + s) == n
  {
    if n == 0 {
      assert Tabs(n) + s == s;
    } else {
      assert (Tabs(n) + s)[1..] == Tabs(n - 1) + s;
      IndentOf(n - 1, s);
    }
  }

  lemma {:induction false} KeyEndOf(key: string, sep: char, rest: string)
    requires (forall i | 0 <= i < |key| :: !IsSeparator(key[i])) && IsSeparator(sep)
    ensures KeyEnd(key + [sep] + rest) == |key|
  {
    var s := key + [sep] + rest;
    assert s[|key|] == sep;
    assert forall i | 0 <= i < |key| :: s[i] == key[i];
  }

  // buf is an entry: tabs, a raw key without separator that starts with neither white space nor
  // '#', a separator, and a raw value.
  ghost predicate EntryLine(buf: string, indent: nat, key: string, val: string) {
    exists raw: string, sep: char, rest: string ::
      EntryParts(raw, sep) && buf == Tabs(indent) + raw + [sep] + rest && key == Trimmed(raw) && val == Trimmed(rest)
  }

  predicate EntryParts(raw: string, sep: char) {
    && IsSeparator(sep) && (forall i | 0 <= i < |raw| :: !IsSeparator(raw[i]))
    && (raw == "" || (!IsSpace(raw[0]) && raw[0] != '#'))
  }

  lemma {:induction false} IndentSplits(buf: string)
    ensures buf == Tabs(Indent(buf)) + buf[Indent(buf)..]
  {
    if buf != "" && buf[0] == '\t' {
      IndentSplits(buf[1..]);
      assert Tabs(Indent(buf)) == "\t" + Tabs(Indent(buf) - 1);
    }
  }

  // A line is read as an entry or a comment exactly if it has that form.
  lemma {:induction false} ParseLineExact(buf: string, indent: nat, key: string, val: string, text: string)
    ensures ParseLine(buf) == Entry(indent, key, val) <==> EntryLine(buf, indent, key, val)
    ensures ParseLine(buf) == Comment(text) <==> exists n: nat :: buf == Tabs(n) + "#" + text
  {
    hide ParseLine, EntryLine;
    if ParseLine(buf) == Entry(indent, key, val) {
      EntryIsLine(buf);
    }
    if EntryLine(buf, indent, key, val) {
      LineIsEntry(buf, indent, key, val);
    }
    if ParseLine(buf) == Comment(text) {
      CommentIsLine(buf);
    }
    if n: nat :| buf == Tabs(n) + "#" + text {
      LineIsComment(n, text);
    }
  }

  lemma {:induction false} CommentIsLine(buf: string)
    requires ParseLine(buf).Comment?
    ensures buf == Tabs(Indent(buf)) + "#" + ParseLine(buf).text
  {
    hide Indent, KeyEnd, Tabs;
    IndentSplits(buf);
    assert buf[Indent(buf)..] == "#" + ParseLine(buf).text;
  }

  lemma {:induction false} LineIsComment(n: nat, text: string)
    ensures ParseLine(Tabs(n) + "#" + text) == Comment(text)
  {
    hide Indent, KeyEnd;
    var buf := Tabs(n) + "#" + text;
    assert buf == Tabs(n) + ("#" + text);
    IndentOf(n, "#" + text);
    assert buf[n] == '#';
    assert buf[n..] == "#" + text;
  }

  lemma {:induction false} EntryIsLine(buf: string)
    requires ParseLine(buf).Entry?
    ensures var l := ParseLine(buf); EntryLine(buf, l.indent, l.key, l.val)
  {
    hide Trimmed, Indent, KeyEnd, Tabs;
    var n := Indent(buf);
    var key := buf[n..];
    var k := KeyEnd(key);
    var raw, sep, rest := key[..k], key[k], key[k + 1..];
    IndentSplits(buf);
    Regroup(Tabs(n), raw, sep, rest, key);
    assert raw != "" ==> raw[0] == key[0];
    assert EntryParts(raw, sep);
  }

  lemma {:induction false} Regroup(t: string, raw: string, sep: char, rest: string, key: string)
    requires |key| > |raw| && raw == key[..|raw|] && sep == key[|raw|] && rest == key[|raw| + 1..]
    ensures t + key == t + raw + [sep] + rest
  {
  }

  lemma {:induction false} LineIsEntry(buf: string, indent: nat, key: string, val: string)
    requires EntryLine(buf, indent, key, val)
    ensures ParseLine(buf) == Entry(indent, key, val)
  {
    hide Trimmed, Tabs, ParseLine;
    var raw: string, sep: char, rest: string :|
      EntryParts(raw, sep) && buf == Tabs(indent) + raw + [sep] + rest && key == Trimmed(raw) && val == Trimmed(rest);
    LineParts(Tabs(indent), raw, sep, rest);
    BodyParts(raw, sep, rest);
    ParseBody(indent, raw + [sep] + rest, |raw|);
  }

  lemma {:induction false} LineParts(t: string, raw: string, sep: char, rest: string)
    ensures t + raw + [sep] + rest == t + (raw + [sep] + rest)
  {
  }

  lemma {:induction false} BodyParts(raw: string, sep: char, rest: string)
    requires EntryParts(raw, sep)
    ensures var body := raw + [sep] + rest;
            && KeyEnd(body) == |raw| < |body| && !IsSpace(body[0]) && body[0] != '#'
            && body[..|raw|] == raw && body[|raw| + 1..] == rest
  {
    hide KeyEnd;
    var body := raw + [sep] + rest;
    KeyEndOf(raw, sep, rest);
    assert body[0] == if raw == "" then sep else raw[0];
  }

  lemma {:induction false} ParseBody(indent: nat, body: string, k: nat)
    requires k == KeyEnd(body) < |body| && !IsSpace(body[0]) && body[0] != '#'
    ensures ParseLine(Tabs(indent) + body) == Entry(indent, Trimmed(body[..k]), Trimmed(body[k + 1..]))
  {
    hide Trimmed, Indent, KeyEnd;
    var buf := Tabs(indent) + body;
    IndentOf(indent, body);
    assert buf[indent..] == body && buf[indent] == body[0];
  }

  // Reading undoes printing.
  lemma {:induction false} ReadPrinted(depth: nat, key: string, val: string)
    ensures |key| > 0 && key[0] == '#' ==> ParseLine(PrintLine(depth, key, val)) == Comment(val)
    ensures EntryShape(key, val) ==> ParseLine(PrintLine(depth, key, val)) == Entry(depth, key, val)
  {
    hide ParseLine, Trimmed, Tabs, EntryLine, LineSafe, IsTrimmed;
    if |key| > 0 && key[0] == '#' {
      PrintedComment(depth, key, val);
      LineIsComment(depth, val);
    } else if EntryShape(key, val) {
      PrintedEntry(depth, key, val);
      TrimmedId(key);
      TrimmedId(val);
      PrintedParts(key);
      EntryLineIs(PrintLine(depth, key, val), depth, key, ':', " " + val);
      LineIsEntry(PrintLine(depth, key, val), depth, key, val);
    }
  }

  lemma {:induction false} PrintedComment(depth: nat, key: string, val: string)
    requires |key| > 0 && key[0] == '#'
    ensures PrintLine(depth, key, val) == Tabs(depth) + "#" + val
  {
    hide Tabs;
    assert Tabs(depth) + ("#" + val) == Tabs(depth) + "#" + val;
  }

  lemma {:induction false} PrintedEntry(depth: nat, key: string, val: string)
    requires key == "" || key[0] != '#'
    ensures PrintLine(depth, key, val) == Tabs(depth) + key + [':'] + (" " + val)
  {
    hide Tabs;
    assert Tabs(depth) + (key + ": " + val) == Tabs(depth) + key + [':'] + (" " + val);
  }

  lemma {:induction false} PrintedParts(key: string)
    requires IsTrimmed(key) && (forall i | 0 <= i < |key| :: !IsSeparator(key[i])) && (key == "" || key[0] != '#')
    ensures EntryParts(key, ':')
  {
  }

  // What load reads has the shape that save needs.
  lemma {:induction false} ParsedShape(buf: string)
    requires LineSafe(buf)
    ensures var l := ParseLine(buf);
            && (l.Comment? ==> LineSafe(l.text))
            && (l.Entry? ==> EntryShape(l.key, l.val))
  {
    hide LeftTrimmed, RightTrimmed, Trimmed, Indent;
    var l := ParseLine(buf);
    var key := buf[Indent(buf)..];
    if l.Entry? {
      var k, v := key[..KeyEnd(key)], key[KeyEnd(key) + 1..];
      TrimmedShape(k);
      TrimmedShape(v);
      assert forall c | c in k :: c in buf && !IsSeparator(c);
      assert forall c | c in v :: c in buf;
      assert forall i | 0 <= i < |l.key| :: l.key[i] in l.key;
      assert l.key != "" ==> k != "" && l.key[0] == key[0];
    }
  }

  // Some white space in s has a character behind it that is none.
  predicate SpaceInside(s: string) {
    exists i, j :: 0 <= i < j < |s| && IsSpace(s[i]) && !IsSpace(s[j])
  }

  // The text of a line between its tabs and the first separator.
  function RawKey(buf: string): string {
    buf[Indent(buf)..][..KeyEnd(buf[Indent(buf)..])]
  }

  // config.h says that keys hold no white space. They do exactly where some stands inside the
  // text in front of the separator.
  lemma {:induction false} SpacedKeyExactly(buf: string)
    requires ParseLine(buf).Entry?
    ensures (exists c | c in ParseLine(buf).key :: IsSpace(c)) <==> SpaceInside(RawKey(buf))
  {
    hide LeftTrimmed, RightTrimmed, Trimmed, Indent, KeyEnd;
    var raw, key := RawKey(buf), ParseLine(buf).key;
    assert raw != "" ==> raw[0] == buf[Indent(buf)..][0];
    KeptFront(raw);
    if i, j :| 0 <= i < j < |raw| && IsSpace(raw[i]) && !IsSpace(raw[j]) {
      assert key[i] == raw[i] && key[i] in key;
    }
    if c :| c in key && IsSpace(c) {
      var i :| 0 <= i < |key| && key[i] == c;
      var j := |key| - 1;
      assert raw[i] == key[i] && raw[j] == key[j];
    }
  }

  // What starts without white space is only cut at its end.
  lemma {:induction false} KeptFront(s: string)
    requires s == "" || !IsSpace(s[0])
    ensures Trimmed(s) <= s && IsTrimmed(Trimmed(s)) && forall k | |Trimmed(s)| <= k < |s| :: IsSpace(s[k])
  {
    if s != "" {
      hide LeftTrimmed, RightTrimmed;
      StartsFirst(s);
      TrimmedShape(s);
      var b := RightCut(s);
      assert forall k | |Trimmed(s)| <= k < |s| :: s[k] == b[k - |Trimmed(s)|];
    }
  }

  lemma {:induction false} SpacedKeyExample()
    ensures ParseLine("a b=c") == Entry(0, "a b", "c")
  {
    hide EntryLine, ParseLine;
    TrimmedId("a b");
    TrimmedId("c");
    assert Tabs(0) + "a b" + ['='] + "c" == "a b=c";
    assert EntryParts("a b", '=');
    EntryLineIs("a b=c", 0, "a b", '=', "c");
    LineIsEntry("a b=c", 0, "a b", "c");
  }

  lemma {:induction false} EntryLineIs(buf: string, indent: nat, raw: string, sep: char, rest: string)
    requires EntryParts(raw, sep) && buf == Tabs(indent) + raw + [sep] + rest
    ensures EntryLine(buf, indent, Trimmed(raw), Trimmed(rest))
  {
  }

  // ---------- Files ----------

  // The number of characters fgets takes from the front of s.
  function ChunkLength(s: string, room: nat): (n: nat)
    ensures n <= |s| && n <= room && (s != "" && room > 0 ==> n > 0)
    ensures forall i | 0 <= i < n - 1 :: s[i] != '\n'
    ensures 0 < n < |s| && n < room ==> s[n - 1] == '\n'
  {
    if s == "" || room == 0 then 0
    else if s[0] == '\n' then 1
    else 1 + ChunkLength(s[1..], room - 1)
  }

  // The lines load sees: the last character of every chunk is dropped, line feed or not.
  function Lines(s: string): seq<string> {
    if s == "" then []
    else
      var n := ChunkLength(s, CONFIG_MAX_LINE - 1);
      [s[..n - 1]] + Lines(s[n..])
  }

  function Join(ls: seq<string>): string {
    if ls == [] then "" else ls[0] + "\n" + Join(ls[1..])
  }

  predicate FileLine(l: string) {
    '\n' !in l && |l| < CONFIG_MAX_LINE - 1
  }

  lemma {:induction false} ChunkOf(l: string, rest: string, room: nat)
    requires '\n' !in l && |l| < room
    ensures ChunkLength(l + "\n" + rest, room) == |l| + 1
  {
    var s := l + "\n" + rest;
    if l == "" {
      assert s[0] == '\n';
    } else {
      assert s[0] == l[0] && l[0] in l;
      assert s[1..] == l[1..] + "\n" + rest;
      ChunkOf(l[1..], rest, room - 1);
    }
  }

  // fgets stops where its buffer is full.
  lemma {:induction false} ChunkFull(l: string, rest: string)
    requires '\n' !in l
    ensures ChunkLength(l + rest, |l|) == |l|
  {
    if l != "" {
      assert (l + rest)[0] == l[0] && l[0] in l;
      assert (l + rest)[1..] == l[1..] + rest;
      ChunkFull(l[1..], rest);
    }
  }

  lemma {:induction false} LinesOfJoin(ls: seq<string>)
    requires forall i | 0 <= i < |ls| :: FileLine(ls[i])
    ensures Lines(Join(ls)) == ls
  {
    hide ChunkLength;
    if ls != [] {
      var rest := Join(ls[1..]);
      var s := ls[0] + "\n" + rest;
      assert Join(ls) == s;
      ChunkOf(ls[0], rest, CONFIG_MAX_LINE - 1);
      LinesOfJoin(ls[1..]);
      assert s[..|ls[0]|] == ls[0] && s[|ls[0]| + 1..] == rest;
    }
  }

  lemma {:induction false} JoinAppend(a: seq<string>, b: seq<string>)
    ensures Join(a + b) == Join(a) + Join(b)
  {
    if a == [] {
      assert a + b == b;
    } else {
      assert (a + b)[1..] == a[1..] + b;
      JoinAppend(a[1..], b);
    }
  }

  lemma {:induction false} LinesSafe(s: string)
    requires '\0' !in s
    ensures forall i | 0 <= i < |Lines(s)| :: LineSafe(Lines(s)[i])
  {
    if s != "" {
      var n := ChunkLength(s, CONFIG_MAX_LINE - 1);
      LinesSafe(s[n..]);
      assert forall c | c in s[..n - 1] :: c in s && c != '\n';
    }
  }

  predicate FeedWithin(s: string, i: nat)
    requires i + CONFIG_MAX_LINE - 1 <= |s|
  {
    '\n' in s[i..i + CONFIG_MAX_LINE - 1]
  }

  // s ends in a line feed, and so does every chunk that fgets reads: any CONFIG_MAX_LINE - 1
  // characters in a row hold one.
  predicate WholeLines(s: string) {
    && (s != "" ==> s[|s| - 1] == '\n')
    && forall i | 0 <= i <= |s| - (CONFIG_MAX_LINE - 1) :: FeedWithin(s, i)
  }

  // load drops the last character of every chunk. Nothing but line feeds is lost exactly if
  // every line ends in one and fits the buffer.
  lemma {:induction false} NothingDroppedExactly(s: string)
    ensures Join(Lines(s)) == s <==> WholeLines(s)
    ensures |Join(Lines(s))| == |s|
  {
    hide ChunkLength, WholeLines;
    if s == "" {
      NoLinesWhole();
    } else {
      var n := ChunkLength(s, CONFIG_MAX_LINE - 1);
      var rest := s[n..];
      NothingDroppedExactly(rest);
      WholeLinesFront(s, n);
      var joined := s[..n - 1] + "\n" + Join(Lines(rest));
      assert Lines(s) == [s[..n - 1]] + Lines(rest);
      assert Join(Lines(s)) == joined;
      assert s == s[..n - 1] + [s[n - 1]] + rest;
      assert joined[n - 1] == '\n' && joined[n..] == Join(Lines(rest));
    }
  }

  lemma {:induction false} NoLinesWhole()
    ensures WholeLines("") && Join(Lines("")) == ""
  {
  }

  lemma {:induction false} WholeLinesFront(s: string, n: nat)
    requires s != "" && n == ChunkLength(s, CONFIG_MAX_LINE - 1)
    ensures WholeLines(s) <==> s[n - 1] == '\n' && WholeLines(s[n..])
  {
    hide ChunkLength;
    var room, rest := CONFIG_MAX_LINE - 1, s[n..];
    forall i: nat | i + room <= |rest| ensures FeedWithin(rest, i) == FeedWithin(s, n + i) {
      assert rest[i..i + room] == s[n + i..n + i + room];
    }
    if WholeLines(s) && n == room {
      assert FeedWithin(s, 0);
    }
    if s[n - 1] == '\n' && WholeLines(rest) {
      forall i: nat | i + room <= |s| ensures FeedWithin(s, i) {
        if i >= n {
          assert FeedWithin(rest, i - n);
        } else {
          assert s[i..i + room][n - 1 - i] == '\n';
        }
      }
    }
  }

  // Without a line feed behind it, the last line loses its last character.
  lemma {:induction false} DroppedExample()
    ensures Lines("a=bc") == ["a=b"] && !WholeLines("a=bc")
  {
    var s, room := "a=bc", CONFIG_MAX_LINE - 1;
    assert s[3] == 'c';
    assert ChunkLength(s, room) == 4;
    assert s[..3] == "a=b" && s[4..] == "" && Lines("") == [];
  }
}
