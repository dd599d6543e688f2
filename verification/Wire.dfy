// The packet format of Link::send and Link::parse: a packet is a list of byte strings, each
// sent as a decimal length, a line feed, the bytes and a line feed; a blank line ends it.
module Wire {
  import opened Octets

  type Packet = seq<Octets>

  const MAX_PACKET_SIZE := 128 * 1024 * 1024
  // sizeof(head_str) - 1
  const MAX_HEAD := 19

  // ---------- The sender's side ----------

  // snprintf("%d", n) for n >= 0
  function Digits(n: nat): (d: Octets)
    ensures |d| >= 1 && forall b <- d :: IsDigit(b)
  {
    if n < 10 then [48 + n] else Digits(n / 10) + [48 + n % 10]
  }

  function Record(body: Octets): Octets {
    Digits(|body|) + [LF] + body + [LF]
  }

  function EncodeRecords(p: Packet): Octets {
    if p == [] then [] else Record(p[0]) + EncodeRecords(p[1..])
  }

  function Encode(p: Packet): Octets {
    EncodeRecords(p) + [LF]
  }

  function EncodeAll(ps: seq<Packet>): Octets {
    if ps == [] then [] else Encode(ps[0]) + EncodeAll(ps[1..])
  }

  // ---------- The receiver's side ----------

  datatype Verdict = NotReady | Malformed | Ready(args: Packet, consumed: nat)

  // The value strtol reads from the leading digits of s.
  function Strtol(s: Octets, acc: nat): nat {
    if s == [] || !IsDigit(s[0]) then acc else Strtol(s[1..], 10 * acc + (s[0] - 48))
  }

  function Atoi(s: Octets): int {
    ToInt32(Strtol(s, 0))
  }

  // memchr: the index of the first line feed, or |s|.
  function FindLF(s: Octets): (r: nat)
    ensures r <= |s| && (r < |s| ==> s[r] == LF) && LF !in s[..r]
  {
    if s == [] || s[0] == LF then 0
    else
      var r := FindLF(s[1..]);
      assert s[..r + 1] == [s[0]] + s[1..][..r];
      r + 1
  }

  predicate IsBlank(b: Byte) {
    b == LF || b == CR
  }

  predicate Blank(s: Octets) {
    forall b <- s :: IsBlank(b)
  }

  function SkipBlank(s: Octets): (k: nat)
    ensures k <= |s| && Blank(s[..k]) && (k < |s| ==> !IsBlank(s[k]))
  {
    if s == [] || !IsBlank(s[0]) then 0
    else
      var k := SkipBlank(s[1..]);
      assert s[..k + 1] == [s[0]] + s[1..][..k];
      k + 1
  }

  // Length of the line end at the front of s: 1 for LF, 2 for CR LF, 0 for anything else.
  function EolLength(s: Octets): nat {
    if |s| > 0 && s[0] == LF then 1
    else if |s| > 1 && s[0] == CR && s[1] == LF then 2
    else 0
  }

  function Prepend(done: Packet, v: Verdict): Verdict {
    if v.Ready? then Ready(done + v.args, v.consumed) else v
  }

  // What the record loop of Link::parse makes of s, the bytes left after `parsed` others.
  function ParseFrom(s: Octets, parsed: nat): Verdict
    decreases |s|
  {
    var nl := FindLF(s);
    if nl == |s| then NotReady
    else if nl == 0 || (nl == 1 && s[0] == CR) then Ready([], parsed + nl + 1)
    else if !IsDigit(s[0]) || nl + 1 > MAX_HEAD then Malformed
    else
      var bodyLen := Atoi(s[..nl]);
      if bodyLen < 0 then Malformed
      else
        var q := nl + 1 + bodyLen;
        if q > |s| || EolLength(s[q..]) == 0 then NotReady
        else
          var next := q + EolLength(s[q..]);
          if parsed + next > MAX_PACKET_SIZE then Malformed
          else Prepend([s[nl + 1..q]], ParseFrom(s[next..], parsed + next))
  }

  // Link::parse on the pending bytes s.
  function Parse(s: Octets): Verdict {
    var k := SkipBlank(s);
    ParseFrom(s[k..], k)
  }

  // ---------- The grammar ----------

  predicate Eol(e: Octets) {
    e == [LF] || e == [CR, LF]
  }

  // The number a list of digits denotes.
  function Number(d: Octets): int {
    if d == [] then 0 else 10 * Number(d[..|d| - 1]) + d[|d| - 1] - 48
  }

  // h announces a body of n bytes: digits that denote n as an int, perhaps followed by something
  // that does not start with a digit.
  ghost predicate Announces(h: Octets, n: nat) {
    && 1 <= |h| < MAX_HEAD && LF !in h
    && exists k :: 1 <= k <= |h| && Leads(h, k) && ToInt32(Number(h[..k])) == n
  }

  // The first k bytes of h are its leading digits.
  ghost predicate Leads(h: Octets, k: nat) {
    k <= |h| && (forall b <- h[..k] :: IsDigit(b)) && (k < |h| ==> !IsDigit(h[k]))
  }

  // One record as it may stand on the wire.
  datatype Rec = Rec(head: Octets, body: Octets, eol: Octets) {
    ghost predicate Valid() {
      Announces(head, |body|) && Eol(eol)
    }

    function Text(): Octets {
      head + [LF] + body + eol
    }
  }

  ghost predicate AllValid(rs: seq<Rec>) {
    forall i | 0 <= i < |rs| :: rs[i].Valid()
  }

  function Text(rs: seq<Rec>): Octets {
    if rs == [] then [] else rs[0].Text() + Text(rs[1..])
  }

  function Bodies(rs: seq<Rec>): Packet {
    seq(|rs|, i requires 0 <= i < |rs| => rs[i].body)
  }

  // Blank lines b, the records rs and the closing line e make up one packet.
  ghost predicate PacketText(b: Octets, rs: seq<Rec>, e: Octets) {
    Blank(b) && rs != [] && AllValid(rs) && Eol(e) && |b| + |Text(rs)| <= MAX_PACKET_SIZE
  }

  // ---------- Numbers ----------

  lemma {:induction false} StrtolSnoc(s: Octets, d: Byte, acc: nat)
    requires (forall i | 0 <= i < |s| :: IsDigit(s[i])) && IsDigit(d)
    ensures Strtol(s + [d], acc) == 10 * Strtol(s, acc) + (d - 48)
  {
    if s == [] {
      assert (s + [d])[1..] == [];
    } else {
      assert (s + [d])[1..] == s[1..] + [d];
      StrtolSnoc(s[1..], d, 10 * acc + (s[0] - 48));
    }
  }

  lemma {:induction false} StrtolNumber(d: Octets)
    requires forall b <- d :: IsDigit(b)
    ensures Strtol(d, 0) == Number(d)
  {
    if d != [] {
      var n := |d| - 1;
      StrtolNumber(d[..n]);
      StrtolSnoc(d[..n], d[n], 0);
      assert d == d[..n] + [d[n]];
    }
  }

  lemma {:induction false} StrtolLead(h: Octets, k: nat, acc: nat)
    requires Leads(h, k)
    ensures Strtol(h, acc) == Strtol(h[..k], acc)
  {
    if k > 0 {
      assert h[0] in h[..k] && h[..k][1..] == h[1..][..k - 1];
      assert forall b <- h[1..][..k - 1] :: b in h[..k];
      StrtolLead(h[1..], k - 1, 10 * acc + (h[0] - 48));
    }
  }

  lemma {:induction false} LeadExists(h: Octets) returns (k: nat)
    ensures Leads(h, k) && (h != [] && IsDigit(h[0]) ==> k > 0)
  {
    k := 0;
    if h != [] && IsDigit(h[0]) {
      var k' := LeadExists(h[1..]);
      k := k' + 1;
      assert h[..k] == [h[0]] + h[1..][..k'];
    }
  }

  // The receiver's atoi takes exactly the heads that announce a length.
  lemma {:induction false} HeadExact(h: Octets, n: nat)
    ensures Announces(h, n) <==> 1 <= |h| < MAX_HEAD && LF !in h && IsDigit(h[0]) && Atoi(h) == n
  {
    hide Leads, Strtol, Number, ToInt32;
    if k :| 1 <= k <= |h| && Leads(h, k) && ToInt32(Number(h[..k])) == n {
      LeadIsNumber(h, k);
    }
    var k := LeadExists(h);
    LeadIsNumber(h, k);
  }

  lemma {:induction false} LeadIsNumber(h: Octets, k: nat)
    requires Leads(h, k)
    ensures Strtol(h, 0) == Number(h[..k]) && (k > 0 ==> IsDigit(h[0]))
  {
    hide Strtol, Number;
    StrtolLead(h, k, 0);
    StrtolNumber(h[..k]);
    assert k > 0 ==> h[0] in h[..k];
  }

  // ---------- Parse accepts exactly the grammar ----------

  lemma {:induction false} FirstLF(h: Octets, rest: Octets)
    requires LF !in h
    ensures FindLF(h + [LF] + rest) == |h|
  {
    var s := h + [LF] + rest;
    if h == [] {
      assert s[0] == LF;
    } else {
      assert s[0] == h[0] && h[0] in h;
      assert s[1..] == h[1..] + [LF] + rest;
      FirstLF(h[1..], rest);
    }
  }

  lemma {:induction false} NoLF(s: Octets)
    requires LF !in s
    ensures FindLF(s) == |s|
  {
    if s != [] {
      assert s[0] in s;
      NoLF(s[1..]);
    }
  }

  lemma {:induction false} Split5(h: Octets, lf: Octets, body: Octets, eol: Octets, rest: Octets, s: Octets)
    requires s == h + lf + body + eol + rest
    ensures s[..|h|] == h
    ensures s[|h| + |lf|..|h| + |lf| + |body|] == body
    ensures s[|h| + |lf| + |body|..] == eol + rest
    ensures s[|h| + |lf| + |body| + |eol|..] == rest
  {
  }

  lemma {:induction false} ParseStep(s: Octets, parsed: nat, nl: nat, q: nat, next: nat)
    requires nl == FindLF(s) < |s| && 1 <= nl < MAX_HEAD && IsDigit(s[0])
    requires q == nl + 1 + Atoi(s[..nl]) && nl < q <= |s|
    requires EolLength(s[q..]) > 0 && next == q + EolLength(s[q..])
    ensures ParseFrom(s, parsed) ==
            if parsed + next > MAX_PACKET_SIZE then Malformed
            else Prepend([s[nl + 1..q]], ParseFrom(s[next..], parsed + next))
  {
    hide FindLF, Atoi, EolLength, Prepend;
  }

  // The other exits of one pass of the record loop.
  lemma {:induction false} ParseBadHead(s: Octets, parsed: nat, nl: nat)
    requires 0 < nl == FindLF(s) < |s| && !(nl == 1 && s[0] == CR)
    requires !IsDigit(s[0]) || nl + 1 > MAX_HEAD || Atoi(s[..nl]) < 0
    ensures ParseFrom(s, parsed) == Malformed
  {
    hide FindLF, Atoi, EolLength, Prepend;
  }

  lemma {:induction false} ParseWaits(s: Octets, parsed: nat, nl: nat, q: nat)
    requires 0 < nl == FindLF(s) < |s| && nl < MAX_HEAD && IsDigit(s[0]) && 0 <= Atoi(s[..nl])
    requires q == nl + 1 + Atoi(s[..nl]) && (q > |s| || EolLength(s[q..]) == 0)
    ensures ParseFrom(s, parsed) == NotReady
  {
    hide FindLF, Atoi, EolLength, Prepend;
  }

  lemma {:induction false} ParseUnended(s: Octets, parsed: nat)
    requires FindLF(s) == |s|
    ensures ParseFrom(s, parsed) == NotReady
  {
  }

  // One pass of the record loop, exit by exit.
  lemma {:induction false} ParseCases(s: Octets, parsed: nat)
    ensures FindLF(s) == |s| ==> ParseFrom(s, parsed) == NotReady
    ensures 0 < FindLF(s) < |s| && !(FindLF(s) == 1 && s[0] == CR) ==>
              if !IsDigit(s[0]) || FindLF(s) + 1 > MAX_HEAD || Atoi(s[..FindLF(s)]) < 0 then
                ParseFrom(s, parsed) == Malformed
              else
                var q := FindLF(s) + 1 + Atoi(s[..FindLF(s)]);
                if q > |s| || EolLength(s[q..]) == 0 then ParseFrom(s, parsed) == NotReady
                else
                  var next := q + EolLength(s[q..]);
                  if parsed + next > MAX_PACKET_SIZE then ParseFrom(s, parsed) == Malformed
                  else ParseFrom(s, parsed) == Prepend([s[FindLF(s) + 1..q]], ParseFrom(s[next..], parsed + next))
  {
    hide FindLF, Atoi, EolLength, Prepend;
  }

  // A whole record in front is taken off.
  lemma {:induction false} ParseRecord(r: Rec, rest: Octets, s: Octets, parsed: nat)
    requires r.Valid() && s == r.Text() + rest
    ensures ParseFrom(s, parsed) ==
            if parsed + |r.Text()| > MAX_PACKET_SIZE then Malformed
            else Prepend([r.body], ParseFrom(rest, parsed + |r.Text()|))
  {
    hide ParseFrom, FindLF, Atoi, Announces;
    HeadExact(r.head, |r.body|);
    var nl := |r.head|;
    var q := nl + 1 + |r.body|;
    assert s[0] == r.head[0];
    assert FindLF(s) == nl by {
      assert s == r.head + [LF] + (r.body + r.eol + rest);
      FirstLF(r.head, r.body + r.eol + rest);
    }
    Split5(r.head, [LF], r.body, r.eol, rest, s);
    assert EolLength(s[q..]) == |r.eol|;
    ParseStep(s, parsed, nl, q, q + |r.eol|);
  }

  // A record cut short is waited for.
  lemma {:induction false} ParseCutRecord(r: Rec, s: Octets, parsed: nat)
    requires r.Valid() && |s| < |r.Text()| && s == r.Text()[..|s|]
    ensures ParseFrom(s, parsed) == NotReady
  {
    hide Announces, Atoi, FindLF, ParseFrom, EolLength;
    HeadExact(r.head, |r.body|);
    var nl, q := |r.head|, |r.head| + 1 + |r.body|;
    CutText(r, |s|);
    if |s| <= nl {
      NoLF(s);
      ParseUnended(s, parsed);
    } else {
      FirstLF(r.head, r.Text()[nl + 1..|s|]);
      if q <= |s| {
        CutEol(r.eol, |s| - q);
      }
      ParseWaits(s, parsed, nl, q);
    }
  }

  // The front part of a record, as far as it goes.
  lemma {:induction false} CutText(r: Rec, n: nat)
    requires n < |r.Text()| && r.head != []
    ensures var s, nl, q := r.Text()[..n], |r.head|, |r.head| + 1 + |r.body|;
            && (n <= nl ==> s == r.head[..n])
            && (n > nl ==> s == r.head + [LF] + r.Text()[nl + 1..n] && s[..nl] == r.head && s[0] == r.head[0])
            && (n >= q ==> n - q < |r.eol| && s[q..] == r.eol[..n - q])
  {
  }

  lemma {:induction false} CutEol(e: Octets, n: nat)
    requires Eol(e) && n < |e|
    ensures EolLength(e[..n]) == 0
  {
  }

  lemma {:induction false} ParseNoLF(s: Octets, parsed: nat)
    requires LF !in s
    ensures ParseFrom(s, parsed) == NotReady
  {
    NoLF(s);
  }

  lemma {:induction false} ParseClosing(e: Octets, rest: Octets, s: Octets, parsed: nat)
    requires Eol(e) && s == e + rest
    ensures ParseFrom(s, parsed) == Ready([], parsed + |e|)
  {
    hide ParseFrom;
    var h := e[..|e| - 1];
    assert FindLF(s) == |h| by {
      assert s == h + [LF] + rest;
      FirstLF(h, rest);
    }
    assert ParseFrom(s, parsed) == Ready([], parsed + |e|) by { ParseEnd(s, parsed); }
  }

  lemma {:induction false} ParseEnd(s: Octets, parsed: nat)
    requires FindLF(s) < |s| && (FindLF(s) == 0 || (FindLF(s) == 1 && s[0] == CR))
    ensures ParseFrom(s, parsed) == Ready([], parsed + FindLF(s) + 1)
  {
  }

  // Nothing valid starts with a blank.
  lemma {:induction false} FirstByte(rs: seq<Rec>)
    requires AllValid(rs) && rs != []
    ensures Text(rs) != [] && !IsBlank(Text(rs)[0])
  {
    hide Announces;
    assert rs[0].Valid();
    HeadExact(rs[0].head, |rs[0].body|);
    assert Text(rs)[0] == rs[0].head[0];
  }

  // Whole records in front are taken off one by one.
  lemma {:induction false} ParseRecords(rs: seq<Rec>, rest: Octets, s: Octets, parsed: nat)
    requires AllValid(rs) && parsed + |Text(rs)| <= MAX_PACKET_SIZE && s == Text(rs) + rest
    ensures ParseFrom(s, parsed) == Prepend(Bodies(rs), ParseFrom(rest, parsed + |Text(rs)|))
  {
    hide ParseFrom, Rec.Text, Rec.Valid;
    if rs == [] {
      assert s == rest;
    } else {
      var more := Text(rs[1..]) + rest;
      assert s == rs[0].Text() + more;
      ParseRecord(rs[0], more, s, parsed);
      ParseRecords(rs[1..], rest, more, parsed + |rs[0].Text()|);
      assert Bodies(rs) == [rs[0].body] + Bodies(rs[1..]);
    }
  }

  lemma {:induction false} ParseWhole(rs: seq<Rec>, e: Octets, rest: Octets, s: Octets, parsed: nat)
    requires AllValid(rs) && Eol(e) && parsed + |Text(rs)| <= MAX_PACKET_SIZE
    requires s == Text(rs) + (e + rest)
    ensures ParseFrom(s, parsed) == Ready(Bodies(rs), parsed + |Text(rs)| + |e|)
  {
    hide ParseFrom, AllValid, Text, Bodies;
    ParseRecords(rs, e + rest, s, parsed);
    ParseClosing(e, rest, e + rest, parsed + |Text(rs)|);
  }

  lemma {:induction false} ParseCut(rs: seq<Rec>, e: Octets, s: Octets, parsed: nat)
    requires AllValid(rs) && Eol(e) && parsed + |Text(rs)| <= MAX_PACKET_SIZE
    requires |s| < |Text(rs)| + |e| && s == (Text(rs) + e)[..|s|]
    ensures ParseFrom(s, parsed) == NotReady
    decreases |rs|
  {
    hide ParseFrom, FindLF, Rec.Text, Rec.Valid;
    if rs == [] {
      assert s == e[..|s|];
      ParseNoLF(s, parsed);
    } else {
      var n := |rs[0].Text()|;
      var more := Text(rs[1..]) + e;
      assert Text(rs) + e == rs[0].Text() + more;
      if |s| < n {
        assert s == rs[0].Text()[..|s|];
        ParseCutRecord(rs[0], s, parsed);
      } else {
        var cut := more[..|s| - n];
        assert s == rs[0].Text() + cut;
        ParseRecord(rs[0], cut, s, parsed);
        ParseCut(rs[1..], e, cut, parsed + n);
      }
    }
  }

  lemma {:induction false} SplitAgain(s: Octets, nl: nat, q: nat, next: nat)
    requires nl < q <= next <= |s| && s[nl] == LF
    ensures s == s[..nl] + [LF] + s[nl + 1..q] + s[q..next] + s[next..]
  {
    assert s[..nl] + [LF] == s[..nl + 1];
    assert s[..nl + 1] + s[nl + 1..q] == s[..q];
    assert s[..q] + s[q..next] == s[..next];
  }

  lemma {:induction false} EolTaken(s: Octets, q: nat)
    requires q <= |s| && EolLength(s[q..]) > 0
    ensures q + EolLength(s[q..]) <= |s| && Eol(s[q..q + EolLength(s[q..])])
  {
  }

  // The whole record in front of s that parse steps over.
  lemma {:induction false} TakenRecord(s: Octets) returns (r: Rec, rest: Octets)
    requires var nl := FindLF(s);
             && nl < |s| && 0 <= Atoi(s[..nl]) && Announces(s[..nl], Atoi(s[..nl]))
             && nl + 1 + Atoi(s[..nl]) <= |s| && EolLength(s[nl + 1 + Atoi(s[..nl])..]) > 0
    ensures r.Valid() && s == r.Text() + rest && |rest| < |s|
  {
    hide Announces, Atoi, FindLF, EolLength, Eol;
    var nl := FindLF(s);
    var q := nl + 1 + Atoi(s[..nl]);
    var next := q + EolLength(s[q..]);
    EolTaken(s, q);
    SplitAgain(s, nl, q, next);
    r, rest := Rec(s[..nl], s[nl + 1..q], s[q..next]), s[next..];
  }

  // The record that ParseFrom takes off the front of s.
  lemma {:induction false} FrontRecord(s: Octets, parsed: nat) returns (r: Rec, rest: Octets)
    requires ParseFrom(s, parsed).Ready? && ParseFrom(s, parsed).args != []
    ensures r.Valid() && s == r.Text() + rest && |rest| < |s|
  {
    hide Announces, Atoi, FindLF, EolLength, Rec.Valid, Rec.Text;
    var nl := FindLF(s);
    assert s[..nl] != [] ==> s[..nl][0] == s[0];
    HeadExact(s[..nl], Atoi(s[..nl]));
    r, rest := TakenRecord(s);
  }

  lemma {:induction false} FrontClosing(s: Octets, parsed: nat) returns (e: Octets, rest: Octets)
    requires ParseFrom(s, parsed).Ready? && ParseFrom(s, parsed).args == []
    ensures Eol(e) && s == e + rest && ParseFrom(s, parsed).consumed == parsed + |e|
  {
    var nl := FindLF(s);
    e, rest := s[..nl + 1], s[nl + 1..];
  }

  lemma {:induction false} ReadyIsWhole(s: Octets, parsed: nat) returns (rs: seq<Rec>, e: Octets, rest: Octets)
    requires ParseFrom(s, parsed).Ready?
    ensures AllValid(rs) && Eol(e) && s == Text(rs) + (e + rest)
    ensures ParseFrom(s, parsed) == Ready(Bodies(rs), parsed + |Text(rs)| + |e|)
    ensures rs != [] ==> parsed + |Text(rs)| <= MAX_PACKET_SIZE
    decreases |s|
  {
    hide ParseFrom, FindLF, Rec.Text, Rec.Valid, Eol;
    if ParseFrom(s, parsed).args == [] {
      rs := [];
      e, rest := FrontClosing(s, parsed);
      assert Bodies(rs) == [];
      assert s == Text(rs) + (e + rest);
    } else {
      var r, tail := FrontRecord(s, parsed);
      ParseRecord(r, tail, s, parsed);
      var rs';
      rs', e, rest := ReadyIsWhole(tail, parsed + |r.Text()|);
      rs := [r] + rs';
      assert rs[1..] == rs';
      assert Bodies(rs) == [r.body] + Bodies(rs');
    }
  }

  lemma {:induction false} SkipBlankExact(b: Octets, s: Octets)
    requires Blank(b) && (s == [] || !IsBlank(s[0]))
    ensures SkipBlank(b + s) == |b|
  {
    if b == [] {
      assert b + s == s;
    } else {
      assert (b + s)[1..] == b[1..] + s;
      SkipBlankExact(b[1..], s);
    }
  }

  lemma {:induction false} ParseBlankThen(b: Octets, s: Octets)
    requires Blank(b) && (s == [] || !IsBlank(s[0]))
    ensures Parse(b + s) == ParseFrom(s, |b|)
  {
    hide ParseFrom;
    SkipBlankExact(b, s);
    assert (b + s)[|b|..] == s;
  }

  // Main result on the decoder, completeness: a whole packet in front of anything is returned
  // as it was spelled.
  lemma {:induction false} ParseComplete(b: Octets, rs: seq<Rec>, e: Octets, rest: Octets)
    requires PacketText(b, rs, e)
    ensures Parse(b + Text(rs) + e + rest) == Ready(Bodies(rs), |b| + |Text(rs)| + |e|)
  {
    hide ParseFrom, Parse, Text;
    var w := Text(rs) + (e + rest);
    FirstByte(rs);
    assert b + Text(rs) + e + rest == b + w;
    ParseBlankThen(b, w);
    ParseWhole(rs, e, rest, w, |b|);
  }

  // Cut short anywhere, a packet is waited for and never refused.
  lemma {:induction false} ParsePrefix(b: Octets, rs: seq<Rec>, e: Octets, s: Octets)
    requires PacketText(b, rs, e) && s < b + Text(rs) + e
    ensures Parse(s) == NotReady
  {
    hide ParseFrom, Parse, Text;
    var w := Text(rs) + e;
    assert b + Text(rs) + e == b + w;
    assert s == (b + w)[..|s|];
    FirstByte(rs);
    if |s| <= |b| {
      assert s == b[..|s|] && s + [] == s;
      ParseBlankThen(s, []);
      ParseNoLF([], |s|);
    } else {
      var cut := w[..|s| - |b|];
      assert s == b + cut;
      ParseBlankThen(b, cut);
      ParseCut(rs, e, cut, |b|);
    }
  }

  // Main result on the decoder, soundness: whatever is returned was spelled in front of s.
  lemma {:induction false} ParseSound(s: Octets) returns (b: Octets, rs: seq<Rec>, e: Octets, rest: Octets)
    requires Parse(s).Ready?
    ensures PacketText(b, rs, e) && s == b + Text(rs) + e + rest
    ensures Parse(s) == Ready(Bodies(rs), |b| + |Text(rs)| + |e|)
  {
    hide ParseFrom, SkipBlank, Text, AllValid;
    var k := SkipBlank(s);
    b := s[..k];
    rs, e, rest := ReadyIsWhole(s[k..], k);
    assert s == b + s[k..];
    ReadyNonempty(s[k..], k);
    assert |Bodies(rs)| == |rs|;
  }

  lemma {:induction false} ReadyNonempty(s: Octets, parsed: nat)
    requires ParseFrom(s, parsed).Ready? && (s == [] || !IsBlank(s[0]))
    ensures ParseFrom(s, parsed).args != []
  {
  }

  lemma {:induction false} ParseEmpty()
    ensures Parse([]) == NotReady
  {
  }

  lemma {:induction false} ParseFromBlank(s: Octets)
    ensures Parse(s) == Prepend([], ParseFrom(s[SkipBlank(s)..], SkipBlank(s)))
  {
    hide ParseFrom, SkipBlank;
  }

  lemma {:induction false} ParseNonempty(s: Octets)
    requires Parse(s).Ready?
    ensures Parse(s).args != [] && Parse(s).consumed <= |s|
  {
    hide Parse, Text;
    var b, rs, e, rest := ParseSound(s);
    assert |Bodies(rs)| == |rs|;
  }

  // s starts with n bytes that spell the packet args.
  ghost predicate Spelled(s: Octets, args: Packet, n: nat) {
    exists b: Octets, rs: seq<Rec>, e: Octets ::
      PacketText(b, rs, e) && args == Bodies(rs) && n == |b| + |Text(rs)| + |e| && b + Text(rs) + e <= s
  }

  // Both together: parse returns a packet if and only if the input starts with one.
  lemma {:induction false} ParseExact(s: Octets, args: Packet, n: nat)
    ensures Parse(s) == Ready(args, n) <==> Spelled(s, args, n)
  {
    hide Parse, Text, Bodies, PacketText, Spelled;
    if Parse(s) == Ready(args, n) {
      var b, rs, e, rest := ParseSound(s);
      FrontSpelled(s, b, rs, e, rest);
    }
    if Spelled(s, args, n) {
      SpelledIsParsed(s, args, n);
    }
  }

  lemma {:induction false} FrontSpelled(s: Octets, b: Octets, rs: seq<Rec>, e: Octets, rest: Octets)
    requires PacketText(b, rs, e) && s == b + Text(rs) + e + rest
    ensures Spelled(s, Bodies(rs), |b| + |Text(rs)| + |e|)
  {
    hide Text, Bodies, PacketText;
    assert b + Text(rs) + e <= s;
  }

  lemma {:induction false} SpelledIsParsed(s: Octets, args: Packet, n: nat)
    requires Spelled(s, args, n)
    ensures Parse(s) == Ready(args, n)
  {
    hide Parse, Text, Bodies, PacketText;
    var b: Octets, rs: seq<Rec>, e: Octets :|
      PacketText(b, rs, e) && args == Bodies(rs) && n == |b| + |Text(rs)| + |e| && b + Text(rs) + e <= s;
    FrontAndRest(b + Text(rs) + e, s);
    ParseComplete(b, rs, e, s[|b + Text(rs) + e|..]);
  }

  lemma {:induction false} FrontAndRest(front: Octets, s: Octets)
    requires front <= s
    ensures s == front + s[|front|..]
  {
  }

  // Once ready, later bytes change nothing.
  lemma {:induction false} ParseStable(s: Octets, more: Octets)
    requires Parse(s).Ready?
    ensures Parse(s + more) == Parse(s)
  {
    hide Parse, Text;
    var b, rs, e, rest := ParseSound(s);
    ParseComplete(b, rs, e, rest);
    assert s + more == b + Text(rs) + e + (rest + more);
    ParseComplete(b, rs, e, rest + more);
  }

  // ---------- What the sender writes is in the grammar ----------

  lemma {:induction false} StrtolDigits(n: nat)
    ensures Strtol(Digits(n), 0) == n
  {
    if n >= 10 {
      StrtolDigits(n / 10);
      StrtolSnoc(Digits(n / 10), 48 + n % 10, 0);
    }
  }

  function Pow10(k: nat): nat {
    if k == 0 then 1 else 10 * Pow10(k - 1)
  }

  lemma {:induction false} DigitsShort(n: nat, k: nat)
    requires k >= 1 && n < Pow10(k)
    ensures |Digits(n)| <= k
  {
    if n >= 10 {
      DigitsShort(n / 10, k - 1);
    }
  }

  lemma {:induction false} IntDigits(n: nat)
    requires n <= INT_MAX
    ensures |Digits(n)| <= 10 && Atoi(Digits(n)) == n && LF !in Digits(n)
  {
    assert Pow10(10) == 10000000000 by {
      assert Pow10(5) == 100000;
    }
    DigitsShort(n, 10);
    StrtolDigits(n);
  }

  predicate Sendable(p: Packet) {
    forall i | 0 <= i < |p| :: |p[i]| <= INT_MAX
  }

  function RecsOf(p: Packet): seq<Rec> {
    seq(|p|, i requires 0 <= i < |p| => Rec(Digits(|p[i]|), p[i], [LF]))
  }

  lemma {:induction false} EncodeIsText(p: Packet)
    requires Sendable(p)
    ensures AllValid(RecsOf(p)) && Text(RecsOf(p)) == EncodeRecords(p) && Bodies(RecsOf(p)) == p
  {
    if p != [] {
      IntDigits(|p[0]|);
      HeadExact(Digits(|p[0]|), |p[0]|);
      EncodeIsText(p[1..]);
      var rs, rs' := RecsOf(p), RecsOf(p[1..]);
      assert rs[1..] == rs';
      assert rs[0].Valid();
      assert forall i | 1 <= i < |rs| :: rs[i] == rs'[i - 1];
      assert Bodies(rs) == [p[0]] + Bodies(rs');
    }
  }

  // Round trip: an encoded packet behind blank lines b comes back, whatever follows it.
  lemma {:induction false} RoundTrip(b: Octets, p: Packet, rest: Octets)
    requires p != [] && Sendable(p) && Blank(b) && |b| + |EncodeRecords(p)| <= MAX_PACKET_SIZE
    ensures Parse(b + Encode(p) + rest) == Ready(p, |b| + |Encode(p)|)
  {
    hide Parse, Text;
    EncodeIsText(p);
    ParseComplete(b, RecsOf(p), [LF], rest);
    assert b + Encode(p) + rest == b + EncodeRecords(p) + [LF] + rest;
  }

  // A record takes the text past MAX_PACKET_SIZE.
  lemma {:induction false} ParseTooLong(rs: seq<Rec>, rest: Octets, s: Octets, parsed: nat)
    requires AllValid(rs) && rs != [] && parsed + |Text(rs)| > MAX_PACKET_SIZE && s == Text(rs) + rest
    ensures ParseFrom(s, parsed) == Malformed
    decreases |rs|
  {
    hide ParseFrom, Rec.Text, Rec.Valid;
    var n, more := parsed + |rs[0].Text()|, Text(rs[1..]) + rest;
    assert s == rs[0].Text() + more;
    ParseRecord(rs[0], more, s, parsed);
    if n <= MAX_PACKET_SIZE {
      ParseTooLong(rs[1..], rest, more, n);
    }
  }

  // The sender does not check the limit: a packet comes back exactly if it keeps it, and is refused
  // otherwise.
  lemma {:induction false} RoundTripExactly(b: Octets, p: Packet, rest: Octets)
    requires p != [] && Sendable(p) && Blank(b)
    ensures Parse(b + Encode(p) + rest) ==
            if |b| + |EncodeRecords(p)| <= MAX_PACKET_SIZE then Ready(p, |b| + |Encode(p)|) else Malformed
  {
    hide Parse, ParseFrom, Text;
    if |b| + |EncodeRecords(p)| <= MAX_PACKET_SIZE {
      RoundTrip(b, p, rest);
    } else {
      EncodeIsText(p);
      var rs, tail := RecsOf(p), [LF] + rest;
      FirstByte(rs);
      assert b + Encode(p) + rest == b + (Text(rs) + tail);
      ParseBlankThen(b, Text(rs) + tail);
      ParseTooLong(rs, tail, Text(rs) + tail, |b|);
    }
  }

  lemma {:induction false} PrefixSafety(b: Octets, p: Packet, s: Octets)
    requires p != [] && Sendable(p) && Blank(b) && |b| + |EncodeRecords(p)| <= MAX_PACKET_SIZE
    requires s < b + Encode(p)
    ensures Parse(s) == NotReady
  {
    hide Parse, Text;
    EncodeIsText(p);
    assert b + Encode(p) == b + EncodeRecords(p) + [LF];
    ParsePrefix(b, RecsOf(p), [LF], s);
  }
}
