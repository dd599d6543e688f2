// Input that Link::parse neither returns nor refuses, whatever comes behind it.
module Stalls {
  import opened Octets
  import opened Wire

  // Neither a line end nor the start of one: what parse takes for "not ready" all the same.
  predicate NoLineEnd(junk: Octets) {
    !(junk <= [CR, LF]) && !([LF] <= junk) && !([CR, LF] <= junk)
  }

  function Stub(h: Octets, body: Octets, junk: Octets): Octets {
    h + [LF] + body + junk
  }

  // Whole records, then one with a complete body that no line end follows.
  ghost predicate StuckText(rs: seq<Rec>, h: Octets, body: Octets, junk: Octets, parsed: nat) {
    && AllValid(rs) && (rs != [] ==> parsed + |Text(rs)| <= MAX_PACKET_SIZE)
    && Announces(h, |body|) && NoLineEnd(junk)
  }

  ghost predicate StuckFrom(s: Octets, parsed: nat) {
    exists rs: seq<Rec>, h: Octets, body: Octets, junk: Octets ::
      StuckText(rs, h, body, junk, parsed) && s == Text(rs) + Stub(h, body, junk)
  }

  ghost predicate Stuck(s: Octets) {
    exists b: Octets, rest: Octets :: Blank(b) && s == b + rest && StuckFrom(rest, |b|)
  }

  // ---------- Stuck input stays unanswered ----------

  lemma {:induction false} StubWaits(h: Octets, body: Octets, junk: Octets, parsed: nat)
    requires Announces(h, |body|) && NoLineEnd(junk)
    ensures ParseFrom(Stub(h, body, junk), parsed) == NotReady
  {
    hide ParseFrom, FindLF, Atoi, Announces, Stub;
    var s, nl := Stub(h, body, junk), |h|;
    assert s == h + [LF] + body + junk by { StubIs(h, body, junk); }
    HeadExact(h, |body|);
    assert s[0] == h[0];
    assert FindLF(s) == nl by {
      assert s == h + [LF] + (body + junk);
      FirstLF(h, body + junk);
    }
    Split5(h, [LF], body, [], junk, s);
    JunkEndsNothing(junk);
    ParseWaits(s, parsed, nl, nl + 1 + |body|);
  }

  lemma {:induction false} StubIs(h: Octets, body: Octets, junk: Octets)
    ensures Stub(h, body, junk) == h + [LF] + body + junk
  {
  }

  lemma {:induction false} JunkEndsNothing(junk: Octets)
    requires NoLineEnd(junk)
    ensures EolLength(junk) == 0
  {
  }

  lemma {:induction false} StuckFromWaits(s: Octets, parsed: nat, t: Octets)
    requires StuckFrom(s, parsed)
    ensures ParseFrom(s + t, parsed) == NotReady && s != [] && !IsBlank(s[0])
  {
    hide ParseFrom, Announces, Text, Bodies;
    var rs: seq<Rec>, h: Octets, body: Octets, junk: Octets :|
      StuckText(rs, h, body, junk, parsed) && s == Text(rs) + Stub(h, body, junk);
    assert Stub(h, body, junk) + t == Stub(h, body, junk + t);
    assert s + t == Text(rs) + Stub(h, body, junk + t);
    StubWaits(h, body, junk + t, parsed + |Text(rs)|);
    if rs == [] {
      TextOfNone();
      HeadExact(h, |body|);
      assert s == Stub(h, body, junk) && s + t == Stub(h, body, junk + t);
      assert s[0] == h[0];
    } else {
      ParseRecords(rs, Stub(h, body, junk + t), s + t, parsed);
      FirstByte(rs);
      assert s[0] == Text(rs)[0];
    }
  }

  lemma {:induction false} TextOfNone()
    ensures Text([]) == []
  {
  }

  lemma {:induction false} StuckWaits(s: Octets, t: Octets)
    requires Stuck(s)
    ensures Parse(s + t) == NotReady
  {
    hide ParseFrom, Parse, StuckFrom;
    var b: Octets, rest: Octets :| Blank(b) && s == b + rest && StuckFrom(rest, |b|);
    StuckFromWaits(rest, |b|, t);
    assert s + t == b + (rest + t);
    ParseBlankThen(b, rest + t);
  }

  // ---------- Any other input can be answered ----------

  function Zeros(n: nat): (z: Octets)
    ensures |z| == n
  {
    seq(n, _ => 0)
  }

  // s is the front part of the record r: the rest of r and a closing line settle it.
  lemma {:induction false} FinishRecord(s: Octets, r: Rec, parsed: nat) returns (t: Octets)
    requires r.Valid() && s <= r.Text()
    ensures ParseFrom(s + t, parsed) != NotReady
  {
    hide ParseFrom, Rec.Valid, Rec.Text;
    t := r.Text()[|s|..] + [LF];
    assert s + t == r.Text() + [LF];
    ParseRecord(r, [LF], s + t, parsed);
    ParseClosing([LF], [], [LF], parsed + |r.Text()|);
  }

  // No line feed yet.
  lemma {:induction false} FinishHead(s: Octets, parsed: nat) returns (t: Octets)
    requires LF !in s
    ensures ParseFrom(s + t, parsed) != NotReady
  {
    hide ParseFrom, Announces, Atoi, FindLF;
    FirstLF(s, []);
    assert s + [LF] + [] == s + [LF] && (s + [LF])[..|s|] == s;
    if s == [] || s == [CR] {
      t := [LF];
      ParseEnd(s + t, parsed);
    } else if !IsDigit(s[0]) || |s| >= MAX_HEAD || Atoi(s) < 0 {
      t := [LF];
      assert (s + t)[0] == s[0];
      ParseCases(s + t, parsed);
    } else {
      var r := Rec(s, Zeros(Atoi(s)), [LF]);
      HeadExact(s, Atoi(s));
      assert r.Text() == s + ([LF] + r.body + [LF]);
      t := FinishRecord(s, r, parsed);
    }
  }

  // The head is there, the record is not.
  lemma {:induction false} FinishBody(s: Octets, parsed: nat) returns (t: Octets)
    requires !StuckFrom(s, parsed)
    requires var nl := FindLF(s);
             && nl < |s| && 0 <= Atoi(s[..nl]) && Announces(s[..nl], Atoi(s[..nl]))
             && (nl + 1 + Atoi(s[..nl]) <= |s| ==> EolLength(s[nl + 1 + Atoi(s[..nl])..]) == 0)
    ensures ParseFrom(s + t, parsed) != NotReady
  {
    hide ParseFrom, Announces, Atoi, FindLF, StuckFrom;
    var nl := FindLF(s);
    var h, n := s[..nl], Atoi(s[..nl]);
    var q := nl + 1 + n;
    assert s == h + [LF] + s[nl + 1..];
    if q > |s| {
      var r := Rec(h, s[nl + 1..] + Zeros(q - |s|), [LF]);
      assert r.Text() == s + (Zeros(q - |s|) + [LF]);
      t := FinishRecord(s, r, parsed);
    } else {
      var body, junk := s[nl + 1..q], s[q..];
      assert s == Stub(h, body, junk) by { assert s[nl + 1..] == body + junk; }
      if NoLineEnd(junk) {
        StuckAtOnce(h, body, junk, parsed);
        assert false;
      }
      var r := Rec(h, body, junk + [LF]);
      assert r.Text() == s + [LF];
      t := FinishRecord(s, r, parsed);
    }
  }

  lemma {:induction false} StuckAtOnce(h: Octets, body: Octets, junk: Octets, parsed: nat)
    requires Announces(h, |body|) && NoLineEnd(junk)
    ensures StuckFrom(Stub(h, body, junk), parsed)
  {
    hide Announces, NoLineEnd, Stub;
    TextOfNone();
    assert Text([]) + Stub(h, body, junk) == Stub(h, body, junk);
    assert StuckText([], h, body, junk, parsed);
  }

  lemma {:induction false} StuckBehind(r: Rec, rest: Octets, parsed: nat)
    requires r.Valid() && StuckFrom(rest, parsed + |r.Text()|) && parsed + |r.Text()| <= MAX_PACKET_SIZE
    ensures StuckFrom(r.Text() + rest, parsed)
  {
    hide Rec.Valid, Announces, NoLineEnd, Stub, Rec.Text;
    var n := parsed + |r.Text()|;
    var rs: seq<Rec>, h: Octets, body: Octets, junk: Octets :|
      StuckText(rs, h, body, junk, n) && rest == Text(rs) + Stub(h, body, junk);
    var rs' := [r] + rs;
    assert rs'[1..] == rs;
    assert r.Text() + rest == Text(rs') + Stub(h, body, junk);
    assert StuckText(rs', h, body, junk, parsed);
  }

  lemma {:induction false} FinishFrom(s: Octets, parsed: nat) returns (t: Octets)
    requires ParseFrom(s, parsed) == NotReady && !StuckFrom(s, parsed)
    ensures ParseFrom(s + t, parsed) != NotReady
    decreases |s|
  {
    hide ParseFrom, Announces, Atoi, FindLF, StuckFrom, EolLength, Rec.Valid, Rec.Text;
    ParseCases(s, parsed);
    var nl := FindLF(s);
    if nl == |s| {
      assert s[..nl] == s;
      t := FinishHead(s, parsed);
    } else {
      if nl == 0 || (nl == 1 && s[0] == CR) {
        ParseEnd(s, parsed);
      }
      assert s[..nl] != [] && s[..nl][0] == s[0];
      HeadExact(s[..nl], Atoi(s[..nl]));
      var q := nl + 1 + Atoi(s[..nl]);
      if q > |s| || EolLength(s[q..]) == 0 {
        t := FinishBody(s, parsed);
      } else {
        var r, rest := TakenRecord(s);
        ParseRecord(r, rest, s, parsed);
        var n := parsed + |r.Text()|;
        if StuckFrom(rest, n) {
          StuckBehind(r, rest, parsed);
          assert false;
        }
        t := FinishFrom(rest, n);
        assert s + t == r.Text() + (rest + t);
        ParseRecord(r, rest + t, s + t, parsed);
      }
    }
  }

  // "0", an empty body and a closing line
  lemma {:induction false} EmptyRecord(parsed: nat)
    ensures ParseFrom([48, LF, LF, LF], parsed) != NotReady
  {
    hide ParseFrom, Announces;
    var r := Rec([48], [], [LF]);
    assert Strtol([48][1..], 0) == 0;
    HeadExact([48], 0);
    assert r.Text() + [LF] == [48, LF, LF, LF];
    ParseRecord(r, [LF], r.Text() + [LF], parsed);
    ParseClosing([LF], [], [LF], parsed + |r.Text()|);
  }

  lemma {:induction false} Finish(s: Octets) returns (t: Octets)
    requires !Stuck(s)
    ensures Parse(s + t) != NotReady
  {
    hide ParseFrom, Parse, StuckFrom, SkipBlank;
    var k := SkipBlank(s);
    var b, rest := s[..k], s[k..];
    assert s == b + rest;
    if rest == [] {
      t := [48, LF, LF, LF];
      EmptyRecord(k);
      assert s + t == b + t;
      ParseBlankThen(b, t);
    } else {
      ParseBlankThen(b, rest);
      if ParseFrom(rest, k) == NotReady {
        t := FinishFrom(rest, k);
      } else {
        t := [];
        assert rest + t == rest;
      }
      assert s + t == b + (rest + t);
      ParseBlankThen(b, rest + t);
    }
  }

  // Main result: a receiver that holds s waits for ever, whatever is sent, exactly if a complete
  // body in s is followed by what is no line end.
  lemma {:induction false} WaitsForeverExactly(s: Octets)
    ensures (forall t: Octets :: Parse(s + t) == NotReady) <==> Stuck(s)
  {
    hide Parse, Stuck;
    if Stuck(s) {
      forall t: Octets ensures Parse(s + t) == NotReady {
        StuckWaits(s, t);
      }
    } else {
      var t := Finish(s);
    }
  }

  // "1", a line feed and "aX": the body is whole, and X ends no line.
  lemma {:induction false} StuckExample()
    ensures Stuck([49, LF, 97, 88]) && forall t: Octets :: Parse([49, LF, 97, 88] + t) == NotReady
  {
    hide Parse, StuckFrom, Announces;
    var h, body, junk := [49], [97], [88];
    assert Strtol([49][1..], 1) == 1;
    HeadExact(h, 1);
    assert junk[0] == 88 && [CR, LF][0] == CR;
    StuckAtOnce(h, body, junk, 0);
    assert Stub(h, body, junk) == [49, LF, 97, 88] == [] + Stub(h, body, junk);
    assert Blank([]);
    WaitsForeverExactly([49, LF, 97, 88]);
  }
}
