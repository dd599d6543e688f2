// The packet format once more, with every byte and bound written out, and what the decoder and the
// encoder do in these terms. Nothing here uses the definitions of Wire that the code shares, only
// its data types and the functions described.
module Protocol {
  import opened Octets
  import opened Wire

  predicate LineFeeds(b: Octets) {
    forall x <- b :: x == 10 || x == 13
  }

  predicate LineEnd(e: Octets) {
    e == [10] || e == [13, 10]
  }

  predicate Numeral(d: Octets) {
    forall i | 0 <= i < |d| :: 48 <= d[i] <= 57
  }

  function Decimal(d: Octets): int {
    if d == [] then 0 else 10 * Decimal(d[..|d| - 1]) + d[|d| - 1] - 48
  }

  // v wrapped around to 32 bits.
  function Wrapped(v: int): int {
    (v + 2147483648) % 4294967296 - 2147483648
  }

  // The line h starts with digits that are n as a 32-bit int; anything may follow them.
  ghost predicate Says(h: Octets, n: int) {
    exists k :: 1 <= k <= |h| && LeadingDigits(h, k) && Wrapped(Decimal(h[..k])) == n
  }

  ghost predicate LeadingDigits(h: Octets, k: nat) {
    k <= |h| && Numeral(h[..k]) && (k < |h| ==> !(48 <= h[k] <= 57))
  }

  // A length line in front of a body: at most 18 bytes and no line feed.
  ghost predicate LengthLine(h: Octets, n: int) {
    |h| <= 18 && 10 !in h && Says(h, n)
  }

  ghost predicate Good(rs: seq<Rec>) {
    forall i | 0 <= i < |rs| :: LengthLine(rs[i].head, |rs[i].body|) && LineEnd(rs[i].eol)
  }

  function Bytes(rs: seq<Rec>): Octets {
    if rs == [] then [] else rs[0].head + [10] + rs[0].body + rs[0].eol + Bytes(rs[1..])
  }

  // Blank lines, at least one record and a closing line, 128 MB at most without the closing line.
  ghost predicate Framed(b: Octets, rs: seq<Rec>, e: Octets) {
    LineFeeds(b) && rs != [] && Good(rs) && LineEnd(e) && |b| + |Bytes(rs)| <= 134217728
  }

  // The first n bytes of s are a packet with these bodies.
  ghost predicate Frames(s: Octets, args: Packet, n: nat) {
    exists b: Octets, rs: seq<Rec>, e: Octets ::
      && Framed(b, rs, e) && b + Bytes(rs) + e <= s && n == |b| + |Bytes(rs)| + |e|
      && |args| == |rs| && forall i | 0 <= i < |rs| :: args[i] == rs[i].body
  }

  // A line that is neither empty nor a length line.
  ghost predicate BadLine(rest: Octets) {
    exists h: Octets, more: Octets ::
      && rest == h + [10] + more && 10 !in h && h != [] && h != [13]
      && forall n | LengthLine(h, n) :: n < 0
  }

  // Blank lines and whole records, and then a bad line or too many bytes.
  ghost predicate Refusable(s: Octets) {
    exists b: Octets, rs: seq<Rec>, rest: Octets ::
      LineFeeds(b) && Good(rs) && s == b + (Bytes(rs) + rest) && Offends(|b|, rs, rest)
  }

  ghost predicate Offends(skipped: nat, rs: seq<Rec>, rest: Octets) {
    if rs != [] && skipped + |Bytes(rs)| > 134217728 then true
    else BadLine(rest) && (rs == [] ==> rest[0] != 10 && rest[0] != 13)
  }

  // ---------- The two descriptions agree ----------

  lemma {:induction false} BlanksAgree(b: Octets)
    ensures LineFeeds(b) <==> Blank(b)
  {
  }

  lemma {:induction false} DecimalIsNumber(d: Octets)
    ensures Decimal(d) == Number(d)
  {
    if d != [] {
      DecimalIsNumber(d[..|d| - 1]);
    }
  }

  lemma {:induction false} LeadsAgree(h: Octets, k: nat)
    ensures LeadingDigits(h, k) <==> Leads(h, k)
  {
    if k <= |h| {
      var d := h[..k];
      assert (forall b <- d :: IsDigit(b)) ==> Numeral(d) by {
        if forall b <- d :: IsDigit(b) {
          forall i | 0 <= i < |d| ensures 48 <= d[i] <= 57 {
            assert d[i] in d;
          }
        }
      }
      assert Numeral(d) ==> forall b <- d :: IsDigit(b);
    }
  }

  lemma {:induction false} WrapIs(v: int)
    ensures ToInt32(v) == Wrapped(v)
  {
    var q, m := v / 4294967296, v % 4294967296;
    if m < 2147483648 {
      RemainderIs(v + 2147483648, q, m + 2147483648);
    } else {
      RemainderIs(v + 2147483648, q + 1, m - 2147483648);
    }
  }

  lemma {:induction false} RemainderIs(a: int, q: int, r: int)
    requires a == q * 4294967296 + r && 0 <= r < 4294967296
    ensures a % 4294967296 == r
  {
  }

  // The decoder's atoi reads what a length line says.
  lemma {:induction false} SaysIsAtoi(h: Octets, n: int)
    requires h != [] && 48 <= h[0] <= 57
    ensures Says(h, n) <==> Atoi(h) == n
  {
    hide LeadingDigits, Leads, Decimal, Number, Strtol, ToInt32, Wrapped;
    var k0 := LeadExists(h);
    LeadIsNumber(h, k0);
    LeadsAgree(h, k0);
    DecimalIsNumber(h[..k0]);
    WrapIs(Strtol(h, 0));
    forall k | 1 <= k <= |h| && LeadingDigits(h, k) ensures Decimal(h[..k]) == Strtol(h, 0) {
      LeadsAgree(h, k);
      LeadIsNumber(h, k);
      DecimalIsNumber(h[..k]);
    }
  }

  lemma {:induction false} SaysDigitFirst(h: Octets, n: int)
    requires Says(h, n)
    ensures h != [] && 48 <= h[0] <= 57
  {
    hide Decimal, Wrapped;
    var k :| 1 <= k <= |h| && LeadingDigits(h, k) && Wrapped(Decimal(h[..k])) == n;
    assert h[0] == h[..k][0];
  }

  lemma {:induction false} LengthLineIs(h: Octets, n: nat)
    ensures LengthLine(h, n) <==> Announces(h, n)
  {
    hide Says, Announces, Atoi;
    HeadExact(h, n);
    if Says(h, n) {
      SaysDigitFirst(h, n);
      SaysIsAtoi(h, n);
    }
    if h != [] && 48 <= h[0] <= 57 {
      SaysIsAtoi(h, n);
    }
  }

  lemma {:induction false} RecordsAgree(rs: seq<Rec>)
    ensures Good(rs) <==> AllValid(rs)
    ensures Bytes(rs) == Text(rs)
    decreases |rs|
  {
    hide LengthLine, Announces;
    forall i | 0 <= i < |rs| ensures LengthLine(rs[i].head, |rs[i].body|) <==> Announces(rs[i].head, |rs[i].body|) {
      LengthLineIs(rs[i].head, |rs[i].body|);
    }
    if rs != [] {
      RecordsAgree(rs[1..]);
    }
  }

  // ---------- What parse returns and refuses ----------

  // Main result: parse returns a packet if and only if the input starts with one.
  lemma {:induction false} ReturnsExactly(s: Octets, args: Packet, n: nat)
    ensures Parse(s) == Ready(args, n) <==> Frames(s, args, n)
  {
    hide Parse, Good, Bytes, Text, Rec.Valid, LineFeeds, Blank;
    ParseExact(s, args, n);
    if Spelled(s, args, n) {
      var b: Octets, rs: seq<Rec>, e: Octets :|
        PacketText(b, rs, e) && args == Bodies(rs) && n == |b| + |Text(rs)| + |e| && b + Text(rs) + e <= s;
      BlanksAgree(b);
      RecordsAgree(rs);
      assert Framed(b, rs, e);
    }
    if Frames(s, args, n) {
      var b: Octets, rs: seq<Rec>, e: Octets :|
        && Framed(b, rs, e) && b + Bytes(rs) + e <= s && n == |b| + |Bytes(rs)| + |e|
        && |args| == |rs| && forall i | 0 <= i < |rs| :: args[i] == rs[i].body;
      BlanksAgree(b);
      RecordsAgree(rs);
      assert PacketText(b, rs, e) && args == Bodies(rs);
    }
  }

  // A bad line in front of s is what the loop of parse refuses at once.
  lemma {:induction false} BadLineRefused(s: Octets, parsed: nat)
    requires BadLine(s)
    ensures ParseFrom(s, parsed) == Malformed
  {
    hide ParseFrom, FindLF, Atoi, LengthLine, Says;
    var h: Octets, more: Octets :|
      && s == h + [10] + more && 10 !in h && h != [] && h != [13]
      && forall n | LengthLine(h, n) :: n < 0;
    FirstLF(h, more);
    assert s[..|h|] == h && s[0] == h[0];
    if IsDigit(h[0]) && |h| < MAX_HEAD {
      SaysIsAtoi(h, Atoi(h));
      assert LengthLine(h, Atoi(h)) by { LengthLineOf(h, Atoi(h)); }
    }
    ParseBadHead(s, parsed, |h|);
  }

  lemma {:induction false} LengthLineOf(h: Octets, n: int)
    requires |h| <= 18 && 10 !in h && Says(h, n)
    ensures LengthLine(h, n)
  {
  }

  // The head line of s is refused: it is a bad line.
  lemma {:induction false} RefusedIsBadLine(s: Octets)
    requires var nl := FindLF(s);
             && 0 < nl < |s| && !(nl == 1 && s[0] == CR)
             && (!IsDigit(s[0]) || nl + 1 > MAX_HEAD || Atoi(s[..nl]) < 0)
    ensures BadLine(s)
  {
    hide FindLF, Atoi, Says;
    var nl := FindLF(s);
    var h, more := s[..nl], s[nl + 1..];
    assert s == h + [10] + more;
    assert h[0] == s[0];
    assert h != [13];
    forall n | LengthLine(h, n) ensures n < 0 {
      SaysDigitFirst(h, n);
      SaysIsAtoi(h, n);
    }
  }

  lemma {:induction false} OffendsRefused(rs: seq<Rec>, rest: Octets, parsed: nat)
    requires Good(rs) && Offends(parsed, rs, rest)
    ensures ParseFrom(Bytes(rs) + rest, parsed) == Malformed
  {
    hide ParseFrom, Good, Bytes, Text, BadLine, Bodies;
    RecordsAgree(rs);
    var s := Bytes(rs) + rest;
    if rs != [] && parsed + |Bytes(rs)| > 134217728 {
      ParseTooLong(rs, rest, s, parsed);
    } else if rs == [] {
      NoBytes();
      assert s == rest;
      BadLineRefused(rest, parsed);
    } else {
      ParseRecords(rs, rest, s, parsed);
      BadLineRefused(rest, parsed + |Bytes(rs)|);
    }
  }

  lemma {:induction false} NoBytes()
    ensures Bytes([]) == [] && Good([])
  {
  }

  // What the loop of parse refuses: records, and then an offence.
  lemma {:induction false} RefusedOffends(s: Octets, parsed: nat) returns (rs: seq<Rec>, rest: Octets)
    requires ParseFrom(s, parsed) == Malformed
    ensures Good(rs) && s == Bytes(rs) + rest
    ensures if rs != [] && parsed + |Bytes(rs)| > 134217728 then true else BadLine(rest)
    decreases |s|
  {
    hide ParseFrom, FindLF, Atoi, EolLength, Good, Bytes, BadLine, Announces, Rec.Valid, Rec.Text;
    ParseCases(s, parsed);
    NoBytes();
    var nl := FindLF(s);
    if nl == 0 || (nl == 1 && s[0] == CR) {
      ParseEnd(s, parsed);
    }
    if !IsDigit(s[0]) || nl + 1 > MAX_HEAD || Atoi(s[..nl]) < 0 {
      RefusedIsBadLine(s);
      rs, rest := [], s;
      assert [] + s == s;
    } else {
      assert s[..nl][0] == s[0];
      HeadExact(s[..nl], Atoi(s[..nl]));
      var r, tail := TakenRecord(s);
      ParseRecord(r, tail, s, parsed);
      var n := parsed + |r.Text()|;
      if n > MAX_PACKET_SIZE {
        rs, rest := [r], tail;
        OneMore(r, []);
        assert [r] + [] == [r];
      } else {
        var rs';
        rs', rest := RefusedOffends(tail, n);
        rs := [r] + rs';
        OneMore(r, rs');
        assert s == r.Text() + (Bytes(rs') + rest);
      }
    }
  }

  lemma {:induction false} OneMore(r: Rec, rs: seq<Rec>)
    requires r.Valid() && Good(rs)
    ensures Good([r] + rs) && Bytes([r] + rs) == r.Text() + Bytes(rs)
  {
    hide Announces;
    var all := [r] + rs;
    RecordsAgree(rs);
    RecordsAgree(all);
    assert all[1..] == rs;
    assert forall i | 1 <= i < |all| :: all[i] == rs[i - 1];
  }

  // Main result: parse refuses the input if and only if whole records are followed by a bad line,
  // or take more bytes than allowed.
  lemma {:induction false} RefusesExactly(s: Octets)
    ensures Parse(s) == Malformed <==> Refusable(s)
  {
    hide ParseFrom, Good, Bytes, SkipBlank, BadLine;
    if Refusable(s) {
      var b: Octets, rs: seq<Rec>, rest: Octets :|
        LineFeeds(b) && Good(rs) && s == b + (Bytes(rs) + rest) && Offends(|b|, rs, rest);
      BlanksAgree(b);
      OffendsRefused(rs, rest, |b|);
      StartsSolid(rs, rest, |b|);
      ParseBlankThen(b, Bytes(rs) + rest);
    }
    if Parse(s) == Malformed {
      var k := SkipBlank(s);
      var b, tail := s[..k], s[k..];
      assert s == b + tail;
      BlanksAgree(b);
      var rs, rest := RefusedOffends(tail, k);
      NoBytes();
      assert rs == [] ==> tail == rest;
      BadLineNotEmpty(rest);
      assert Offends(|b|, rs, rest);
    }
  }

  lemma {:induction false} BadLineNotEmpty(rest: Octets)
    ensures BadLine(rest) ==> rest != []
  {
  }

  lemma {:induction false} StartsSolid(rs: seq<Rec>, rest: Octets, parsed: nat)
    requires Good(rs) && Offends(parsed, rs, rest)
    ensures Bytes(rs) + rest != [] && !IsBlank((Bytes(rs) + rest)[0])
  {
    hide Good, Bytes, BadLine;
    RecordsAgree(rs);
    if rs == [] {
      NoBytes();
      BadLineNotEmpty(rest);
      assert [] + rest == rest;
    } else {
      FirstByte(rs);
      assert (Bytes(rs) + rest)[0] == Bytes(rs)[0];
    }
  }

  // The text "ping" and a line feed, from a client that speaks something else, is refused.
  lemma {:induction false} PingRefused()
    ensures Parse([112, 105, 110, 103, 10]) == Malformed
  {
    hide Parse, Says;
    var h: Octets, s := [112, 105, 110, 103], [112, 105, 110, 103, 10];
    assert s == h + [10] + [];
    forall n ensures LengthLine(h, n) ==> 48 <= h[0] <= 57 {
      if LengthLine(h, n) {
        SaysDigitFirst(h, n);
      }
    }
    assert BadLine(s);
    NoBytes();
    assert s == [] + ([] + s);
    assert Offends(0, [], s);
    assert LineFeeds([]);
    RefusesExactly(s);
  }

  // ---------- What send writes ----------

  // d is the number n in decimal, without leading zeros.
  ghost predicate PlainDecimal(d: Octets, n: nat) {
    d != [] && Numeral(d) && (|d| > 1 ==> d[0] != 48) && Decimal(d) == n
  }

  function Laid(ds: seq<Octets>, p: Packet): Octets
    requires |ds| == |p|
  {
    if p == [] then [10] else ds[0] + [10] + p[0] + [10] + Laid(ds[1..], p[1..])
  }

  lemma {:induction false} DigitsPlain(n: nat)
    ensures PlainDecimal(Digits(n), n) && (n > 0 ==> Digits(n)[0] != 48)
  {
    if n >= 10 {
      DigitsPlain(n / 10);
      var d := Digits(n);
      assert d[..|d| - 1] == Digits(n / 10);
      assert d[0] == Digits(n / 10)[0];
    } else {
      assert [48 + n][..0] == [];
    }
  }

  // Main result on the sender: each body behind its length in decimal without leading zeros, with
  // single line feeds, and one more line feed at the end.
  lemma {:induction false} EncodedExactly(p: Packet) returns (ds: seq<Octets>)
    ensures |ds| == |p| && (forall i | 0 <= i < |p| :: PlainDecimal(ds[i], |p[i]|))
    ensures Encode(p) == Laid(ds, p)
  {
    hide Digits, PlainDecimal;
    if p == [] {
      ds := [];
    } else {
      DigitsPlain(|p[0]|);
      var ds' := EncodedExactly(p[1..]);
      ds := [Digits(|p[0]|)] + ds';
      assert ds[1..] == ds';
    }
  }

  // There is only one way to write a number like that.
  lemma {:induction false} DecimalUnique(c: Octets, d: Octets, n: nat)
    requires PlainDecimal(c, n) && PlainDecimal(d, n)
    ensures c == d
    decreases |c|
  {
    var c', d' := c[..|c| - 1], d[..|d| - 1];
    DecimalGrows(c);
    DecimalGrows(d);
    if |c| > 1 && |d| > 1 {
      assert Decimal(c') == n / 10 == Decimal(d');
      DecimalUnique(c', d', n / 10);
      assert c == c' + [c[|c| - 1]] && d == d' + [d[|d| - 1]];
    }
  }

  lemma {:induction false} DecimalGrows(d: Octets)
    requires d != [] && Numeral(d) && (|d| > 1 ==> d[0] != 48)
    ensures |d| > 1 ==> Decimal(d) >= 10
    ensures |d| == 1 ==> Decimal(d) == d[0] - 48
    ensures d[0] != 48 ==> Decimal(d) >= 1
  {
    if |d| == 1 {
      assert d[..0] == [];
    } else {
      DecimalGrows(d[..|d| - 1]);
    }
  }
}
