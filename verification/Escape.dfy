// The escape codec of util/strings.h and the line codec of util/line.h.
module Escape {
  import opened Octets

  const BACKSLASH: Byte := 92

  // ---------- Escaping ----------

  function Hex(d: int): Byte
    requires 0 <= d < 16
  {
    if d < 10 then 48 + d else 97 + (d - 10)
  }

  function EscapeByte(c: Byte): Octets {
    if c == CR then [BACKSLASH, 114]
    else if c == LF then [BACKSLASH, 110]
    else if c == 9 then [BACKSLASH, 116]
    else if c == BACKSLASH then [BACKSLASH, BACKSLASH]
    else if 32 <= c <= 126 then [c]
    else [BACKSLASH, 120, Hex(c / 16), Hex(c % 16)]
  }

  function Escaped(s: Octets): Octets {
    if s == [] then [] else Escaped(s[..|s| - 1]) + EscapeByte(s[|s| - 1])
  }

  // str_escape
  method StrEscape(s: Octets) returns (ret: Octets)
    ensures ret == Escaped(s)
  {
    ret := [];
    for i := 0 to |s|
      invariant ret == Escaped(s[..i])
    {
      assert s[..i + 1][..i] == s[..i];
      ret := ret + EscapeByte(s[i]);
    }
    assert s[..|s|] == s;
  }

  // ---------- Unescaping ----------

  // hex_int on a signed char
  function HexInt(c: Byte): int {
    var signed := if c < 128 then c else c - 256;
    if 48 <= c <= 57 then c - 48 else signed - 97 + 10
  }

  function Letter(c: Byte): Byte {
    if c == 97 then 7
    else if c == 98 then 8
    else if c == 102 then 12
    else if c == 118 then 11
    else if c == 114 then CR
    else if c == 110 then LF
    else if c == 116 then 9
    else c
  }

  // What one round of str_unescape makes of the front of s: the bytes it gives and how many it
  // takes. A lone backslash at the end and a short \x give nothing.
  function UnescapeFront(s: Octets): (r: (Octets, nat))
    requires s != []
    ensures 1 <= r.1 <= |s|
  {
    if s[0] != BACKSLASH then ([s[0]], 1)
    else if |s| == 1 then ([], 1)
    else if s[1] == 120 then
      if |s| < 4 then ([], 2) else ([(HexInt(s[2]) * 16 + HexInt(s[3])) % 256], 4)
    else ([Letter(s[1])], 2)
  }

  function Unescaped(s: Octets): Octets {
    if s == [] then [] else UnescapeFront(s).0 + Unescaped(s[UnescapeFront(s).1..])
  }

  // str_unescape
  method StrUnescape(s: Octets) returns (ret: Octets)
    ensures ret == Unescaped(s)
  {
    hide HexInt, Letter, Unescaped;
    ret := [];
    var i := 0;
    var size := |s|;
    assert s[0..] == s;
    while i < size
      invariant 0 <= i <= size && ret + Unescaped(s[i..]) == Unescaped(s)
    {
      UnescapeStep(s[i..]);
      ghost var was, front := ret, UnescapeFront(s[i..]);
      ghost var from := i;
      var c := s[i];
      if c != BACKSLASH {
        ret := ret + [c];
      } else if i < size - 1 {
        i := i + 1;
        var c2 := s[i];
        if c2 == 120 {
          if i < size - 2 {
            ret := ret + [(HexInt(s[i + 1]) * 16 + HexInt(s[i + 2])) % 256];
            i := i + 2;
          }
        } else {
          ret := ret + [Letter(c2)];
        }
      }
      i := i + 1;
      assert ret == was + front.0 && i == from + front.1;
      NextRound(s, from, front.1, was, front.0, Unescaped(s[from..][front.1..]));
    }
    assert s[size..] == [];
    UnescapeNothing();
  }

  lemma {:induction false} NextRound(s: Octets, from: nat, n: nat, was: Octets, front: Octets, rest: Octets)
    requires from + n <= |s|
    ensures s[from..][n..] == s[from + n..] && was + (front + rest) == was + front + rest
  {
  }

  lemma {:induction false} UnescapeNothing()
    ensures Unescaped([]) == []
  {
  }

  // ---------- Unescaping undoes escaping ----------

  // An escaped byte is one round.
  lemma {:induction false} RoundOfByte(c: Byte, rest: Octets)
    ensures UnescapeFront(EscapeByte(c) + rest) == ([c], |EscapeByte(c)|)
  {
    assert HexInt(Hex(c / 16)) == c / 16 && HexInt(Hex(c % 16)) == c % 16;
  }

  lemma {:induction false} EscapedFront(s: Octets)
    requires s != []
    ensures Escaped(s) == EscapeByte(s[0]) + Escaped(s[1..])
  {
    hide EscapeByte;
    if |s| > 1 {
      EscapedFront(s[..|s| - 1]);
      assert s[..|s| - 1][1..] == s[1..][..|s| - 2];
    }
  }

  // Main result: every byte string comes back.
  lemma {:induction false} UnescapeEscape(s: Octets)
    ensures Unescaped(Escaped(s)) == s
  {
    hide EscapeByte, UnescapeFront;
    if s != [] {
      var e, rest := EscapeByte(s[0]), Escaped(s[1..]);
      EscapedFront(s);
      RoundOfByte(s[0], rest);
      UnescapeEscape(s[1..]);
      assert (e + rest)[|e|..] == rest;
      UnescapeStep(e + rest);
      assert [s[0]] + s[1..] == s;
    }
  }

  lemma {:induction false} UnescapeStep(s: Octets)
    requires s != []
    ensures Unescaped(s) == UnescapeFront(s).0 + Unescaped(s[UnescapeFront(s).1..])
  {
  }

  predicate Printable(s: Octets) {
    forall i | 0 <= i < |s| :: 32 <= s[i] <= 126
  }

  lemma {:induction false} EscapedPrintable(s: Octets)
    ensures Printable(Escaped(s))
  {
    if s != [] {
      EscapedPrintable(s[..|s| - 1]);
      assert Printable(EscapeByte(s[|s| - 1]));
    }
  }

  // ---------- Both codecs byte by byte ----------

  // The digits as bytes, from 0 to f.
  const HEX := "0123456789abcdef"

  // Printing bytes stand for themselves, but for the backslash; a carriage return, a line feed, a
  // tab and the backslash have their letters; all other bytes are two hexadecimal digits.
  lemma {:induction false} EscapedIs(c: Byte, s: Octets)
    ensures Escaped([]) == []
    ensures Escaped([c] + s) ==
            (if c == 13 then [92, 114]
             else if c == 10 then [92, 110]
             else if c == 9 then [92, 116]
             else if c == 92 then [92, 92]
             else if 32 <= c <= 126 then [c]
             else [92, 120, HEX[c / 16] as Byte, HEX[c % 16] as Byte]) + Escaped(s)
  {
    hide Escaped;
    assert ([c] + s)[1..] == s;
    EscapedFront([c] + s);
    EscapedNothing();
  }

  lemma {:induction false} EscapedNothing()
    ensures Escaped([]) == []
  {
  }

  // What stands behind a backslash, and how the rest goes on.
  lemma {:induction false} UnescapedIs(c: Byte, s: Octets)
    ensures c != 92 ==> Unescaped([c] + s) == [c] + Unescaped(s)
    ensures c != 120 ==>
              Unescaped([92, c] + s) ==
              [if c == 97 then 7 else if c == 98 then 8 else if c == 102 then 12 else if c == 118 then 11
               else if c == 114 then 13 else if c == 110 then 10 else if c == 116 then 9 else c] + Unescaped(s)
    ensures Unescaped([]) == Unescaped([92]) == Unescaped([92, 120]) == []
    ensures Unescaped([92, 120, c]) == Unescaped([c])
  {
    hide Unescaped;
    UnescapeNothing();
    assert ([c] + s)[1..] == s && ([92, c] + s)[2..] == s;
    assert [92, 120, c][2..] == [c] && [92][1..] == [92, 120][2..] == [];
    UnescapeStep([c] + s);
    UnescapeStep([92, c] + s);
    UnescapeStep([92]);
    UnescapeStep([92, 120]);
    UnescapeStep([92, 120, c]);
  }

  lemma {:induction false} UnescapedHex(a: nat, b: nat, s: Octets)
    requires a < 16 && b < 16
    ensures Unescaped([92, 120, HEX[a] as Byte, HEX[b] as Byte] + s) == [16 * a + b] + Unescaped(s)
  {
    hide Unescaped, HexInt;
    HexDigit(a);
    HexDigit(b);
    HexRound(HEX[a] as Byte, HEX[b] as Byte, s);
  }

  // Any other bytes are taken for digits as well: capitals do not give what they mean.
  lemma {:induction false} UnescapedOther(h: Byte, l: Byte, s: Octets)
    requires 58 <= h < 128 && 58 <= l < 128
    ensures Unescaped([92, 120, h, l] + s) == [(16 * (h - 87) + (l - 87)) % 256] + Unescaped(s)
  {
    hide Unescaped;
    HexRound(h, l, s);
  }

  lemma {:induction false} HexDigit(d: nat)
    requires d < 16
    ensures HexInt(HEX[d] as Byte) == d
  {
    assert HEX[d] as int == if d < 10 then 48 + d else 87 + d;
  }

  lemma {:induction false} HexRound(h: Byte, l: Byte, s: Octets)
    ensures Unescaped([92, 120, h, l] + s) == [(HexInt(h) * 16 + HexInt(l)) % 256] + Unescaped(s)
  {
    hide Unescaped, HexInt;
    var t := [92, 120, h, l] + s;
    assert t[4..] == s;
    UnescapeStep(t);
  }

  // ---------- Lines ----------

  function Lines(data: seq<Octets>): Octets {
    if data == [] then [] else Escaped(data[0]) + [LF] + Lines(data[1..])
  }

  lemma {:induction false} LinesSnoc(data: seq<Octets>, d: Octets)
    ensures Lines(data + [d]) == Lines(data) + Escaped(d) + [LF]
  {
    hide Escaped;
    if data == [] {
      assert [d][1..] == [];
    } else {
      assert (data + [d])[1..] == data[1..] + [d];
      LinesSnoc(data[1..], d);
      Rejoin(Escaped(data[0]) + [LF], Lines(data[1..]), Escaped(d), [LF]);
    }
  }

  lemma {:induction false} Rejoin(a: Octets, b: Octets, c: Octets, d: Octets)
    ensures a + (b + c + d) == a + b + c + d
  {
  }

  class LineEncoder {
    var val: Octets
    // what was written so far
    ghost var data: seq<Octets>

    ghost predicate Valid()
      reads this
    {
      val == Lines(data)
    }

    constructor ()
      ensures Valid() && data == []
    {
      val, data := [], [];
    }

    method Write(d: Octets) returns (ret: int)
      requires Valid()
      modifies this
      ensures Valid() && ret == 0 && data == old(data) + [d] && val == old(val) + Escaped(d) + [10]
    {
      LinesSnoc(data, d);
      var e := StrEscape(d);
      val := val + e;
      val := val + [LF];
      data := data + [d];
      return 0;
    }
  }

  class LineDecoder {
    const buf: Octets
    var spos: nat
    var epos: nat

    ghost predicate Valid()
      reads this
    {
      spos <= epos <= |buf| && LF !in buf[spos..epos]
    }

    // The text not read yet.
    ghost function Rest(): Octets
      requires Valid()
      reads this
    {
      buf[spos..]
    }

    constructor (s: Octets)
      ensures Valid() && buf == s && Rest() == s
    {
      buf := s;
      spos, epos := 0, 0;
    }

    // The next line, unescaped; -1 when no line feed is left.
    method Read() returns (ret: int, line: Octets)
      requires Valid()
      modifies this
      ensures Valid()
      ensures ret == -1 <==> 10 !in old(Rest())
      ensures ret == -1 ==> Rest() == old(Rest())
      ensures ret != -1 ==> ret == |line|
      ensures forall l, more | old(Rest()) == l + [LF] + more && LF !in l :: line == Unescaped(l) && Rest() == more
    {
      while epos < |buf| && buf[epos] != LF
        invariant Valid() && spos == old(spos)
        decreases |buf| - epos
      {
        assert buf[spos..epos + 1] == buf[spos..epos] + [buf[epos]];
        epos := epos + 1;
      }
      ghost var rest := Rest();
      if epos >= |buf| || buf[epos] != LF {
        assert rest == buf[spos..epos];
        return -1, [];
      }
      var raw := buf[spos..epos];
      assert rest == raw + [LF] + buf[epos + 1..];
      forall l, more | rest == l + [LF] + more && LF !in l ensures l == raw && more == buf[epos + 1..] {
        FirstLine(raw, buf[epos + 1..], l, more);
      }
      assert rest[|raw|] == LF;
      spos := epos + 1;
      epos := spos;
      line := StrUnescape(raw);
      ret := |line|;
    }
  }

  lemma {:induction false} FirstLine(a: Octets, b: Octets, c: Octets, d: Octets)
    requires a + [LF] + b == c + [LF] + d && LF !in a && LF !in c
    ensures a == c && b == d
  {
    var s, t := a + [LF] + b, c + [LF] + d;
    assert s[0] == if a == [] then LF else a[0];
    assert t[0] == if c == [] then LF else c[0];
    assert a != [] ==> a[0] in a;
    assert c != [] ==> c[0] in c;
    if a == [] {
      assert b == s[1..] == t[1..] == d;
    } else {
      assert s[1..] == a[1..] + [LF] + b && t[1..] == c[1..] + [LF] + d;
      FirstLine(a[1..], b, c[1..], d);
      assert a == [a[0]] + a[1..] && c == [c[0]] + c[1..];
    }
  }

  // Main result: a list of byte strings written line by line is read back as the same list, and
  // then -1.
  method WriteThenRead(data: seq<Octets>) returns (back: seq<Octets>, last: int)
    ensures back == data && last == -1
  {
    hide Escaped, Unescaped, Lines, Printable, LineDecoder.Valid, LineDecoder.Rest;
    var text := WriteLines(data);
    var dec := new LineDecoder(text);
    assert data[0..] == data;
    back := [];
    for i := 0 to |data|
      invariant dec.Valid() && fresh(dec) && back == data[..i] && dec.Rest() == Lines(data[i..])
    {
      LinesFirst(data[i..]);
      assert data[i..][1..] == data[i + 1..];
      var r, line := dec.Read();
      assert line == data[i] && dec.Rest() == Lines(data[i + 1..]);
      back := back + [line];
    }
    LinesNone();
    assert data[|data|..] == [];
    var line;
    last, line := dec.Read();
  }

  method WriteLines(data: seq<Octets>) returns (text: Octets)
    ensures text == Lines(data)
  {
    var enc := new LineEncoder();
    for i := 0 to |data|
      invariant enc.Valid() && fresh(enc) && enc.data == data[..i]
    {
      var r := enc.Write(data[i]);
    }
    assert data[..|data|] == data;
    return enc.val;
  }

  lemma {:induction false} LinesFirst(data: seq<Octets>)
    requires data != []
    ensures Lines(data) == Escaped(data[0]) + [LF] + Lines(data[1..])
    ensures LF in Lines(data) && LF !in Escaped(data[0]) && Unescaped(Escaped(data[0])) == data[0]
  {
    hide Escaped, Unescaped;
    EscapedPrintable(data[0]);
    UnescapeEscape(data[0]);
    NoLineFeed(Escaped(data[0]));
    HasLineFeed(Escaped(data[0]), Lines(data[1..]));
  }

  lemma {:induction false} LinesNone()
    ensures Lines([]) == []
  {
  }

  lemma {:induction false} NoLineFeed(s: Octets)
    requires Printable(s)
    ensures LF !in s
  {
  }

  lemma {:induction false} HasLineFeed(a: Octets, b: Octets)
    ensures LF in a + [LF] + b
  {
    assert (a + [LF] + b)[|a|] == LF;
  }
}
