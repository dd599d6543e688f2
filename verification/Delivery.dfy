// Packets sent over one link and received over another, with the kernel cutting the byte stream
// where it likes.
module Delivery {
  import opened Octets
  import opened Wire
  import opened Buffers
  import opened Sockets
  import opened Responses
  import opened Links

  function NonEmpty(ps: seq<Packet>): seq<Packet> {
    if ps == [] then []
    else (if ps[0] == [] then [] else [ps[0]]) + NonEmpty(ps[1..])
  }

  predicate Quiet(ps: seq<Packet>, i: nat, j: nat)
    requires j <= |ps|
  {
    forall k | i <= k < j :: ps[k] == []
  }

  // Each packet, with the empty packets (blank lines) before it, stays within MAX_PACKET_SIZE.
  predicate Fits(ps: seq<Packet>) {
    && (forall j | 0 <= j < |ps| :: forall k | 0 <= k < |ps[j]| :: |ps[j][k]| <= INT_MAX - 17)
    && forall i, j | 0 <= i <= j < |ps| && Quiet(ps, i, j) :: j - i + |EncodeRecords(ps[j])| <= MAX_PACKET_SIZE
  }

  // The bytes in flight are those of the packets from number k on; the ones before were returned.
  ghost predicate InFlight(flight: Octets, sent: seq<Packet>, got: seq<Packet>, k: nat) {
    k <= |sent| && got == NonEmpty(sent[..k]) && flight == EncodeAll(sent[k..])
  }

  ghost predicate Consistent(flight: Octets, sent: seq<Packet>, got: seq<Packet>) {
    exists k: nat :: InFlight(flight, sent, got, k)
  }

  // ---------- Lists of packets ----------

  lemma {:induction false} NonEmptyAppend(a: seq<Packet>, b: seq<Packet>)
    ensures NonEmpty(a + b) == NonEmpty(a) + NonEmpty(b)
  {
    if a == [] {
      assert a + b == b;
    } else {
      assert (a + b)[1..] == a[1..] + b;
      NonEmptyAppend(a[1..], b);
    }
  }

  lemma {:induction false} EncodeAllAppend(a: seq<Packet>, b: seq<Packet>)
    ensures EncodeAll(a + b) == EncodeAll(a) + EncodeAll(b)
  {
    hide Encode;
    if a == [] {
      assert a + b == b;
    } else {
      assert (a + b)[1..] == a[1..] + b;
      EncodeAllAppend(a[1..], b);
    }
  }

  lemma {:induction false} EncodeAllOne(p: Packet)
    ensures EncodeAll([p]) == Encode(p)
  {
    hide Encode;
    assert [p][1..] == [];
    assert Encode(p) + [] == Encode(p);
  }

  // The index of the first packet from k on that is not empty.
  function Lead(ps: seq<Packet>, k: nat): (j: nat)
    requires k <= |ps|
    ensures k <= j <= |ps| && Quiet(ps, k, j) && (j < |ps| ==> ps[j] != [])
    decreases |ps| - k
  {
    if k == |ps| || ps[k] != [] then k else Lead(ps, k + 1)
  }

  lemma {:induction false} QuietBytes(ps: seq<Packet>)
    requires Quiet(ps, 0, |ps|)
    ensures NonEmpty(ps) == [] && Blank(EncodeAll(ps)) && |EncodeAll(ps)| == |ps|
  {
    if ps != [] {
      QuietBytes(ps[1..]);
      assert ps[0] == [];
      assert Encode(ps[0]) == [LF];
    }
  }

  // How the pending bytes start: blank lines, then the next packet that is not empty.
  lemma {:induction false} Upcoming(ps: seq<Packet>, k: nat) returns (j: nat, b: Octets)
    requires k <= |ps|
    ensures k <= j <= |ps| && Quiet(ps, k, j) && Blank(b) && |b| == j - k
    ensures j == |ps| ==> EncodeAll(ps[k..]) == b && NonEmpty(ps[k..]) == []
    ensures j < |ps| ==> ps[j] != [] && EncodeAll(ps[k..]) == b + Encode(ps[j]) + EncodeAll(ps[j + 1..])
    ensures j < |ps| ==> NonEmpty(ps[..j + 1]) == NonEmpty(ps[..k]) + [ps[j]]
  {
    hide Encode, EncodeAll, NonEmpty;
    j := Lead(ps, k);
    var mid := ps[k..j];
    QuietBytes(mid);
    b := EncodeAll(mid);
    SplitTwice(ps, k, j);
    EncodeAllAppend(mid, ps[j..]);
    NonEmptyAppend(mid, ps[j..]);
    if j < |ps| {
      NonEmptyAppend(ps[..k], mid + [ps[j]]);
      NonEmptyAppend(mid, [ps[j]]);
      FirstOfRest(ps[j..]);
      assert b + (Encode(ps[j]) + EncodeAll(ps[j + 1..])) == b + Encode(ps[j]) + EncodeAll(ps[j + 1..]);
    } else {
      FirstOfRest([]);
    }
  }

  lemma {:induction false} SplitTwice(ps: seq<Packet>, k: nat, j: nat)
    requires k <= j <= |ps|
    ensures ps[k..] == ps[k..j] + ps[j..] && (j == |ps| ==> ps[j..] == [])
    ensures j < |ps| ==> ps[j..][0] == ps[j] && ps[j..][1..] == ps[j + 1..]
    ensures j < |ps| ==> ps[..j + 1] == ps[..k] + (ps[k..j] + [ps[j]])
  {
  }

  lemma {:induction false} FirstOfRest(ps: seq<Packet>)
    ensures ps == [] ==> EncodeAll(ps) == [] && NonEmpty(ps) == []
    ensures ps != [] ==> EncodeAll(ps) == Encode(ps[0]) + EncodeAll(ps[1..])
    ensures ps != [] && ps[0] != [] ==> NonEmpty([ps[0]]) == [ps[0]]
  {
    hide Encode;
  }

  // ---------- The steps of the stream ----------

  lemma {:induction false} SendKeeps(flight: Octets, sent: seq<Packet>, got: seq<Packet>, p: Packet)
    requires Consistent(flight, sent, got)
    ensures Consistent(flight + Encode(p), sent + [p], got)
  {
    hide Encode, EncodeAll, NonEmpty;
    var k: nat :| InFlight(flight, sent, got, k);
    assert (sent + [p])[..k] == sent[..k] && (sent + [p])[k..] == sent[k..] + [p];
    EncodeAllAppend(sent[k..], [p]);
    EncodeAllOne(p);
    assert InFlight(flight + Encode(p), sent + [p], got, k);
  }

  // The front part x of a stream that starts with a packet: it is waited for or returned.
  lemma {:induction false} ParseFront(x: Octets, y: Octets, b: Octets, p: Packet, rest: Octets)
    requires p != [] && Sendable(p) && Blank(b) && |b| + |EncodeRecords(p)| <= MAX_PACKET_SIZE
    requires x + y == b + Encode(p) + rest
    ensures Parse(x) == NotReady ==> |x| <= MAX_PACKET_SIZE && y != []
    ensures Parse(x) != NotReady ==>
              var n := |b| + |Encode(p)|;
              n <= |x| && Parse(x) == Ready(p, n) && x[n..] + y == rest
  {
    hide Parse, EncodeRecords;
    var w := b + Encode(p);
    if |x| < |w| {
      assert x == w[..|x|] by { assert x == (w + rest)[..|x|]; }
      PrefixSafety(b, p, x);
    } else {
      var more := x[|w|..];
      assert x == w + more by { assert (w + rest)[..|x|] == w + rest[..|x| - |w|]; }
      RoundTrip(b, p, more);
      assert more + y == rest by { assert (w + rest)[|w|..] == rest; }
    }
  }

  lemma {:induction false} ParseQuiet(x: Octets)
    requires Blank(x)
    ensures Parse(x) == NotReady
  {
    hide Parse, ParseFrom;
    assert x + [] == x;
    ParseBlankThen(x, []);
    ParseNoLF([], |x|);
  }

  // What parse makes of a front part x of the stream: the next packet or nothing yet, never an
  // error; and what it waits on is no longer than a packet may be.
  lemma {:induction false} ParseKeeps(x: Octets, y: Octets, sent: seq<Packet>, got: seq<Packet>)
    requires Fits(sent) && Consistent(x + y, sent, got)
    ensures match Parse(x)
            case Malformed => false
            case Ready(p, n) => n <= |x| && Consistent(x[n..] + y, sent, got + [p])
            case NotReady => |x| <= MAX_PACKET_SIZE + 1 && (y == [] ==> got == NonEmpty(sent))
  {
    hide Parse, Encode, EncodeRecords, EncodeAll, NonEmpty;
    var k: nat :| InFlight(x + y, sent, got, k);
    var j, b := Upcoming(sent, k);
    if j < |sent| {
      ParseFront(x, y, b, sent[j], EncodeAll(sent[j + 1..]));
      if Parse(x) != NotReady {
        var n := |b| + |Encode(sent[j])|;
        assert InFlight(x[n..] + y, sent, got + [sent[j]], j + 1);
      }
    } else {
      assert Blank(x) by { assert x == b[..|x|]; }
      ParseQuiet(x);
      assert sent == sent[..k] + sent[k..];
      NonEmptyAppend(sent[..k], sent[k..]);
      assert j > k ==> Quiet(sent, k, j - 1);
    }
  }

  // The same for a receiver: its buffer never stands in the way.
  lemma {:induction false} PollKeeps(p: Pipe, y: Octets, sent: seq<Packet>, got: seq<Packet>)
    requires p.Valid() && Fits(sent) && Consistent(p.pend + y, sent, got)
    ensures p.Parsed().1
    ensures match Parse(p.pend)
            case Malformed => false
            case Ready(args, n) => n <= |p.pend| && Consistent(p.pend[n..] + y, sent, got + [args])
            case NotReady => y == [] ==> got == NonEmpty(sent)
  {
    hide Parse, Fits, Consistent, NonEmpty, Pipe.Parsed, Pipe.Widened, Pipe.Roomy;
    ParsedFacts(p);
    ParseKeeps(p.pend, y, sent, got);
  }

  lemma {:induction false} GotIsPrefix(flight: Octets, sent: seq<Packet>, got: seq<Packet>)
    requires Consistent(flight, sent, got)
    ensures got <= NonEmpty(sent)
  {
    var k: nat :| InFlight(flight, sent, got, k);
    assert sent == sent[..k] + sent[k..];
    NonEmptyAppend(sent[..k], sent[k..]);
  }

  // ---------- The links at work ----------

  datatype Action = SendPacket(p: Packet) | WriteSome | Carry(n: nat) | ReadSome | Poll

  function Sends(schedule: seq<Action>): seq<Packet> {
    if schedule == [] then []
    else (if schedule[0].SendPacket? then [schedule[0].p] else []) + Sends(schedule[1..])
  }

  lemma {:induction false} Behind(a: Octets, b: Octets, c: Octets, d: Octets)
    ensures a + (b + (c + d)) == a + (b + c) + d
  {
  }

  // One more packet meets the assumptions, with pending output up to `level` in a buffer that can
  // grow to `limit`.
  predicate Takes(sent: seq<Packet>, level: nat, limit: nat, p: Packet) {
    Fits(sent + [p]) && RoomFor(p, level, limit)
  }

  // All packets of a schedule together meet them, even if nothing leaves the buffer meanwhile.
  predicate Willing(sent: seq<Packet>, level: nat, schedule: seq<Action>) {
    Fits(sent + Sends(schedule)) && level + |EncodeAll(Sends(schedule))| + 16 <= ROOM
  }

  lemma {:induction false} FitsPrefix(a: seq<Packet>, b: seq<Packet>)
    requires Fits(a + b)
    ensures Fits(a)
  {
    var ab := a + b;
    assert forall j | 0 <= j < |a| :: ab[j] == a[j];
    forall i, j | 0 <= i <= j < |a| && Quiet(a, i, j) ensures j - i + |EncodeRecords(a[j])| <= MAX_PACKET_SIZE {
      assert Quiet(ab, i, j);
    }
  }

  lemma {:induction false} FitsBodies(sent: seq<Packet>, p: Packet)
    requires Fits(sent + [p])
    ensures forall k | 0 <= k < |p| :: |p[k]| <= INT_MAX - 17
  {
    assert p == (sent + [p])[|sent|];
  }

  lemma {:induction false} SendsNone()
    ensures Sends([]) == []
  {
  }

  lemma {:induction false} WillingStep(
    sent: seq<Packet>, level: nat, limit: nat, schedule: seq<Action>, sent': seq<Packet>, level': nat)
    requires schedule != [] && limit >= ROOM
    requires var a := schedule[0];
             && sent' == sent + (if a.SendPacket? && Takes(sent, level, limit, a.p) then [a.p] else [])
             && level' <= level + if a.SendPacket? then |Encode(a.p)| else 0
    ensures Willing(sent, level, schedule) ==>
              Willing(sent', level', schedule[1..]) && sent' + Sends(schedule[1..]) == sent + Sends(schedule)
  {
    hide Fits, Encode, EncodeAll, Takes;
    var rest := Sends(schedule[1..]);
    if schedule[0].SendPacket? {
      if Willing(sent, level, schedule) {
        WillingSend(sent, level, limit, schedule[0].p, rest);
        assert sent + ([schedule[0].p] + rest) == sent + [schedule[0].p] + rest;
      }
    } else {
      assert [] + rest == rest && sent + [] == sent;
    }
  }

  lemma {:induction false} WillingSend(
    sent: seq<Packet>, level: nat, limit: nat, p: Packet, rest: seq<Packet>)
    requires limit >= ROOM
    requires Fits(sent + ([p] + rest)) && level + |EncodeAll([p] + rest)| + 16 <= ROOM
    ensures Takes(sent, level, limit, p) && level + |Encode(p)| + |EncodeAll(rest)| + 16 <= ROOM
  {
    hide Fits, Encode, EncodeAll;
    assert sent + ([p] + rest) == sent + [p] + rest;
    FitsPrefix(sent + [p], rest);
    EncodeAllAppend([p], rest);
    EncodeAllOne(p);
    RoomSuffices(p, level, limit);
  }

  // A sending link, a receiving link, and a record of what went in and what came out.
  class Channel {
    const src: Link
    const dst: Link
    var sent: seq<Packet>
    var got: seq<Packet>

    ghost predicate Apart()
      reads this, src.Repr(), dst.Repr()
    {
      src.Valid() && dst.Valid() && src.Repr() !! dst.Repr() && this !in src.Repr() && this !in dst.Repr()
    }

    // The bytes on their way, oldest first.
    ghost function Flight(): Octets
      requires Apart()
      reads this, src.Repr(), dst.Repr()
    {
      dst.Incoming() + src.Outgoing()
    }

    ghost predicate Valid()
      reads this, src.Repr(), dst.Repr()
    {
      Apart() && Fits(sent) && Consistent(Flight(), sent, got)
    }

    constructor (src: Link, dst: Link)
      requires src.Valid() && dst.Valid() && src.Repr() !! dst.Repr()
      requires src.Outgoing() == [] && dst.Incoming() == []
      ensures Valid() && this.src == src && this.dst == dst && sent == got == []
    {
      this.src, this.dst, sent, got := src, dst, [], [];
      new;
      assert InFlight(Flight(), sent, got, 0);
    }

    // Where the pending output ends in its buffer.
    function Level(): nat
      requires Apart()
      reads this, src.Repr(), dst.Repr()
    {
      src.output.off + src.output.size
    }

    // What that buffer can grow to.
    function Bound(): nat
      requires Apart()
      reads this, src.Repr(), dst.Repr()
    {
      Limit(src.output.buf.Length)
    }

    // Sends p where the assumptions hold: packets within the limit, and room to grow.
    method DoSend(p: Packet)
      requires Valid()
      modifies this`sent, src.output, src.output.buf
      ensures Valid() && got == old(got)
      ensures src.output.buf == old(src.output.buf) || fresh(src.output.buf)
      ensures sent == old(sent) + if old(Takes(sent, Level(), Bound(), p)) then [p] else []
      ensures Level() <= old(Level()) + |Encode(p)|
    {
      hide Encode, Consistent, Fits, Written, RoomFor, Limit, Link.In, Link.Out, Buffer.Contents;
      if Takes(sent, Level(), Bound(), p) {
        FitsBodies(sent, p);
        SendKeeps(Flight(), sent, got, p);
        WrittenWholeExactly(p, Level(), Bound());
        Behind(dst.Incoming(), src.sock.outbound, src.output.Contents(), Encode(p));
        src.Send(p);
        sent := sent + [p];
      }
    }

    // The sender hands a front part of its output to the kernel.
    method DoWrite()
      requires Valid()
      modifies src.output, src.output.buf, src.sock
      ensures Valid() && src.Outgoing() == old(src.Outgoing()) && old(src.sock.outbound) <= src.sock.outbound
      ensures var t := Answers(old(src.sock.script), old(src.output.size), Writing, src.noblock);
              Total(t) <= old(src.output.size) && src.Out() == old(src.Out()).Sent(Total(t), |t|)
      ensures old(src.sock.script) == [] ==> src.output.size == 0
      ensures src.output.buf == old(src.output.buf) || fresh(src.output.buf)
      ensures Level() <= old(Level())
    {
      hide Consistent, Fits, Answers, Total, WriteResult, Outflow.Sent;
      if src.sock.script == [] && src.output.size > 0 {
        WriteAll(src.output.size, src.noblock);
      }
      var _ := src.Write();
      assert Flight() == old(Flight());
    }

    // The network carries up to n bytes over.
    method Transit(n: nat)
      requires Valid()
      modifies src.sock, dst.sock
      ensures Valid()
      ensures var m := if n <= |old(src.sock.outbound)| then n else |old(src.sock.outbound)|;
              && dst.sock.inbound == old(dst.sock.inbound) + old(src.sock.outbound)[..m]
              && src.sock.outbound == old(src.sock.outbound)[m..]
      ensures src.sock.script == old(src.sock.script) && dst.sock.script == old(dst.sock.script)
    {
      hide Consistent, Fits;
      var m := if n <= |src.sock.outbound| then n else |src.sock.outbound|;
      ghost var out := src.sock.outbound;
      dst.sock.inbound, src.sock.outbound := dst.sock.inbound + src.sock.outbound[..m], src.sock.outbound[m..];
      assert out == out[..m] + out[m..];
      assert Flight() == old(Flight());
    }

    // The receiver takes a front part of what the kernel has.
    method DoRead()
      requires Valid()
      modifies dst.input, dst.input.buf, dst.sock
      ensures Valid() && dst.Incoming() == old(dst.Incoming()) && old(dst.input.Contents()) <= dst.input.Contents()
      ensures dst.In() == old(dst.In()).Fed(dst.noblock) && src.Out() == old(src.Out())
      ensures dst.input.buf == old(dst.input.buf) || fresh(dst.input.buf)
    {
      hide Consistent, Fits, Pipe.Fed, Pipe.Heard, ReadResult;
      var _ := dst.Read();
      assert Flight() == old(Flight());
    }

    // A poll of the receiver: never an error, and either the next packet or none yet.
    method DoParse() returns (ok: bool)
      requires Valid()
      modifies this`got, dst`recvData, dst.input, dst.input.buf
      ensures Valid()
      ensures dst.input.buf == old(dst.input.buf) || fresh(dst.input.buf)
      ensures ok && old(got) <= got && |got| <= |old(got)| + 1
      ensures (dst.In(), ok) == old(dst.In()).Parsed() && src.Out() == old(src.Out())
      ensures got != old(got) ==> InRange(dst.input.buf.Length, dst.recvData) &&
                                  got[|old(got)|] == Resolve(dst.input.buf[..], dst.recvData)
      ensures got == old(got) ==> dst.input.Contents() == old(dst.input.Contents())
      ensures got == old(got) && src.Outgoing() == [] && dst.sock.inbound == [] ==> got == NonEmpty(sent)
    {
      hide Consistent, Fits, Wire.Parse, NonEmpty, Resolve, Pipe.Parsed, InRange;
      ghost var y := dst.sock.inbound + src.Outgoing();
      FlightIs(y);
      PollKeeps(dst.In(), y, sent, got);
      ok := dst.Parse();
      if dst.recvData != [] {
        got := got + [Resolve(dst.input.buf[..], dst.recvData)];
      }
      FlightIs(y);
    }

    lemma {:induction false} FlightIs(y: Octets)
      requires Apart() && y == dst.sock.inbound + src.Outgoing()
      ensures Flight() == dst.In().pend + y && dst.In().pend == dst.input.Contents()
    {
      assert dst.input.Contents() + dst.sock.inbound + src.Outgoing() == dst.input.Contents() + y;
    }

    method Step(a: Action)
      requires Valid()
      modifies this, src.Repr(), dst.Repr()
      ensures Valid() && old(got) <= got
      ensures sent == old(sent) + if a.SendPacket? && old(Takes(sent, Level(), Bound(), a.p)) then [a.p] else []
      ensures Level() <= old(Level()) + if a.SendPacket? then |Encode(a.p)| else 0
      ensures fresh(src.Repr() - old(src.Repr())) && fresh(dst.Repr() - old(dst.Repr()))
    {
      hide Consistent, Fits, Wire.Parse, NonEmpty, Takes, Encode, Resolve, InRange, Answers, Total;
      hide Pipe.Parsed, Pipe.Fed, Outflow.Sent, Buffer.Contents, Link.In, Link.Out, Flight;
      match a
      case SendPacket(p) => DoSend(p);
      case WriteSome => DoWrite();
      case Carry(n) => Transit(n);
      case ReadSome => DoRead();
      case Poll => var _ := DoParse();
    }

    // Main result: under every schedule, what has been returned is a prefix of the packets sent,
    // empty ones apart; and all of them once nothing is left on the way and parse waits. Every
    // packet of the schedule is sent, if together they meet the assumptions.
    method Run(schedule: seq<Action>)
      requires Valid()
      modifies this, src.Repr(), dst.Repr()
      ensures Valid() && got <= NonEmpty(sent) && old(got) <= got && old(sent) <= sent
      ensures old(Willing(sent, Level(), schedule)) ==> sent == old(sent) + Sends(schedule)
      ensures src.Outgoing() == [] && dst.sock.inbound == [] && Wire.Parse(dst.input.Contents()) == NotReady ==>
                got == NonEmpty(sent)
    {
      hide Consistent, Fits, Wire.Parse, NonEmpty, Willing, Sends, Takes, Encode, Limit, Link.In, Link.Out;
      for i := 0 to |schedule|
        invariant Valid() && old(got) <= got && old(sent) <= sent
        invariant old(Willing(sent, Level(), schedule)) ==>
                    && Willing(sent, Level(), schedule[i..])
                    && sent + Sends(schedule[i..]) == old(sent) + Sends(schedule)
        invariant fresh(src.Repr() - old(src.Repr())) && fresh(dst.Repr() - old(dst.Repr()))
      {
        assert schedule[i..][0] == schedule[i] && schedule[i..][1..] == schedule[i + 1..];
        ghost var before, level, limit := sent, Level(), Bound();
        LimitIs(src.output.buf.Length);
        Step(schedule[i]);
        WillingStep(before, level, limit, schedule[i..], sent, Level());
      }
      SendsNone();
      SoFar();
    }

    // What the invariant says about the packets returned.
    lemma {:induction false} SoFar()
      requires Valid()
      ensures got <= NonEmpty(sent)
      ensures src.Outgoing() == [] && dst.sock.inbound == [] && Wire.Parse(dst.input.Contents()) == NotReady ==>
                got == NonEmpty(sent)
    {
      hide Consistent, Fits, Wire.Parse, NonEmpty;
      GotIsPrefix(Flight(), sent, got);
      var x, y := dst.input.Contents(), dst.sock.inbound + src.Outgoing();
      assert Flight() == x + y;
      ParseKeeps(x, y, sent, got);
    }
  }
}
