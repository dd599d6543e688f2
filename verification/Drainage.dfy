// Everything that was sent gets through: rounds of write, carry, poll and read drain the stream,
// however the two kernels behave on the way.
module Drainage {
  import opened Octets
  import opened Wire
  import opened Buffers
  import opened Sockets
  import opened Responses
  import opened Links
  import opened Delivery

  // A write with bytes pending moves some or uses up a reply.
  lemma {:induction false} WriteMoves(w: Outflow, noblock: bool)
    ensures var t := Answers(w.script, |w.pend|, Writing, noblock);
            && Total(t) <= |w.pend|
            && (w.pend != [] ==> Total(t) > 0 || |After(w.script, |t|)| < |w.script|)
  {
    hide Answers, Total;
    AnswersFacts(w.script, |w.pend|, Writing, noblock);
    if w.pend != [] {
      WriteGoesOn(w.script, |w.pend|, noblock);
    }
  }

  // So does a read with room and bytes there.
  lemma {:induction false} ReadMoves(p: Pipe, noblock: bool)
    requires p.Valid() && p.Widened().Space() > 0 && p.inbound != []
    ensures Total(p.Heard(noblock)) > 0 || |p.Fed(noblock).script| < |p.script|
  {
    hide Pipe.Widened, Answers, Total;
    WidenedFacts(p);
    FedFacts(p, noblock);
    if p.script == [] {
      HonestRead(p.Widened().Space(), |p.inbound|, noblock);
    }
  }

  lemma {:induction false} HonestRead(want: nat, avail: nat, noblock: bool)
    requires want > 0 && avail > 0
    ensures Total(Answers([], want, Reading(avail), noblock)) > 0
  {
    hide Answers, Total, Answer;
    var d := Reading(avail);
    AnswerBounds([], want, d);
    AnswersFirst([], want, d, noblock);
    var r := Answer([], want, d);
    if noblock {
      TotalCons(r, Answers(Rest([]), want - r.n, Left(d, r.n), noblock));
    } else {
      TotalOne(r);
    }
  }

  lemma {:induction false} ConsumedSome(s: Octets)
    requires Parse(s).Ready?
    ensures 0 < Parse(s).consumed <= |s|
  {
    hide Parse, Text;
    var b, rs, e, rest := ParseSound(s);
  }

  // How far the bytes have still to go, and how often the kernels can refuse on the way.
  function Distance(w: Outflow, p: Pipe): nat {
    4 * |w.pend| + 3 * |w.outbound| + 2 * |p.inbound| + |p.pend| + |w.script| + |p.script|
  }

  ghost predicate Arrived(w: Outflow, p: Pipe) {
    w.pend == [] && w.outbound == [] && p.inbound == [] && Parse(p.pend) == NotReady
  }

  // The two ends on their way through a round: a write, k bytes carried over, a poll, a read.
  function Carried(w: Outflow, p: Pipe, k: nat): (Outflow, Pipe) {
    var m := Least(k, |w.outbound|);
    (w.(outbound := w.outbound[m..]), p.(inbound := p.inbound + w.outbound[..m]))
  }

  // A write and a carry bring the bytes nearer, unless there are none.
  lemma {:induction false} ForwardMoves(w0: Outflow, p0: Pipe, noblock: bool, k: nat)
    requires k > 0
    ensures var t := Answers(w0.script, |w0.pend|, Writing, noblock);
            var (w, p) := Carried(w0.Sent(Total(t), |t|), p0, k);
            if w0.pend == [] && w0.outbound == [] then w == w0 && p == p0 else Distance(w, p) < Distance(w0, p0)
  {
    hide Answers, Total, Outflow.Sent;
    var t := Answers(w0.script, |w0.pend|, Writing, noblock);
    WriteMoves(w0, noblock);
    SentSizes(w0, Total(t), |t|);
    SentKeeps(w0, Total(t), |t|);
    SentScript(w0, Total(t), |t|);
    if w0.pend == [] {
      NothingAsked(w0.script, Writing, noblock);
      NothingSent(w0);
      assert p0.inbound + [] == p0.inbound;
    }
  }

  // So do a poll and a read, unless nothing is left to read and no packet is there.
  lemma {:induction false} BackwardMoves(p: Pipe, noblock: bool)
    requires p.Valid() && p.Parsed().1
    ensures var q := p.Parsed().0;
            && q.Valid()
            && var r := q.Fed(noblock);
               if p.inbound == [] && Parse(p.pend) == NotReady then
                 r.pend == p.pend && r.inbound == [] && |r.script| <= |p.script|
               else 2 * |r.inbound| + |r.pend| + |r.script| < 2 * |p.inbound| + |p.pend| + |p.script|
  {
    hide Parse, Answers, Total, Pipe.Widened, Pipe.Parsed;
    ParsedFacts(p);
    var q := p.Parsed().0;
    if Parse(p.pend).Ready? {
      ConsumedSome(p.pend);
    }
    FedFacts(q, noblock);
    if Parse(p.pend) == NotReady && q.inbound != [] {
      ReadMoves(q, noblock);
    }
    NotLonger(q.pend, q.Fed(noblock).pend);
  }

  lemma {:induction false} RoundMoves(w0: Outflow, p0: Pipe, noblock: bool, k: nat, noblock': bool)
    requires p0.Valid() && k > 0
    requires var t := Answers(w0.script, |w0.pend|, Writing, noblock);
             var (w, p) := Carried(w0.Sent(Total(t), |t|), p0, k);
             p.Parsed().1
    ensures var t := Answers(w0.script, |w0.pend|, Writing, noblock);
            var (w, p) := Carried(w0.Sent(Total(t), |t|), p0, k);
            var q := p.Parsed().0;
            && q.Valid()
            && var r := q.Fed(noblock');
               && (Distance(w, r) < Distance(w0, p0) || Arrived(w, r))
               && (Arrived(w0, p0) ==> Arrived(w, r))
  {
    hide Parse, Answers, Total, Pipe.Parsed, Pipe.Fed, Outflow.Sent, Carried;
    var t := Answers(w0.script, |w0.pend|, Writing, noblock);
    ForwardMoves(w0, p0, noblock, k);
    var (w, p) := Carried(w0.Sent(Total(t), |t|), p0, k);
    CarriedValid(w0.Sent(Total(t), |t|), p0, k);
    BackwardMoves(p, noblock');
  }

  lemma {:induction false} CarriedValid(w: Outflow, p: Pipe, k: nat)
    requires p.Valid()
    ensures Carried(w, p, k).1.Valid()
  {
  }

  lemma {:induction false} SentScript(w: Outflow, n: nat, calls: nat)
    ensures w.Sent(n, calls).script == After(w.script, calls)
  {
  }

  // The first half of a round on the two links.
  method Forward(c: Channel, k: nat)
    requires c.Valid()
    modifies c.src.output, c.src.output.buf, c.src.sock, c.dst.sock
    ensures c.Valid() && (c.src.output.buf == old(c.src.output.buf) || fresh(c.src.output.buf))
    ensures var w0 := old(c.src.Out());
            var t := Answers(w0.script, |w0.pend|, Writing, c.src.noblock);
            (c.src.Out(), c.dst.In()) == Carried(w0.Sent(Total(t), |t|), old(c.dst.In()), k)
  {
    hide Answers, Total, Consistent, Fits, Outflow.Sent, Buffer.Contents;
    c.DoWrite();
    c.Transit(k);
  }

  // The second half.
  method Backward(c: Channel)
    requires c.Valid()
    modifies c`got, c.dst`recvData, c.dst.input, c.dst.input.buf, c.dst.sock
    ensures c.Valid() && c.src.Out() == old(c.src.Out())
    ensures c.dst.input.buf == old(c.dst.input.buf) || fresh(c.dst.input.buf)
    ensures var (q, ok) := old(c.dst.In()).Parsed();
            ok && q.Valid() && c.dst.In() == q.Fed(c.dst.noblock)
  {
    hide Parse, Consistent, Fits, NonEmpty, Pipe.Parsed, Pipe.Fed, Resolve, InRange, Pipe.Widened, Pipe.Full;
    hide Link.In, Link.Out, Buffer.Contents, Channel.Flight;
    ParsedFacts(c.dst.In());
    var ok := c.DoParse();
    c.DoRead();
  }

  method Round(c: Channel, k: nat)
    requires c.Valid() && k > 0
    modifies c, c.src.Repr(), c.dst.Repr()
    ensures c.Valid() && c.sent == old(c.sent)
    ensures fresh(c.src.Repr() - old(c.src.Repr())) && fresh(c.dst.Repr() - old(c.dst.Repr()))
    ensures var (w0, p0, w, p) := (old(c.src.Out()), old(c.dst.In()), c.src.Out(), c.dst.In());
            && (Distance(w, p) < Distance(w0, p0) || Arrived(w, p))
            && (Arrived(w0, p0) ==> Arrived(w, p))
  {
    hide Parse, Answers, Total, Consistent, Fits, NonEmpty, Distance, Arrived;
    hide Pipe.Parsed, Pipe.Fed, Outflow.Sent, Buffer.Contents, Carried;
    ghost var w0, p0 := c.src.Out(), c.dst.In();
    Forward(c, k);
    Backward(c);
    RoundMoves(w0, p0, c.src.noblock, k, c.dst.noblock);
  }

  // Main result: whatever the kernels answer while their scripts last, enough rounds bring every
  // packet sent.
  method Drain(c: Channel, rounds: nat, k: nat)
    requires c.Valid() && k > 0
    requires rounds >= Distance(c.src.Out(), c.dst.In())
    modifies c, c.src.Repr(), c.dst.Repr()
    ensures c.Valid() && c.sent == old(c.sent) && c.got == NonEmpty(c.sent)
  {
    hide Parse, Consistent, Fits, NonEmpty, Distance, Arrived, Buffer.Contents;
    for i := 0 to rounds
      invariant c.Valid() && c.sent == old(c.sent)
      invariant fresh(c.src.Repr() - old(c.src.Repr())) && fresh(c.dst.Repr() - old(c.dst.Repr()))
      invariant Arrived(c.src.Out(), c.dst.In()) || Distance(c.src.Out(), c.dst.In()) + i <= rounds
    {
      Round(c, k);
    }
    NoDistance(c.src.Out(), c.dst.In());
    c.SoFar();
  }

  lemma {:induction false} NoDistance(w: Outflow, p: Pipe)
    ensures Distance(w, p) == 0 ==> Arrived(w, p)
    ensures Arrived(w, p) ==> w.outbound + w.pend == [] && p.inbound == [] && Parse(p.pend) == NotReady
  {
    hide Parse;
    ParseEmpty();
  }
}
