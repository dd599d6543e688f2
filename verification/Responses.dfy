// Link::read, Link::parse and Link::response as functions of the input buffer and the kernel's
// answers, and what response gives up on.
module Responses {
  import opened Octets
  import opened Wire
  import opened Buffers
  import opened Sockets

  const INIT_BUFFER_SIZE := 1024

  // The receiving end of a connection: the size of the input buffer, the offset of its contents,
  // the contents, and the kernel's bytes and answers.
  datatype Pipe = Pipe(total: nat, off: nat, pend: Octets, inbound: Octets, script: seq<Reply>) {
    ghost predicate Valid() {
      off + |pend| <= total <= INT_MAX && INIT_BUFFER_SIZE <= total
    }

    function Space(): int {
      total - off - |pend|
    }

    // All bytes received or still to come.
    function Stream(): Octets {
      pend + inbound
    }

    // A bound on the reads that bring bytes: each uses up a reply or moves what is there.
    function Bound(): nat {
      |script| + |inbound|
    }

    // Buffer::nice
    function Nice(): Pipe {
      if off > total / 2 then this.(off := 0) else this
    }

    // Where read starts: a buffer of the first size is grown, then compacted.
    function Widened(): Pipe {
      (if total == INIT_BUFFER_SIZE then this.(total := NextTotal(total)) else this).Nice()
    }

    // What the calls of one read are answered.
    function Heard(noblock: bool): seq<Reply>
      requires Valid()
    {
      Answers(script, Widened().Space(), Reading(|inbound|), noblock)
    }

    function Received(n: nat, calls: nat): Pipe {
      var m := Least(n, |inbound|);
      this.(pend := pend + inbound[..m], inbound := inbound[m..], script := After(script, calls))
    }

    // What read leaves.
    function Fed(noblock: bool): Pipe
      requires Valid()
    {
      var t := Heard(noblock);
      Widened().Received(Total(t), |t|)
    }

    // A full buffer is compacted, and grown if that gives no room.
    function Roomy(): Pipe {
      if Space() != 0 then this
      else if Nice().Space() != 0 || NextTotal(total) > INT_MAX then Nice()
      else Nice().(total := NextTotal(total))
    }

    // What parse leaves, and whether it did not fail.
    function Parsed(): (Pipe, bool) {
      match Parse(pend)
      case Ready(_, n) => (if n <= |pend| then this.(off := off + n, pend := pend[n..]) else this, true)
      case Malformed => (this, false)
      case NotReady => if pend == [] then (this, true) else (Roomy(), Roomy().Space() != 0)
    }

    // No room, and none to be had.
    predicate Full() {
      Space() == 0 && off <= total / 2 && NextTotal(total) > INT_MAX
    }
  }

  // Link::response: what is left, and whether a packet was found.
  function Answered(p: Pipe, noblock: bool): (Pipe, bool)
    requires p.Valid()
    decreases p.Bound()
  {
    var (q, ok) := p.Parsed();
    if !ok || Parse(p.pend).Ready? then (q, ok)
    else
      ParsedFacts(p);
      FedFacts(q, noblock);
      if ReadResult(q.Heard(noblock)) <= 0 then (q.Fed(noblock), false)
      else Answered(q.Fed(noblock), noblock)
  }

  // ---------- One round ----------

  lemma {:induction false} ParsedFacts(p: Pipe)
    requires p.Valid()
    ensures var (q, ok) := p.Parsed();
            && q.Valid() && q.inbound == p.inbound && q.script == p.script
            && (Parse(p.pend).Ready? ==>
                  var n := Parse(p.pend).consumed; ok && n <= |p.pend| && q.pend == p.pend[n..])
            && (!Parse(p.pend).Ready? ==> q.pend == p.pend)
            && (Parse(p.pend) == NotReady && ok ==> q.Widened().Space() > 0)
            && (Parse(p.pend) == Malformed ==> !ok)
            && (!ok ==> Parse(p.pend) == Malformed || (Parse(p.pend) == NotReady && q.Full()))
  {
    hide Parse;
    if Parse(p.pend).Ready? {
      ParseNonempty(p.pend);
    }
  }

  lemma {:induction false} ParsedCases(p: Pipe)
    requires p.Valid()
    ensures match Parse(p.pend)
            case Ready(_, n) => n <= |p.pend| && p.Parsed() == (p.(off := p.off + n, pend := p.pend[n..]), true)
            case Malformed => p.Parsed() == (p, false)
            case NotReady => p.Parsed() == if p.pend == [] then (p, true) else (p.Roomy(), p.Roomy().Space() != 0)
  {
    hide Parse;
    if Parse(p.pend).Ready? {
      ParseNonempty(p.pend);
    }
  }

  lemma {:induction false} WidenedFacts(p: Pipe)
    requires p.Valid()
    ensures var w := p.Widened();
            && w.Valid() && w.pend == p.pend && w.inbound == p.inbound && w.script == p.script
            && w.total == (if p.total == 1024 then 8192 else p.total)
            && w.off == if p.off > w.total / 2 then 0 else p.off
  {
  }

  lemma {:induction false} ReceivedTwice(p: Pipe, m: nat, calls: nat, n: nat)
    requires m + n <= |p.inbound|
    ensures p.Received(m, calls).Received(n, 1) == p.Received(m + n, calls + 1)
  {
    var q := p.Received(m, calls);
    assert p.inbound[..m + n] == p.inbound[..m] + p.inbound[m..][..n];
    assert p.inbound[m..][n..] == p.inbound[m + n..];
    AfterStep(p.script, calls);
  }

  lemma {:induction false} ReceivedOnce(p: Pipe, n: nat)
    requires n <= |p.inbound|
    ensures p.Received(n, 1) == Pipe(p.total, p.off, p.pend + p.inbound[..n], p.inbound[n..], Rest(p.script))
  {
    AfterOne(p.script);
  }

  lemma {:induction false} ReceivedNone(p: Pipe)
    ensures p.Received(0, 0) == p
  {
  }

  // From w on, the calls of a read answered `done` led to q.
  ghost predicate Underway(w: Pipe, q: Pipe, done: seq<Reply>, noblock: bool) {
    && w.Valid() && q.Valid() && Total(done) <= |w.inbound| && q == w.Received(Total(done), |done|)
    && Answers(w.script, w.Space(), Reading(|w.inbound|), noblock) ==
       done + Answers(q.script, q.Space(), Reading(|q.inbound|), noblock)
    && (done == [] || Ending(done) == Interrupted || (Ending(done).Moved? && Ending(done).n > 0))
  }

  // They were all the calls.
  ghost predicate Through(w: Pipe, q: Pipe, done: seq<Reply>, noblock: bool) {
    && w.Valid() && q == w.Received(Total(done), |done|)
    && Answers(w.script, w.Space(), Reading(|w.inbound|), noblock) == done
  }

  lemma {:induction false} UnderwayStart(w: Pipe, noblock: bool)
    requires w.Valid()
    ensures Underway(w, w, [], noblock) && Total([]) == 0
  {
    hide Answers, Total, Pipe.Received;
    NoTotal();
    ReceivedNone(w);
    var t := Answers(w.script, w.Space(), Reading(|w.inbound|), noblock);
    assert [] + t == t;
  }

  lemma {:induction false} UnderwayStep(w: Pipe, q: Pipe, done: seq<Reply>, noblock: bool)
    requires Underway(w, q, done, noblock) && q.Valid() && q.Space() > 0
    ensures var r := Answer(q.script, q.Space(), Reading(|q.inbound|));
            var n := if r.Moved? then r.n else 0;
            var next, done' := q.Received(n, 1), done + [r];
            && Total(done') == Total(done) + n
            && ReadResult(done') == (if r == Failed then -1 else if r == Moved(0) then 0 else Total(done'))
            && if r == Interrupted || (r.Moved? && r.n > 0 && noblock) then
                 Underway(w, next, done', noblock) && next.Bound() < q.Bound()
               else Through(w, next, done', noblock)
  {
    hide Answers, Answer, Total, Ending, Pipe.Received, Rest;
    var d := Reading(|q.inbound|);
    var r := Answer(q.script, q.Space(), d);
    var n := if r.Moved? then r.n else 0;
    AnswerBounds(q.script, q.Space(), d);
    AnswersStep(done, q.script, q.Space(), d, noblock);
    TotalSnoc(done, r);
    EndingSnoc(done, r);
    ReceivedSizes(w, Total(done), |done|);
    ReceivedSizes(q, n, 1);
    ReceivedTwice(w, Total(done), |done|, n);
  }

  lemma {:induction false} ReceivedSizes(p: Pipe, n: nat, calls: nat)
    requires n <= |p.inbound|
    ensures var q := p.Received(n, calls);
            && q.total == p.total && q.off == p.off && |q.pend| == |p.pend| + n && |q.inbound| == |p.inbound| - n
            && |q.script| <= |p.script|
            && (calls == 1 ==> q.script == Rest(p.script)) && (calls == 1 && p.script != [] ==> |q.script| < |p.script|)
  {
  }

  lemma {:induction false} UnderwayEnd(w: Pipe, q: Pipe, done: seq<Reply>, noblock: bool)
    requires Through(w, q, done, noblock) || (Underway(w, q, done, noblock) && q.Space() == 0)
    ensures Through(w, q, done, noblock)
    ensures Underway(w, q, done, noblock) ==> ReadResult(done) == Total(done)
  {
    hide Answers, Total;
    if Underway(w, q, done, noblock) && q.Space() == 0 {
      NothingAsked(q.script, Reading(|q.inbound|), noblock);
    }
  }

  // read moves the bytes it was answered, and asks the kernel at least once if there is room.
  lemma {:induction false} FedFacts(p: Pipe, noblock: bool)
    requires p.Valid()
    ensures var t, q := p.Heard(noblock), p.Fed(noblock);
            && q.Valid() && q.Stream() == p.Stream() && p.pend <= q.pend && |q.pend| == |p.pend| + Total(t)
            && |q.inbound| == |p.inbound| - Total(t)
            && q.script == After(p.script, |t|)
            && (p.Widened().Space() > 0 ==> t != [])
            && (t != [] && p.script != [] ==> |q.script| < |p.script|)
            && (ReadResult(t) > 0 ==> q.Bound() < p.Bound() && |q.pend| > |p.pend|)
  {
    hide Pipe.Widened, Answers, Total;
    var t := p.Heard(noblock);
    WidenedFacts(p);
    var w := p.Widened();
    AnswersFacts(p.script, w.Space(), Reading(|p.inbound|), noblock);
    NoTotal();
    var m := Total(t);
    assert p.pend + p.inbound[..m] + p.inbound[m..] == p.pend + p.inbound;
  }

  // The calls of one read, the sizes written out.
  function Calls(p: Pipe, noblock: bool): seq<Reply>
    requires p.Valid()
  {
    var total := if p.total == 1024 then 8192 else p.total;
    var off := if p.off > total / 2 then 0 else p.off;
    Answers(p.script, total - off - |p.pend|, Reading(|p.inbound|), noblock)
  }

  // What one read does to p, and its result: the buffer leaves its first size, is compacted and
  // filled; -1 stands for an error, 0 for the end of the stream, and anything else is the number of
  // bytes.
  ghost predicate ReadsPlainly(p: Pipe, q: Pipe, ret: int, noblock: bool)
    requires p.Valid()
  {
    var t := Calls(p, noblock);
    && q.total == (if p.total == 1024 then 8192 else p.total)
    && q.off == (if p.off > q.total / 2 then 0 else p.off)
    && q.Stream() == p.Stream() && |q.pend| == |p.pend| + Total(t)
    && q.script == p.script[Least(|t|, |p.script|)..]
    && ret == (if t != [] && t[|t| - 1] == Failed then -1
               else if t != [] && t[|t| - 1] == Moved(0) then 0
               else Total(t))
  }

  // Main result on one read. Behind the script all is read that there is room for.
  lemma {:induction false} ReadPlain(p: Pipe, noblock: bool)
    requires p.Valid()
    ensures var q, ret := p.Fed(noblock), ReadResult(p.Heard(noblock));
            && ReadsPlainly(p, q, ret, noblock)
            && q.total == (if p.total == 1024 then 8192 else p.total)
            && q.off == (if p.off > q.total / 2 then 0 else p.off)
            && (p.script == [] ==>
                  ret == |q.pend| - |p.pend| == Least(q.total - q.off - |p.pend|, |p.inbound|))
  {
    hide Pipe.Widened, Answers, Total;
    WidenedFacts(p);
    FedFacts(p, noblock);
    if p.script == [] {
      ReadAll(p.Widened().Space(), |p.inbound|, noblock);
    }
  }

  lemma {:induction false} ThroughIsFed(p: Pipe, q: Pipe, noblock: bool)
    requires p.Valid()
    ensures var w := p.Widened();
            && w.Valid()
            && var t := Answers(w.script, w.Space(), Reading(|w.inbound|), noblock);
               t == p.Heard(noblock) && (Through(w, q, t, noblock) ==> q == p.Fed(noblock))
  {
    hide Pipe.Widened, Answers, Total;
    WidenedFacts(p);
  }

  lemma {:induction false} ReadAll(want: nat, avail: nat, noblock: bool)
    ensures var t := Answers([], want, Reading(avail), noblock);
            Total(t) == Least(want, avail) && Ending(t) != Failed && Ending(t) != Moved(0)
    decreases want
  {
    hide Answers, Total, Answer, Ending;
    var d := Reading(avail);
    AnswerBounds([], want, d);
    EndingNone();
    NoTotal();
    if want == 0 {
      NothingAsked([], d, noblock);
    } else {
      AnswersFirst([], want, d, noblock);
      HonestAnswer(want, avail);
      var r := Answer([], want, d);
      if r.Moved? && noblock {
        var t := Answers(Rest([]), want - r.n, Left(d, r.n), noblock);
        ReadAll(want - r.n, avail - r.n, noblock);
        TotalCons(r, t);
        EndingCons(r, t);
      } else {
        TotalOne(r);
        EndingCons(r, []);
        assert [r] + [] == [r];
      }
    }
  }

  lemma {:induction false} HonestAnswer(want: nat, avail: nat)
    requires want > 0
    ensures Answer([], want, Reading(avail)) == if avail == 0 then Again else Moved(Least(want, avail))
  {
  }

  // ---------- The replies that were used ----------

  // The kernel reported an error or the end of the stream.
  predicate Broken(used: seq<Reply>) {
    used != [] && (used[|used| - 1] == Failed || used[|used| - 1] == Moved(0))
  }

  // It would give nothing, at least for now.
  predicate Refused(used: seq<Reply>) {
    Broken(used) || (used != [] && used[|used| - 1] == Again)
  }

  // It refused, or had nothing to give.
  predicate GaveUp(used: seq<Reply>, q: Pipe) {
    Refused(used) || q.inbound == []
  }

  // No reply that ends a read without bytes.
  predicate Harmless(used: seq<Reply>, noblock: bool) {
    forall r <- used :: r != Failed && r != Moved(0) && (noblock || r != Again)
  }

  // What a read ends in stands in the script, unless there was nothing left to read.
  lemma {:induction false} EndsIn(script: seq<Reply>, want: nat, avail: nat, noblock: bool)
    requires want > 0
    ensures var t := Answers(script, want, Reading(avail), noblock);
            var used := script[..Least(|t|, |script|)];
            && (Ending(t) == Failed || Ending(t) == Moved(0) ==> Broken(used))
            && (Ending(t) == Again ==> Refused(used) || Total(t) == avail)
  {
    hide Answers, Total;
    var d := Reading(avail);
    var t := Answers(script, want, d, noblock);
    AnswersFacts(script, want, d, noblock);
    AnswersFollow(script, want, d, noblock, |t| - 1);
    if |t| <= |script| {
      assert script[..|t|][|t| - 1] == script[|t| - 1];
    }
  }

  lemma {:induction false} HarmlessUsed(script: seq<Reply>, want: nat, avail: nat, noblock: bool)
    requires want > 0 && ReadResult(Answers(script, want, Reading(avail), noblock)) > 0
    ensures Harmless(script[..Least(|Answers(script, want, Reading(avail), noblock)|, |script|)], noblock)
  {
    hide Answers, Total;
    var d := Reading(avail);
    var t := Answers(script, want, d, noblock);
    var used := script[..Least(|t|, |script|)];
    AnswersFacts(script, want, d, noblock);
    BlockingTotal(script, want, d);
    forall r | r in used ensures r != Failed && r != Moved(0) && (noblock || r != Again) {
      var i :| 0 <= i < |used| && used[i] == r;
      AnswersFollow(script, want, d, noblock, i);
    }
  }

  lemma {:induction false} ReadReplies(script: seq<Reply>, want: nat, avail: nat, noblock: bool)
    requires want > 0
    ensures var t := Answers(script, want, Reading(avail), noblock);
            var used := script[..Least(|t|, |script|)];
            && (ReadResult(t) > 0 ==> Harmless(used, noblock))
            && (ReadResult(t) <= 0 ==> Refused(used) || Total(t) == avail)
            && (ReadResult(t) <= 0 && Total(t) > 0 ==> noblock && Broken(used))
  {
    hide Answers, Total, Refused, Broken, Harmless, Ending;
    var t := Answers(script, want, Reading(avail), noblock);
    EndsIn(script, want, avail, noblock);
    NotInterrupted(script, want, avail, noblock);
    BrokenIsRefused(script[..Least(|t|, |script|)]);
    BlockingTotal(script, want, Reading(avail));
    EndingTotal(t);
    if ReadResult(t) > 0 {
      HarmlessUsed(script, want, avail, noblock);
    }
  }

  lemma {:induction false} NotInterrupted(script: seq<Reply>, want: nat, avail: nat, noblock: bool)
    requires want > 0
    ensures Ending(Answers(script, want, Reading(avail), noblock)) != Interrupted
  {
    hide Answers, Total, Ending;
    AnswersFacts(script, want, Reading(avail), noblock);
  }

  // What the replies used by one read say about its result.
  lemma {:induction false} HeardFacts(p: Pipe, noblock: bool)
    requires p.Valid() && p.Widened().Space() > 0
    ensures var t, q := p.Heard(noblock), p.Fed(noblock);
            && IsRest(p.script, q.script)
            && var used := Used(p.script, q.script);
               && (ReadResult(t) > 0 ==> Harmless(used, noblock))
               && (ReadResult(t) <= 0 ==> GaveUp(used, q))
               && (ReadResult(t) <= 0 && Total(t) > 0 ==> noblock && Broken(used))
  {
    hide Pipe.Widened, Pipe.Fed, Answers, Total, Refused, Broken, Harmless, ReadResult, After, Used, IsRest;
    WidenedFacts(p);
    FedFacts(p, noblock);
    AfterIsRest(p.script, |p.Heard(noblock)|);
    ReadReplies(p.script, p.Widened().Space(), |p.inbound|, noblock);
  }

  lemma {:induction false} BrokenIsRefused(used: seq<Reply>)
    ensures Broken(used) ==> Refused(used)
  {
  }

  lemma {:induction false} EndingTotal(t: seq<Reply>)
    ensures Ending(t).Moved? ==> Total(t) >= Ending(t).n
  {
  }

  // Without O_NONBLOCK only the last call of a read moves bytes.
  lemma {:induction false} BlockingTotal(script: seq<Reply>, want: nat, d: Direction)
    ensures var t := Answers(script, want, d, false);
            Total(t) == if Ending(t).Moved? then Ending(t).n else 0
    decreases |script| + want
  {
    hide Answer, Total, Ending;
    AnswerBounds(script, want, d);
    NoTotal();
    if want > 0 {
      var r := Answer(script, want, d);
      if r == Interrupted {
        BlockingTotal(script[1..], want, d);
        TotalCons(r, Answers(script[1..], want, d, false));
        EndingCons(r, Answers(script[1..], want, d, false));
        SomeAnswer(script[1..], want, d);
      } else {
        TotalOne(r);
        EndingCons(r, []);
        assert [r] + [] == [r];
      }
    } else {
      EndingNone();
    }
  }

  lemma {:induction false} SomeAnswer(script: seq<Reply>, want: nat, d: Direction)
    requires want > 0
    ensures Answers(script, want, d, false) != []
  {
    hide Answer;
  }

  lemma {:induction false} EndingNone()
    ensures Ending([]) == Again
  {
  }

  // A round that is not ready asks the kernel for at least one byte and uses up a reply.
  lemma {:induction false} NotReadyAsks(p: Pipe, noblock: bool)
    requires p.Valid() && Parse(p.pend) == NotReady && p.Parsed().1
    ensures var q := p.Parsed().0;
            && q.Valid() && q.Widened().Space() > 0 && q.Heard(noblock) != []
            && (p.script != [] ==> |q.Fed(noblock).script| < |p.script|)
  {
    hide Parse, Pipe.Parsed, Pipe.Widened, Answers, Total, ReadResult;
    ParsedFacts(p);
    FedFacts(p.Parsed().0, noblock);
  }

  // ---------- What response returns ----------

  // Main result, first half: a packet returned is the first one of the stream, and just its bytes
  // are gone; otherwise no byte is. No error, no end of the stream and, when blocking, no
  // would-block was met on the way to a packet.
  lemma {:induction false} AnswerIsPacket(p: Pipe, noblock: bool)
    requires p.Valid()
    ensures var (q, ok) := Answered(p, noblock);
            && IsRest(p.script, q.script)
            && (!ok ==> q.Stream() == p.Stream())
            && (ok ==>
                  var v := Parse(p.Stream());
                  && v.Ready? && v.consumed <= |p.Stream()| && q.Stream() == p.Stream()[v.consumed..]
                  && Harmless(Used(p.script, q.script), noblock))
    decreases p.Bound()
  {
    hide Parse, Pipe.Parsed, Pipe.Fed, Pipe.Heard, ReadResult, Harmless;
    var (q, ok) := p.Parsed();
    ParsedFacts(p);
    NothingUsed(p.script);
    NothingHarms(noblock);
    if Parse(p.pend).Ready? {
      ParseStable(p.pend, p.inbound);
    } else if ok {
      FedFacts(q, noblock);
      HeardFacts(q, noblock);
      var r := q.Fed(noblock);
      if ReadResult(q.Heard(noblock)) > 0 {
        AnswerIsPacket(r, noblock);
        var s := Answered(r, noblock).0.script;
        UsedTwice(p.script, r.script, s);
        HarmlessBoth(Used(p.script, r.script), Used(r.script, s), noblock);
      }
    }
  }

  lemma {:induction false} NothingHarms(noblock: bool)
    ensures Harmless([], noblock)
  {
  }

  lemma {:induction false} HarmlessBoth(a: seq<Reply>, b: seq<Reply>, noblock: bool)
    ensures Harmless(a, noblock) && Harmless(b, noblock) ==> Harmless(a + b, noblock)
  {
  }

  // A front part of a stream that starts with a packet is waited for and short, or has the packet.
  lemma {:induction false} FrontVerdict(x: Octets, y: Octets)
    requires Parse(x + y).Ready?
    ensures if Parse(x).Ready? then Parse(x) == Parse(x + y)
            else Parse(x) == NotReady && |x| < Parse(x + y).consumed <= MAX_PACKET_SIZE + 2
  {
    hide Parse, Text;
    if Parse(x).Ready? {
      ParseStable(x, y);
    } else {
      var b, rs, e, rest := ParseSound(x + y);
      var w := b + Text(rs) + e;
      if |w| <= |x| {
        var more := x[|w|..];
        assert x == w + more by { assert x == (x + y)[..|x|]; assert w == (x + y)[..|w|]; }
        ParseComplete(b, rs, e, more);
        assert false;
      }
      assert x == w[..|x|] by { assert x == (x + y)[..|x|]; }
      ParsePrefix(b, rs, e, x);
    }
  }

  // Main result, second half: response gives up only on malformed input, on a full buffer that
  // cannot grow, or because the kernel gave up; and with a packet in the stream only for the last
  // reason. A packet that is complete in the buffer is refused only in non-blocking mode, by an
  // error or the end of the stream behind its last bytes.
  lemma {:induction false} WhyRefused(p: Pipe, noblock: bool)
    requires p.Valid() && !Answered(p, noblock).1
    ensures var q := Answered(p, noblock).0;
            && IsRest(p.script, q.script)
            && var used := Used(p.script, q.script);
               && (Parse(q.pend) == Malformed || q.Full() || GaveUp(used, q))
               && (Parse(p.Stream()).Ready? ==> Refused(used))
               && (Parse(q.pend).Ready? ==> noblock && Broken(used))
    decreases p.Bound()
  {
    hide Parse, Answered, Pipe.Parsed, Pipe.Fed, Pipe.Heard, ReadResult;
    hide Refused, Broken, GaveUp, Used, IsRest;
    var (q, ok) := p.Parsed();
    ParsedFacts(p);
    AnsweredStep(p, noblock);
    NothingUsed(p.script);
    if Parse(p.Stream()).Ready? {
      FrontVerdict(p.pend, p.inbound);
    }
    if ok {
      FedFacts(q, noblock);
      HeardFacts(q, noblock);
      var r := q.Fed(noblock);
      if ReadResult(q.Heard(noblock)) > 0 {
        WhyRefused(r, noblock);
        var last := Answered(r, noblock).0;
        UsedTwice(p.script, r.script, last.script);
        StillGaveUp(Used(p.script, r.script), Used(r.script, last.script), last);
      } else {
        NotLonger(q.pend, r.pend);
        RefusedHere(r, p.Stream(), Used(p.script, r.script));
      }
    }
  }

  lemma {:induction false} StillGaveUp(a: seq<Reply>, b: seq<Reply>, q: Pipe)
    ensures GaveUp(b, q) ==> GaveUp(a + b, q)
    ensures Refused(b) ==> Refused(a + b)
    ensures Broken(b) ==> Broken(a + b)
  {
  }

  // Nothing left to read: what the stream starts with is in the buffer.
  lemma {:induction false} RefusedHere(r: Pipe, stream: Octets, used: seq<Reply>)
    requires r.Stream() == stream && GaveUp(used, r)
    ensures Parse(stream).Ready? ==> Refused(used) || Parse(r.pend).Ready?
    ensures Broken(used) ==> Refused(used)
  {
    hide Parse;
    assert r.inbound == [] ==> r.pend + r.inbound == r.pend;
  }

  // Both halves on a failure.
  lemma {:induction false} Refusals(p: Pipe, noblock: bool)
    requires p.Valid()
    ensures var (q, ok) := Answered(p, noblock);
            && IsRest(p.script, q.script)
            && (!ok ==>
                  && q.Stream() == p.Stream()
                  && (Parse(q.pend) == Malformed || q.Full() || GaveUp(Used(p.script, q.script), q)))
  {
    hide Parse, Answered, GaveUp, Used, Pipe.Full;
    AnswerIsPacket(p, noblock);
    if !Answered(p, noblock).1 {
      WhyRefused(p, noblock);
    }
  }

  // The replies that bring bytes before the first one that ends a blocking read without any.
  function Offers(script: seq<Reply>): nat {
    if script == [] then 0
    else match script[0]
      case Interrupted => Offers(script[1..])
      case Moved(n) => if n == 0 then 0 else 1 + Offers(script[1..])
      case Again => 0
      case Failed => 0
  }

  // No reply ends a blocking read without bytes.
  predicate Kind(script: seq<Reply>) {
    forall r <- script :: r == Interrupted || (r.Moved? && r.n > 0)
  }

  lemma {:induction false} OfferTaken(script: seq<Reply>, want: nat, avail: nat)
    requires want > 0 && avail > 0 && (Offers(script) > 0 || Kind(script))
    ensures var t := Answers(script, want, Reading(avail), false);
            && ReadResult(t) > 0 && Offers(After(script, |t|)) + 1 >= Offers(script)
            && (Kind(script) ==> Kind(After(script, |t|)))
    decreases |script|
  {
    hide Answers, Answer, Total, Ending, After, Rest, Kind;
    var d := Reading(avail);
    var r := Answer(script, want, d);
    AnswerBounds(script, want, d);
    AnswersFirst(script, want, d, false);
    OffersFirst(script);
    if r == Interrupted {
      OfferTaken(Rest(script), want, avail);
      var t := Answers(Rest(script), want, d, false);
      SomeAnswer(Rest(script), want, d);
      EndingCons(r, t);
      TotalCons(r, t);
      AfterCons(script, |t|);
    } else {
      TotalOne(r);
      EndingCons(r, []);
      assert [r] + [] == [r];
      AfterOne(script);
    }
  }

  lemma {:induction false} OffersFirst(script: seq<Reply>)
    ensures Offers(script) <= Offers(Rest(script)) + 1
    ensures Offers(script) > 0 || Kind(script) ==>
              script == [] || script[0] == Interrupted || (script[0].Moved? && script[0].n > 0)
    ensures script != [] && script[0] == Interrupted ==> Offers(script) == Offers(Rest(script))
    ensures script != [] ==> |Rest(script)| < |script|
    ensures Kind(script) ==> Kind(Rest(script))
  {
    if script != [] {
      assert script[0] in script;
      assert forall x <- script[1..] :: x in script;
    }
  }

  lemma {:induction false} AfterCons(script: seq<Reply>, n: nat)
    ensures After(script, n + 1) == After(Rest(script), n)
  {
  }

  // When blocking, a packet at the front of the stream is returned if the kernel brings bytes as
  // often as there are bytes missing, however few at a time, or never gives up.
  lemma {:induction false} PacketArrives(p: Pipe)
    requires p.Valid() && Parse(p.Stream()).Ready?
    requires |p.pend| + Offers(p.script) >= Parse(p.Stream()).consumed || Kind(p.script)
    ensures Answered(p, false).1
    decreases p.Bound()
  {
    hide Parse, Pipe.Parsed, Pipe.Widened, Answers, Offers, ReadResult;
    var (q, ok) := p.Parsed();
    ParsedFacts(p);
    FrontVerdict(p.pend, p.inbound);
    ParseNonempty(p.Stream());
    if !Parse(p.pend).Ready? {
      WidenedFacts(q);
      FedFacts(q, false);
      OfferTaken(q.script, q.Widened().Space(), |q.inbound|);
      PacketArrives(q.Fed(false));
    }
  }

  lemma {:induction false} NotLonger(x: Octets, y: Octets)
    requires x <= y
    ensures |x| == |y| ==> x == y
  {
  }

  // A read that completes the packet: response still gives up exactly if, without blocking, the
  // kernel's last answer to it was an error or the end of the stream.
  lemma {:induction false} CompletedThenCut(p: Pipe, q: Pipe, noblock: bool)
    requires p.Valid() && Parse(p.pend) == NotReady && p.Parsed() == (q, true)
    requires q.Valid() && Parse(q.Fed(noblock).pend).Ready?
    ensures !Answered(p, noblock).1 <==> EndsBadly(q, noblock)
    ensures !Answered(p, noblock).1 ==> Answered(p, noblock).0 == q.Fed(noblock)
  {
    hide Parse, Pipe.Parsed, Pipe.Widened, Answers, Total, Ending;
    ParsedFacts(p);
    var t, r := q.Heard(noblock), q.Fed(noblock);
    FedFacts(q, noblock);
    NotLonger(q.pend, r.pend);
    BlockingTotal(q.script, q.Widened().Space(), Reading(|q.inbound|));
    AnsweredStep(p, noblock);
    ParsedFacts(r);
    if ReadResult(t) > 0 {
      AnsweredStep(r, noblock);
    }
  }

  // Without blocking, the kernel's last answer to a read was an error or the end of the stream.
  predicate EndsBadly(q: Pipe, noblock: bool)
    requires q.Valid()
  {
    noblock && (Ending(q.Heard(noblock)) == Failed || Ending(q.Heard(noblock)) == Moved(0))
  }

  // The reads go on bringing bytes until one completes the packet, and that one ends badly.
  ghost predicate Cut(p: Pipe, noblock: bool)
    requires p.Valid()
    decreases p.Bound()
  {
    ParsedFacts(p);
    var (q, ok) := p.Parsed();
    Parse(p.pend) == NotReady && ok &&
    (FedFacts(q, noblock);
     var r := q.Fed(noblock);
     if Parse(r.pend).Ready? then EndsBadly(q, noblock)
     else ReadResult(q.Heard(noblock)) > 0 && Cut(r, noblock))
  }

  // Main result on the packets left behind: response gives up with a complete packet in its buffer
  // exactly if the read that completed it, of however many, ended badly.
  lemma {:induction false} RefusedExactly(p: Pipe, noblock: bool)
    requires p.Valid()
    ensures var (q, ok) := Answered(p, noblock); !ok && Parse(q.pend).Ready? <==> Cut(p, noblock)
    decreases p.Bound()
  {
    hide Parse, Pipe.Parsed, Pipe.Fed, Pipe.Heard, ReadResult, EndsBadly;
    var (q, ok) := p.Parsed();
    ParsedFacts(p);
    AnsweredStep(p, noblock);
    if ok && Parse(p.pend) == NotReady {
      FedFacts(q, noblock);
      var r := q.Fed(noblock);
      if Parse(r.pend).Ready? {
        CompletedThenCut(p, q, noblock);
      } else if ReadResult(q.Heard(noblock)) > 0 {
        RefusedExactly(r, noblock);
      }
    }
  }

  // "1", "a" and a closing line arrive at once, then the stream ends: the packet stays unread.
  lemma {:induction false} RefusedExample()
    ensures var p := Pipe(INIT_BUFFER_SIZE, 0, [], [49, LF, 97, LF, LF], [Moved(5), Moved(0)]);
            var (q, ok) := Answered(p, true);
            !ok && q.pend == p.inbound && Parse(q.pend) == Ready([[97]], 5)
  {
    hide Parse;
    var inb := [49, LF, 97, LF, LF];
    var p := Pipe(INIT_BUFFER_SIZE, 0, [], inb, [Moved(5), Moved(0)]);
    ParseEmpty();
    assert p.Widened() == p.(total := 8192);
    var t := Answers(p.script, 8192, Reading(5), true);
    assert Answers([Moved(0)], 8187, Reading(0), true) == [Moved(0)];
    assert t == [Moved(5)] + [Moved(0)];
    TotalOne(Moved(0));
    TotalCons(Moved(5), [Moved(0)]);
    assert [] + inb[..5] == inb;
    ParseExample();
  }

  lemma {:induction false} ParseExample()
    ensures Parse([49, LF, 97, LF, LF]) == Ready([[97]], 5)
  {
    hide Parse, Announces;
    var p, a: Octets := [[97]], [97];
    assert Digits(1) == [49];
    assert Record(a) == [49] + [LF] + a + [LF];
    assert p[1..] == [] && EncodeRecords(p) == Record(a) + EncodeRecords([]);
    assert Encode(p) == [49, LF, 97, LF, LF];
    RoundTrip([], p, []);
    assert [] + Encode(p) + [] == Encode(p);
  }

  lemma {:induction false} AnsweredStep(p: Pipe, noblock: bool)
    requires p.Valid()
    ensures var (q, ok) := p.Parsed();
            && q.Valid()
            && Answered(p, noblock) ==
               if !ok || Parse(p.pend).Ready? then (q, ok)
               else if ReadResult(q.Heard(noblock)) <= 0 then (q.Fed(noblock), false)
               else (FedFacts(q, noblock); Answered(q.Fed(noblock), noblock))
  {
    ParsedFacts(p);
  }
}
