// The kernel's end of a connection, and what the loops of Link::read and Link::write are answered.
module Sockets {
  import opened Octets
  import opened Buffers

  // What one read(2) or write(2) answers: EINTR, EWOULDBLOCK, another error, or n bytes moved.
  // No byte read means the end of the stream.
  datatype Reply = Interrupted | Again | Failed | Moved(n: nat)

  // Who is asked: read(2), with so many bytes there, or write(2).
  datatype Direction = Reading(avail: nat) | Writing

  function Least(a: nat, b: nat): nat {
    if a <= b then a else b
  }

  function Rest(script: seq<Reply>): seq<Reply> {
    if script == [] then [] else script[1..]
  }

  // The answer to one call that asks for `want` bytes: what the script says, behind the script as
  // much as can be moved. A read that is to move bytes blocks where there are none.
  function Answer(script: seq<Reply>, want: nat, d: Direction): Reply {
    if script != [] && (!script[0].Moved? || script[0].n == 0) then script[0]
    else if d.Reading? && d.avail == 0 then Again
    else
      var n := if d.Reading? then Least(want, d.avail) else want;
      Moved(if script == [] then n else Least(script[0].n, n))
  }

  class Socket {
    var inbound: Octets
    var outbound: Octets
    // how the kernel behaves, call by call
    var script: seq<Reply>

    method SysRead(a: array<Byte>, at: nat, want: nat) returns (r: Reply)
      requires 0 < want && at + want <= a.Length
      modifies this`inbound, this`script, a
      ensures r == Answer(old(script), want, Reading(|old(inbound)|)) && script == Rest(old(script))
      ensures var n := if r.Moved? then r.n else 0;
              && n <= want && n <= |old(inbound)| && inbound == old(inbound)[n..]
              && a[..] == Splice(old(a[..]), at, old(inbound)[..n])
    {
      r := Answer(script, want, Reading(|inbound|));
      script := Rest(script);
      var n := if r.Moved? then r.n else 0;
      Memcpy(a, at, inbound[..n]);
      inbound := inbound[n..];
    }

    method SysWrite(s: Octets) returns (r: Reply)
      requires s != []
      modifies this`outbound, this`script
      ensures r == Answer(old(script), |s|, Writing) && script == Rest(old(script))
      ensures var n := if r.Moved? then r.n else 0; n <= |s| && outbound == old(outbound) + s[..n]
    {
      r := Answer(script, |s|, Writing);
      script := Rest(script);
      outbound := outbound + s[..if r.Moved? then r.n else 0];
    }
  }

  // ---------- One loop of calls ----------

  function Left(d: Direction, n: nat): Direction {
    if d.Reading? then Reading(if n <= d.avail then d.avail - n else 0) else Writing
  }

  // What a loop over read(2) or write(2) is answered until it stops: when nothing is asked for any
  // more, at the first answer that moves no byte, EINTR apart, and after the first one that does
  // unless the socket is non-blocking.
  function Answers(script: seq<Reply>, want: nat, d: Direction, noblock: bool): seq<Reply>
    decreases |script| + want
  {
    if want == 0 then []
    else
      var r := Answer(script, want, d);
      if r == Interrupted then [r] + Answers(script[1..], want, d, noblock)
      else if r.Moved? && r.n > 0 && noblock then [r] + Answers(Rest(script), want - r.n, Left(d, r.n), noblock)
      else [r]
  }

  // The bytes moved.
  function Total(t: seq<Reply>): nat {
    if t == [] then 0
    else
      var last := t[|t| - 1];
      Total(t[..|t| - 1]) + if last.Moved? then last.n else 0
  }

  // What is left of a script after n calls.
  function After(script: seq<Reply>, n: nat): seq<Reply> {
    script[Least(n, |script|)..]
  }

  function Ending(t: seq<Reply>): Reply {
    if t == [] then Again else t[|t| - 1]
  }

  // The results of Link::read and Link::write.
  function ReadResult(t: seq<Reply>): int {
    if Ending(t) == Failed then -1 else if Ending(t) == Moved(0) then 0 else Total(t)
  }

  function WriteResult(t: seq<Reply>): int {
    if Ending(t) == Failed then -1 else Total(t)
  }

  lemma {:induction false} TotalSnoc(t: seq<Reply>, r: Reply)
    ensures Total(t + [r]) == Total(t) + if r.Moved? then r.n else 0
  {
    assert (t + [r])[..|t|] == t;
  }

  lemma {:induction false} TotalCons(r: Reply, t: seq<Reply>)
    ensures Total([r] + t) == (if r.Moved? then r.n else 0) + Total(t)
  {
    if t == [] {
      assert [r] + t == [] + [r];
      TotalSnoc([], r);
    } else {
      var n := |t| - 1;
      TotalCons(r, t[..n]);
      assert ([r] + t)[..n + 1] == [r] + t[..n];
    }
  }

  lemma {:induction false} AfterOne(script: seq<Reply>)
    ensures After(script, 1) == Rest(script)
  {
  }

  lemma {:induction false} AfterStep(script: seq<Reply>, n: nat)
    ensures Rest(After(script, n)) == After(script, n + 1)
  {
  }

  lemma {:induction false} TotalOne(r: Reply)
    ensures Total([r]) == if r.Moved? then r.n else 0
  {
    assert [r][..0] == [];
  }

  lemma {:induction false} EndingCons(r: Reply, t: seq<Reply>)
    ensures Ending([r] + t) == if t == [] then r else Ending(t)
  {
  }

  lemma {:induction false} EndingSnoc(t: seq<Reply>, r: Reply)
    ensures Ending(t + [r]) == r && t + [r] != []
  {
  }

  lemma {:induction false} NoTotal()
    ensures Total([]) == 0
  {
  }

  lemma {:induction false} AnswerBounds(script: seq<Reply>, want: nat, d: Direction)
    ensures var r := Answer(script, want, d);
            && (r.Moved? ==> r.n <= want && (d.Reading? ==> r.n <= d.avail))
            && (script == [] || (script[0].Moved? && script[0].n > 0) ==>
                  if d.Reading? && d.avail == 0 then r == Again else r.Moved? && (want > 0 ==> r.n > 0))
            && (script != [] && r.Moved? ==> script[0].Moved? && r.n <= script[0].n)
            && (script == [] && d.Writing? ==> r == Moved(want))
            && (script != [] && !(script[0].Moved? && script[0].n > 0) ==> r == script[0])
  {
  }

  // The kernel moves what it was asked for, less what it does not have; a call is only followed by
  // another one if it was interrupted or, without blocking, moved something.
  lemma {:induction false} AnswersFacts(script: seq<Reply>, want: nat, d: Direction, noblock: bool)
    ensures var t := Answers(script, want, d, noblock);
            && Total(t) <= want && (d.Reading? ==> Total(t) <= d.avail)
            && (want > 0 ==> t != [])
            && (t != [] ==> Ending(t) != Interrupted)
            && (forall i | 0 <= i < |t| - 1 :: t[i] == Interrupted || (noblock && t[i].Moved? && t[i].n > 0))
            && (noblock && (t == [] || (Ending(t).Moved? && Ending(t).n > 0)) ==> Total(t) == want)
    decreases |script| + want
  {
    hide Answers, Total, Answer, Ending;
    AnswerBounds(script, want, d);
    if want == 0 {
      NothingAsked(script, d, noblock);
      NoTotal();
    } else {
      AnswersFirst(script, want, d, noblock);
      var r := Answer(script, want, d);
      if r == Interrupted || (r.Moved? && r.n > 0 && noblock) {
        var n := if r.Moved? then r.n else 0;
        var rest := Answers(Rest(script), want - n, Left(d, n), noblock);
        AnswersFacts(Rest(script), want - n, Left(d, n), noblock);
        NothingAsked(Rest(script), Left(d, n), noblock);
        TotalCons(r, rest);
        EndingCons(r, rest);
      } else {
        TotalOne(r);
        EndingCons(r, []);
        assert [r] + [] == [r];
      }
    }
  }

  // Each call is answered as the script says, with no more bytes than it says, and behind it with
  // some; a read blocks instead where no bytes are left.
  lemma {:induction false} AnswersFollow(script: seq<Reply>, want: nat, d: Direction, noblock: bool, i: nat)
    ensures var t := Answers(script, want, d, noblock);
            (i < |t| ==>
               if i < |script| && !(script[i].Moved? && script[i].n > 0) then t[i] == script[i]
               else
                 || (t[i].Moved? && t[i].n > 0 && (i < |script| ==> t[i].n <= script[i].n))
                 || (t[i] == Again && d.Reading? && Total(t) == d.avail))
    decreases |script| + want
  {
    hide Answers, Total, Answer;
    AnswerBounds(script, want, d);
    if want == 0 {
      NothingAsked(script, d, noblock);
    } else {
      AnswersFirst(script, want, d, noblock);
      var r := Answer(script, want, d);
      if r == Interrupted || (r.Moved? && r.n > 0 && noblock) {
        var n := if r.Moved? then r.n else 0;
        if i > 0 {
          AnswersFollow(Rest(script), want - n, Left(d, n), noblock, i - 1);
        }
        TotalCons(r, Answers(Rest(script), want - n, Left(d, n), noblock));
      } else {
        TotalOne(r);
      }
    }
  }

  // ---------- The replies that were used ----------

  // What the script `before` lost when `after` was left of it.
  function Used(before: seq<Reply>, after: seq<Reply>): seq<Reply>
    requires IsRest(before, after)
  {
    before[..|before| - |after|]
  }

  predicate IsRest(before: seq<Reply>, after: seq<Reply>) {
    |after| <= |before| && after == before[|before| - |after|..]
  }

  lemma {:induction false} NothingUsed(script: seq<Reply>)
    ensures IsRest(script, script) && Used(script, script) == []
  {
  }

  lemma {:induction false} UsedTwice(a: seq<Reply>, b: seq<Reply>, c: seq<Reply>)
    requires IsRest(a, b) && IsRest(b, c)
    ensures IsRest(a, c) && Used(a, c) == Used(a, b) + Used(b, c)
  {
  }

  lemma {:induction false} AfterIsRest(script: seq<Reply>, n: nat)
    ensures IsRest(script, After(script, n)) && Used(script, After(script, n)) == script[..Least(n, |script|)]
  {
  }

  // One more call of a loop that was answered `done` so far.
  lemma {:induction false} AnswersStep(done: seq<Reply>, script: seq<Reply>, want: nat, d: Direction, noblock: bool)
    requires want > 0
    ensures var r, t := Answer(script, want, d), done + Answers(script, want, d, noblock);
            && (r.Moved? ==> r.n <= want)
            && t == if r == Interrupted || (r.Moved? && r.n > 0 && noblock) then
                      var n := if r.Moved? then r.n else 0;
                      done + [r] + Answers(Rest(script), want - n, Left(d, n), noblock)
                    else done + [r]
  {
    hide Answer, Answers;
    AnswerBounds(script, want, d);
    AnswersFirst(script, want, d, noblock);
    var r := Answer(script, want, d);
    var n := if r.Moved? then r.n else 0;
    assert done + ([r] + Answers(Rest(script), want - n, Left(d, n), noblock)) ==
           done + [r] + Answers(Rest(script), want - n, Left(d, n), noblock);
  }

  lemma {:induction false} AnswersFirst(script: seq<Reply>, want: nat, d: Direction, noblock: bool)
    requires want > 0
    ensures var r := Answer(script, want, d);
            && (r.Moved? ==> r.n <= want)
            && Answers(script, want, d, noblock) ==
               if r == Interrupted || (r.Moved? && r.n > 0 && noblock) then
                 var n := if r.Moved? then r.n else 0;
                 [r] + Answers(Rest(script), want - n, Left(d, n), noblock)
               else [r]
  {
    AnswerBounds(script, want, d);
    hide Answer;
  }

  lemma {:induction false} NothingAsked(script: seq<Reply>, d: Direction, noblock: bool)
    ensures Answers(script, 0, d, noblock) == []
  {
  }

  // ---------- Writing, call by call ----------

  // The sending end of a connection: the bytes to send, those the kernel has, and its answers.
  datatype Outflow = Outflow(pend: Octets, outbound: Octets, script: seq<Reply>) {
    function Sent(n: nat, calls: nat): Outflow {
      var m := Least(n, |pend|);
      Outflow(pend[m..], outbound + pend[..m], After(script, calls))
    }
  }

  // From w on, the calls answered `done` led to q.
  ghost predicate Draining(w: Outflow, q: Outflow, done: seq<Reply>, noblock: bool) {
    && Total(done) <= |w.pend| && q == w.Sent(Total(done), |done|)
    && Answers(w.script, |w.pend|, Writing, noblock) == done + Answers(q.script, |q.pend|, Writing, noblock)
    && (done == [] || Ending(done) == Interrupted || (Ending(done).Moved? && Ending(done).n > 0))
  }

  // They were all the calls.
  ghost predicate Drained(w: Outflow, q: Outflow, done: seq<Reply>, noblock: bool) {
    && Total(done) <= |w.pend| && q == w.Sent(Total(done), |done|)
    && Answers(w.script, |w.pend|, Writing, noblock) == done
    && q.outbound + q.pend == w.outbound + w.pend
  }

  lemma {:induction false} SentTwice(w: Outflow, m: nat, calls: nat, n: nat)
    requires m + n <= |w.pend|
    ensures w.Sent(m, calls).Sent(n, 1) == w.Sent(m + n, calls + 1)
  {
    assert w.pend[..m] + w.pend[m..][..n] == w.pend[..m + n];
    assert w.pend[m..][n..] == w.pend[m + n..];
    AfterStep(w.script, calls);
  }

  lemma {:induction false} DrainingStart(w: Outflow, noblock: bool)
    ensures Draining(w, w, [], noblock) && Total([]) == 0
  {
    hide Answers;
    assert w.Sent(0, 0) == w;
    assert [] + Answers(w.script, |w.pend|, Writing, noblock) == Answers(w.script, |w.pend|, Writing, noblock);
  }

  lemma {:induction false} DrainingStep(w: Outflow, q: Outflow, done: seq<Reply>, noblock: bool)
    requires Draining(w, q, done, noblock) && q.pend != []
    ensures var r := Answer(q.script, |q.pend|, Writing);
            var n := if r.Moved? then r.n else 0;
            var next, done' := q.Sent(n, 1), done + [r];
            && Total(done') == Total(done) + n && n <= |q.pend|
            && WriteResult(done') == (if r == Failed then -1 else Total(done'))
            && if r == Interrupted || (r.Moved? && r.n > 0 && noblock) then
                 Draining(w, next, done', noblock) && |next.script| + |next.pend| < |q.script| + |q.pend|
               else Drained(w, next, done', noblock)
  {
    hide Answers, Answer, Total, Ending, Outflow.Sent, Rest;
    var r := Answer(q.script, |q.pend|, Writing);
    var n := if r.Moved? then r.n else 0;
    AnswerBounds(q.script, |q.pend|, Writing);
    AnswersStep(done, q.script, |q.pend|, Writing, noblock);
    TotalSnoc(done, r);
    EndingSnoc(done, r);
    SentSizes(w, Total(done), |done|);
    SentSizes(q, n, 1);
    SentTwice(w, Total(done), |done|, n);
    SentKeeps(w, Total(done) + n, |done| + 1);
  }

  lemma {:induction false} SentSizes(w: Outflow, n: nat, calls: nat)
    requires n <= |w.pend|
    ensures var q := w.Sent(n, calls); |q.pend| == |w.pend| - n
    ensures var q := w.Sent(n, calls); calls == 1 ==> q.script == Rest(w.script)
    ensures var q := w.Sent(n, calls); calls == 1 && w.script != [] ==> |q.script| < |w.script|
    ensures var q := w.Sent(n, calls); |q.script| <= |w.script|
  {
  }

  lemma {:induction false} SentKeeps(w: Outflow, n: nat, calls: nat)
    ensures w.Sent(n, calls).outbound + w.Sent(n, calls).pend == w.outbound + w.pend
  {
    var m := Least(n, |w.pend|);
    assert w.pend == w.pend[..m] + w.pend[m..];
  }

  lemma {:induction false} DrainedFacts(w: Outflow, q: Outflow, t: seq<Reply>, noblock: bool)
    requires Drained(w, q, t, noblock)
    ensures Total(t) <= |w.pend| && q == w.Sent(Total(t), |t|) && q.outbound + q.pend == w.outbound + w.pend
    ensures q.script == After(w.script, |t|) && w.outbound <= q.outbound
    ensures |q.outbound| == |w.outbound| + Total(t) && |q.pend| == |w.pend| - Total(t)
  {
    hide Answers, Total;
  }

  lemma {:induction false} DrainingEnd(w: Outflow, q: Outflow, done: seq<Reply>, noblock: bool)
    requires Drained(w, q, done, noblock) || (Draining(w, q, done, noblock) && q.pend == [])
    ensures Drained(w, q, done, noblock)
    ensures Draining(w, q, done, noblock) ==> WriteResult(done) == Total(done)
  {
    hide Answers, Total;
    NothingAsked(q.script, Writing, noblock);
    SentKeeps(w, Total(done), |done|);
  }

  // What flush comes to, reply by reply, and whether it fails: where one write ends and the next
  // one starts makes no difference, nor does O_NONBLOCK.
  function Flushed(w: Outflow): (Outflow, bool)
    decreases |w.script| + |w.pend|
  {
    if w.pend == [] then (w, false)
    else if w.script == [] then (w.Sent(|w.pend|, 1), false)
    else
      match w.script[0]
      case Failed => (w.Sent(0, 1), true)
      case Moved(n) => Flushed(w.Sent(Least(n, |w.pend|), 1))
      case Interrupted => Flushed(w.Sent(0, 1))
      case Again => Flushed(w.Sent(0, 1))
  }

  lemma {:induction false} FlushedStep(w: Outflow)
    requires w.pend != []
    ensures var r := Answer(w.script, |w.pend|, Writing);
            var n := if r.Moved? then r.n else 0;
            Flushed(w) == if r == Failed then (w.Sent(0, 1), true) else Flushed(w.Sent(n, 1))
  {
    hide Outflow.Sent;
    if w.script == [] {
      SentSizes(w, |w.pend|, 1);
    }
  }

  // One write is a part of the flush.
  lemma {:induction false} WriteOfFlush(w: Outflow, noblock: bool)
    ensures var t := Answers(w.script, |w.pend|, Writing, noblock);
            Flushed(w) ==
            if WriteResult(t) == -1 then (w.Sent(Total(t), |t|), true) else Flushed(w.Sent(Total(t), |t|))
    decreases |w.script| + |w.pend|
  {
    hide Answers, Answer, Total, Ending, Outflow.Sent, Flushed;
    NothingAsked(w.script, Writing, noblock);
    if w.pend == [] {
      NothingSent(w);
    } else {
      FlushedStep(w);
      AnswerBounds(w.script, |w.pend|, Writing);
      AnswersFirst(w.script, |w.pend|, Writing, noblock);
      var r := Answer(w.script, |w.pend|, Writing);
      var n := if r.Moved? then r.n else 0;
      var next := w.Sent(n, 1);
      SentSizes(w, n, 1);
      if r == Interrupted || (r.Moved? && r.n > 0 && noblock) {
        var t := Answers(next.script, |next.pend|, Writing, noblock);
        WriteOfFlush(next, noblock);
        AnswersFacts(next.script, |next.pend|, Writing, noblock);
        TotalCons(r, t);
        EndingCons(r, t);
        SentThen(w, n, Total(t), |t|);
      } else {
        TotalOne(r);
        EndingCons(r, []);
        assert [r] + [] == [r];
      }
    }
  }

  lemma {:induction false} SentThen(w: Outflow, m: nat, n: nat, calls: nat)
    requires m + n <= |w.pend|
    ensures w.Sent(m, 1).Sent(n, calls) == w.Sent(m + n, calls + 1)
  {
    assert w.pend[..m] + w.pend[m..][..n] == w.pend[..m + n];
    assert w.pend[m..][n..] == w.pend[m + n..];
    assert After(After(w.script, 1), calls) == After(w.script, calls + 1);
  }

  lemma {:induction false} NothingSent(w: Outflow)
    ensures w.Sent(0, 0) == w && Total([]) == 0 && WriteResult([]) == 0
  {
  }

  // The replies that were used hold an error exactly if the flush failed, and only as the last one.
  predicate FailsLast(used: seq<Reply>, failed: bool) {
    if failed then used != [] && used[|used| - 1] == Failed && Failed !in used[..|used| - 1] else Failed !in used
  }

  lemma {:induction false} FailsLater(r: Reply, used: seq<Reply>, failed: bool)
    requires FailsLast(used, failed) && r != Failed
    ensures FailsLast([r] + used, failed)
  {
    var all := [r] + used;
    assert used != [] ==> all[..|all| - 1] == [r] + used[..|used| - 1];
  }

  lemma {:induction false} FailsNow()
    ensures FailsLast([Failed], true) && FailsLast([], false)
  {
  }

  // A flush that does not fail hands over everything; no byte is lost either way.
  lemma {:induction false} FlushedFacts(w: Outflow)
    ensures var (q, failed) := Flushed(w);
            && q.outbound + q.pend == w.outbound + w.pend && w.outbound <= q.outbound
            && (!failed ==> q.pend == [])
            && IsRest(w.script, q.script) && FailsLast(Used(w.script, q.script), failed)
    decreases |w.script| + |w.pend|
  {
    hide Answer, Outflow.Sent, Flushed, Used, IsRest, FailsLast;
    NothingUsed(w.script);
    FailsNow();
    if w.pend == [] {
      FlushedNothing(w);
    } else {
      FlushedStep(w);
      AnswerBounds(w.script, |w.pend|, Writing);
      var r := Answer(w.script, |w.pend|, Writing);
      var n := if r.Moved? then r.n else 0;
      var next := w.Sent(n, 1);
      SentSizes(w, n, 1);
      SentKeeps(w, n, 1);
      SentUsed(w, n);
      if r != Failed {
        FlushedFacts(next);
        var last, failed := Flushed(next).0, Flushed(next).1;
        UsedTwice(w.script, next.script, last.script);
        if w.script == [] {
          assert [] + Used(next.script, last.script) == Used(next.script, last.script);
        } else {
          FailsLater(w.script[0], Used(next.script, last.script), failed);
        }
      }
    }
  }

  lemma {:induction false} FlushedNothing(w: Outflow)
    requires w.pend == []
    ensures Flushed(w) == (w, false)
  {
  }

  lemma {:induction false} SentUsed(w: Outflow, n: nat)
    ensures w.outbound <= w.Sent(n, 1).outbound
    ensures IsRest(w.script, w.Sent(n, 1).script)
    ensures Used(w.script, w.Sent(n, 1).script) == if w.script == [] then [] else [w.script[0]]
  {
  }
}
