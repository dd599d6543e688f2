// The event loop of net.cpp and the handlers of msg.cpp over the epoll backend.
module Server {
  import opened Options
  import opened Fdevents
  import opened Epoll

  // A response, told apart by a number.
  type Response = nat

  // A Link as the server uses it: the error mark, the queue of responses, and for the record the
  // responses made and those popped.
  datatype Conn = Conn(error: bool, queue: seq<Response>, made: seq<Response>, popped: seq<Response>) {
    // A response is made and queued.
    function Respond(r: Response): Conn {
      this.(queue := queue + [r], made := made + [r])
    }
  }

  // What the kernel does while an event is handled: the descriptor accepted, the request read (as
  // the response made for it), or the result of the write.
  datatype Outcome = Accepted(fd: Option<nat>) | Received(response: Option<Response>) | Written(len: int)

  datatype Event = Event(fd: nat, bits: Flags, outcome: Outcome)

  // The kernel handed out a descriptor that was free.
  predicate New(conns: map<nat, Conn>, listenFd: nat, outcome: Outcome) {
    outcome.Accepted? && outcome.fd.Some? && outcome.fd.value != listenFd && outcome.fd.value !in conns
  }

  // What handling one event makes of the connections. Connections in error are left alone.
  function Handled(conns: map<nat, Conn>, listenFd: nat, e: Event): map<nat, Conn> {
    if e.fd == listenFd then
      if New(conns, listenFd, e.outcome) then
        conns[e.outcome.fd.value := Conn(false, [], [], [])]
      else conns
    else if e.fd !in conns || conns[e.fd].error then conns
    else
      var c := conns[e.fd];
      if In in e.bits then
        if !e.outcome.Received? then conns
        else if e.outcome.response.None? then conns[e.fd := c.(error := true)]
        else
          conns[e.fd := c.Respond(e.outcome.response.value)]
      else if Out in e.bits && e.outcome.Written? && c.queue != [] then
        conns[e.fd := c.(queue := c.queue[1..], popped := c.popped + [c.queue[0]], error := e.outcome.len <= 0)]
      else conns
  }

  function HandledAll(conns: map<nat, Conn>, listenFd: nat, events: seq<Event>): map<nat, Conn> {
    if events == [] then conns
    else Handled(HandledAll(conns, listenFd, events[..|events| - 1]), listenFd, events[|events| - 1])
  }

  // A connection without error is watched for input, and for output while responses wait; its
  // responses leave in the order they were made.
  ghost predicate Served(c: Conn, flags: Flags) {
    && c.made == c.popped + c.queue
    && (!c.error ==> In in flags)
    && (!c.error && c.queue != [] ==> Out in flags)
  }

  // The subscriptions are those of the connections and of the listening socket.
  ghost predicate Matched(conns: map<nat, Conn>, m: Subs, listenFd: nat) {
    && listenFd !in conns && In in FlagsOf(m, listenFd)
    && (forall fd <- m :: fd == listenFd || fd in conns)
    && forall fd <- conns :: Served(conns[fd], FlagsOf(m, fd))
  }

  // One connection, and its subscription, are changed.
  lemma {:induction false} MatchedKept(
    conns: map<nat, Conn>, m: Subs, listenFd: nat, fd: nat, c: Conn, m': Subs)
    requires Matched(conns, m, listenFd) && fd != listenFd && Served(c, FlagsOf(m', fd))
    requires (forall k: nat | k != fd :: FlagsOf(m', k) == FlagsOf(m, k)) && forall k <- m' :: k in m || k == fd
    ensures Matched(conns[fd := c], m', listenFd)
  {
    hide Served, FlagsOf;
  }

  lemma {:induction false} ServedAt(conns: map<nat, Conn>, m: Subs, listenFd: nat, fd: nat)
    requires Matched(conns, m, listenFd) && fd in conns
    ensures Served(conns[fd], FlagsOf(m, fd)) && fd != listenFd
  {
  }

  // What the kernel watches the listening socket and the connections for.
  ghost predicate Watched(conns: map<nat, Conn>, kernel: map<nat, Flags>, listenFd: nat) {
    && listenFd in kernel && In in kernel[listenFd]
    && (forall fd <- kernel :: fd == listenFd || fd in conns)
    && (forall fd <- conns :: !conns[fd].error ==> fd in kernel && In in kernel[fd])
    && (forall fd <- conns :: !conns[fd].error && conns[fd].queue != [] ==> fd in kernel && Out in kernel[fd])
  }

  class NetworkServer {
    const listenFd: nat
    const fdes: Epoll
    var conns: map<nat, Conn>
    var connCount: int

    ghost predicate Valid()
      reads this, fdes
    {
      fdes.Valid() && connCount == |conns| && Matched(conns, fdes.View(), listenFd)
    }

    // The kernel watches for all that the server waits for.
    lemma {:induction false} KernelServes()
      requires Valid()
      ensures Watched(conns, fdes.kernel, listenFd)
    {
      hide Epoll.Valid, Epoll.View;
      forall fd: nat
        ensures (fd in fdes.kernel <==> fd in fdes.View())
        ensures fd in fdes.kernel ==> && (In in fdes.kernel[fd] <==> In in fdes.View()[fd])
                                      && (Out in fdes.kernel[fd] <==> Out in fdes.View()[fd])
      {
        fdes.KernelWatches(fd);
      }
    }

    constructor (listenFd: nat)
      ensures Valid() && conns == map[] && this.listenFd == listenFd && fresh(fdes)
    {
      this.listenFd := listenFd;
      fdes := new Epoll();
      conns, connCount := map[], 0;
      new;
      var _ := fdes.Set(listenFd, {In}, 0);
    }

    // A new connection, on a descriptor the kernel had not given out.
    method Accept(fd: nat)
      requires Valid() && fd !in conns && fd != listenFd
      modifies this, fdes
      ensures Valid() && conns == old(conns)[fd := Conn(false, [], [], [])]
    {
      hide Epoll.Usable, Epoll.Valid, Epoll.View, SetSub, FlagsOf, Matched;
      ghost var m := fdes.View();
      SetEffect(m, fd, {In});
      fdes.ValidIsUsable();
      MatchedKept(conns, m, listenFd, fd, Conn(false, [], [], []), SetSub(m, fd, {In}));
      connCount := connCount + 1;
      conns := conns[fd := Conn(false, [], [], [])];
      var _ := fdes.Set(fd, {In}, 1);
    }

    // A connection in error is watched no more.
    method Drop(fd: nat)
      requires Valid() && fd in conns
      modifies this`conns, fdes
      ensures Valid() && FlagsOf(fdes.View(), fd) == {}
      ensures conns == old(conns)[fd := old(conns)[fd].(error := true)]
    {
      hide Epoll.Usable, Epoll.Valid, Epoll.View, DelSub, FlagsOf, Matched;
      ghost var m, c := fdes.View(), conns[fd].(error := true);
      DelEffect(m, fd);
      fdes.ValidIsUsable();
      ServedAt(conns, m, listenFd, fd);
      MatchedKept(conns, m, listenFd, fd, c, DelSub(m, fd));
      conns := conns[fd := conns[fd].(error := true)];
      var _ := fdes.Del(fd);
    }

    // req_recv: queue the response, or give the connection up.
    method ReqRecv(fd: nat, response: Option<Response>) returns (ok: bool)
      requires Valid() && fd in conns && !conns[fd].error
      modifies this`conns, fdes
      ensures Valid() && ok == response.Some?
      ensures ok ==> conns == old(conns)[fd := old(conns)[fd].Respond(response.value)]
      ensures !ok ==> conns == old(conns)[fd := old(conns)[fd].(error := true)] && FlagsOf(fdes.View(), fd) == {}
    {
      hide Epoll.Usable, Epoll.Valid, Epoll.View, SetSub, FlagsOf, Matched;
      if response.None? {
        Drop(fd);
        return false;
      }
      ghost var m := fdes.View();
      SetEffect(m, fd, {Out});
      fdes.ValidIsUsable();
      ServedAt(conns, m, listenFd, fd);
      MatchedKept(conns, m, listenFd, fd, conns[fd].Respond(response.value), SetSub(m, fd, {Out}));
      conns := conns[fd := conns[fd].Respond(response.value)];
      var _ := fdes.Set(fd, {Out}, 1);
      return true;
    }

    // rsp_send: pop the front response and write it, or stop watching for output.
    method RspSend(fd: nat, len: int) returns (ok: bool)
      requires Valid() && fd in conns && !conns[fd].error
      modifies this`conns, fdes
      ensures Valid()
      ensures old(conns[fd].queue) == [] ==>
                ok && conns == old(conns) && FlagsOf(fdes.View(), fd) == FlagsOf(old(fdes.View()), fd) - {Out}
      ensures var c := old(conns[fd]);
              c.queue != [] ==>
                ok == (len > 0) && fdes.View() == old(fdes.View()) &&
                conns == old(conns)[fd := c.(queue := c.queue[1..], popped := c.popped + [c.queue[0]], error := !ok)]
    {
      hide Epoll.Usable, Epoll.Valid, Epoll.View, ClrSub, FlagsOf, Matched;
      var c := conns[fd];
      ghost var m := fdes.View();
      ServedAt(conns, m, listenFd, fd);
      if c.queue != [] {
        c := c.(queue := c.queue[1..], popped := c.popped + [c.queue[0]], error := len <= 0);
        assert conns[fd].queue == [conns[fd].queue[0]] + c.queue;
        MatchedKept(conns, m, listenFd, fd, c, m);
        conns := conns[fd := c];
        return len > 0;
      }
      ClrEffect(m, fd, {Out});
      fdes.ValidIsUsable();
      MatchedKept(conns, m, listenFd, fd, c, ClrSub(m, fd, {Out}));
      assert conns[fd := c] == conns;
      var _ := fdes.Clr(fd, {Out});
      return true;
    }

    // The body of the loop over the ready events: recv and send turn connections in error away.
    method Dispatch(e: Event)
      requires Valid() && (e.fd == listenFd || e.fd in conns)
      modifies this, fdes
      ensures Valid() && conns == Handled(old(conns), listenFd, e)
      ensures e.fd != listenFd && old(e.fd in conns && conns[e.fd].error) ==> fdes.View() == old(fdes.View())
      ensures e.fd != listenFd && old(!conns[e.fd].error && conns[e.fd].queue == []) &&
              In !in e.bits && Out in e.bits && e.outcome.Written? ==>
                FlagsOf(fdes.View(), e.fd) == FlagsOf(old(fdes.View()), e.fd) - {Out}
    {
      hide Matched;
      if e.fd == listenFd {
        if New(conns, listenFd, e.outcome) {
          Accept(e.outcome.fd.value);
        }
      } else if In in e.bits {
        if !conns[e.fd].error && e.outcome.Received? {
          var _ := ReqRecv(e.fd, e.outcome.response);
        }
      } else if Out in e.bits {
        if !conns[e.fd].error && e.outcome.Written? {
          var _ := RspSend(e.fd, e.outcome.len);
        }
      }
    }

    // Main result: whatever happens, the subscriptions match the connections after every round.
    method Round(events: seq<Event>)
      requires Valid() && forall e <- events :: e.fd == listenFd || e.fd in conns
      modifies this, fdes
      ensures Valid() && conns == HandledAll(old(conns), listenFd, events)
      ensures Watched(conns, fdes.kernel, listenFd)
    {
      hide Valid, Handled, Watched;
      for i := 0 to |events|
        invariant Valid() && conns == HandledAll(old(conns), listenFd, events[..i])
        invariant old(conns).Keys <= conns.Keys
      {
        assert events[i] in events;
        assert events[..i + 1][..i] == events[..i];
        HandledKeeps(conns, listenFd, events[i]);
        Dispatch(events[i]);
      }
      assert events[..|events|] == events;
      KernelServes();
    }
  }

  // Case by case what an event does, input first where it has both bits; nothing else changes.
  lemma {:induction false} HandledIs(conns: map<nat, Conn>, listenFd: nat, bits: Flags, outcome: Outcome, fd: nat)
    requires listenFd !in conns
    ensures var after := Handled(conns, listenFd, Event(listenFd, bits, outcome));
            if outcome.Accepted? && outcome.fd.Some? && outcome.fd.value !in conns && outcome.fd.value != listenFd then
              after == conns[outcome.fd.value := Conn(false, [], [], [])]
            else after == conns
    ensures var after := Handled(conns, listenFd, Event(fd, bits, outcome));
            fd in conns ==>
              var c := conns[fd];
              && (!c.error && In in bits && outcome.Received? && outcome.response.Some? ==>
                    var r := outcome.response.value;
                    after == conns[fd := Conn(false, c.queue + [r], c.made + [r], c.popped)])
              && (!c.error && In in bits && outcome.Received? && outcome.response.None? ==>
                    after == conns[fd := Conn(true, c.queue, c.made, c.popped)])
              && (!c.error && In !in bits && Out in bits && outcome.Written? && c.queue != [] ==>
                    after == conns[fd := Conn(outcome.len <= 0, c.queue[1..], c.made, c.popped + [c.queue[0]])])
              && (c.error || (In in bits && !outcome.Received?) || (In !in bits && Out !in bits) ||
                  (In !in bits && (!outcome.Written? || c.queue == [])) ==>
                    after == conns)
  {
  }

  lemma {:induction false} HandledKeeps(conns: map<nat, Conn>, listenFd: nat, e: Event)
    ensures conns.Keys <= Handled(conns, listenFd, e).Keys
  {
  }

  // A connection only ever gains responses at the end of what was made, and loses them at the
  // front of its queue; once in error it stays as it is.
  ghost predicate Advanced(a: Conn, b: Conn) {
    a.made <= b.made && a.popped <= b.popped && (a.error ==> b == a)
  }

  lemma {:induction false} ConnectionsAdvance(conns: map<nat, Conn>, listenFd: nat, events: seq<Event>)
    ensures var after := HandledAll(conns, listenFd, events);
            conns.Keys <= after.Keys && forall fd <- conns :: Advanced(conns[fd], after[fd])
  {
    if events != [] {
      var n := |events| - 1;
      ConnectionsAdvance(conns, listenFd, events[..n]);
      var mid := HandledAll(conns, listenFd, events[..n]);
      HandledKeeps(mid, listenFd, events[n]);
      var after := Handled(mid, listenFd, events[n]);
      forall fd | fd in conns ensures Advanced(conns[fd], after[fd]) {
        assert Advanced(conns[fd], mid[fd]) && Advanced(mid[fd], after[fd]);
      }
    }
  }

  lemma {:induction false} SetEffect(m: Subs, fd: nat, flags: Flags)
    requires flags == {In} || flags == {Out}
    ensures forall k: nat :: FlagsOf(SetSub(m, fd, flags), k) == FlagsOf(m, k) + if k == fd then flags else {}
    ensures forall k <- SetSub(m, fd, flags) :: k in m || k == fd
  {
    if FlagsOf(m, fd) * flags != {} {
      assert flags <= FlagsOf(m, fd);
    }
  }

  lemma {:induction false} ClrEffect(m: Subs, fd: nat, flags: Flags)
    ensures forall k: nat :: FlagsOf(ClrSub(m, fd, flags), k) == FlagsOf(m, k) - if k == fd then flags else {}
    ensures forall k <- ClrSub(m, fd, flags) :: k in m
  {
    if FlagsOf(m, fd) * flags == {} {
      var f := FlagsOf(m, fd);
      assert forall x <- f :: x in flags ==> x in f * flags;
      assert f - flags == f;
    }
  }

  lemma {:induction false} DelEffect(m: Subs, fd: nat)
    ensures forall k: nat :: FlagsOf(DelSub(m, fd), k) == if k == fd then {} else FlagsOf(m, k)
    ensures forall k <- DelSub(m, fd) :: k in m
  {
  }
}
