// The epoll backend of Fdevents, and its agreement with the select backend.
module Epoll {
  import opened Fdevents

  // ---------- fde_epoll.cpp ----------

  datatype Ctl = Add | Mod | Delete

  // The bits the kernel is asked to watch.
  function Mask(flags: Flags): Flags {
    (if In in flags then {In} else {}) + (if Out in flags then {Out} else {})
  }

  lemma {:induction false} MaskIs(flags: Flags)
    ensures Mask(flags) == flags * {In, Out}
  {
  }

  class Epoll {
    var events: seq<Fdevent>
    // what the kernel has registered
    var kernel: map<nat, Flags>

    // Every descriptor with a bit set is registered.
    ghost predicate Usable()
      reads this
    {
      Table(events) && forall fd <- View() :: fd in kernel
    }

    // And no other one is, and each for its In and Out bits.
    ghost predicate Valid()
      reads this
    {
      Usable() && forall fd <- kernel :: fd in View() && kernel[fd] == View()[fd] * {In, Out}
    }

    ghost function View(): Subs
      reads this
    {
      ViewOf(events)
    }

    lemma {:induction false} ValidIsUsable()
      ensures Valid() ==> Usable()
    {
    }

    // What the kernel watches, bit by bit: nothing is subscribed that it does not watch for.
    lemma {:induction false} KernelWatches(fd: nat)
      requires Valid()
      ensures fd in kernel <==> fd in View()
      ensures fd in kernel ==> && (In in kernel[fd] <==> In in View()[fd]) && (Out in kernel[fd] <==> Out in View()[fd])
                               && kernel[fd] <= {In, Out}
    {
    }

    constructor ()
      ensures Valid() && View() == map[] && kernel == map[]
    {
      events, kernel := [], map[];
    }

    // epoll_ctl(2): EEXIST on adding what is registered, ENOENT on the rest of what is not.
    method EpollCtl(op: Ctl, fd: nat, mask: Flags) returns (ret: int)
      modifies this`kernel
      ensures ret == if (op == Add) == (fd in old(kernel)) then -1 else 0
      ensures kernel ==
              if ret == -1 then old(kernel) else if op == Delete then old(kernel) - {fd} else old(kernel)[fd := mask]
    {
      if (op == Add) == (fd in kernel) {
        return -1;
      }
      kernel := if op == Delete then kernel - {fd} else kernel[fd := mask];
      return 0;
    }

    method IsSet(fd: nat, flag: Flag) returns (r: bool)
      requires Usable()
      modifies this`events
      ensures Usable() && View() == old(View()) && r == (flag in FlagsOf(View(), fd))
      ensures DataSet(old(events), events, fd, true, 0)
    {
      events := GetFde(events, fd);
      r := flag in events[fd].sFlags;
    }

    // The choice between ADD and MOD is the one the kernel accepts, as long as it knows just the
    // subscribed descriptors. An empty mask for another one ends that.
    method Set(fd: nat, flags: Flags, data: int) returns (ret: int)
      requires Usable()
      modifies this
      ensures Usable() && View() == SetSub(old(View()), fd, flags)
      ensures var skipped := FlagsOf(old(View()), fd) * flags != {};
              && ret == (if !skipped && fd !in old(View()) && fd in old(kernel) then -1 else 0)
              && kernel == (if skipped || ret == -1 then old(kernel)
                            else old(kernel)[fd := (FlagsOf(old(View()), fd) + flags) * {In, Out}])
              && DataSet(old(events), events, fd, skipped, data)
      ensures old(Valid()) ==> ret == 0 && (Valid() <==> flags != {} || fd in old(View()))
    {
      hide SetSub, Put, ViewOf, Table, FlagsOf, Mask, DataOf;
      ghost var was := View();
      events := GetFde(events, fd);
      ViewAt(events, fd);
      SetNothing(was, fd, flags);
      if events[fd].sFlags * flags != {} {
        return 0;
      }
      var op := if events[fd].sFlags != {} then Mod else Add;
      var f := events[fd].sFlags + flags;
      SetPut(was, fd, flags);
      PutFacts(was, fd, f);
      ViewUpdate(events, fd, events[fd].(sFlags := f, data := data));
      events := events[fd := events[fd].(sFlags := f, data := data)];
      MaskIs(f);
      ret := EpollCtl(op, fd, Mask(f));
      if ret == -1 {
        return -1;
      }
      return 0;
    }

    // del of a descriptor that is not registered fails in the kernel and changes nothing.
    method Del(fd: nat) returns (ret: int)
      requires Usable()
      modifies this
      ensures Usable() && View() == DelSub(old(View()), fd) && kernel == old(kernel) - {fd}
      ensures old(Valid()) ==> Valid()
      ensures DataSet(old(events), events, fd, true, 0)
      ensures ret == if fd in old(kernel) then 0 else -1
    {
      ret := EpollCtl(Delete, fd, {});
      if ret == -1 {
        return -1;
      }
      events := GetFde(events, fd);
      ViewUpdate(events, fd, events[fd].(sFlags := {}));
      events := events[fd := events[fd].(sFlags := {})];
      return 0;
    }

    method Clr(fd: nat, flags: Flags) returns (ret: int)
      requires Usable()
      modifies this
      ensures Usable() && ret == 0 && View() == ClrSub(old(View()), fd, flags) && (old(Valid()) ==> Valid())
      ensures var f := FlagsOf(old(View()), fd);
              kernel == if f * flags == {} then old(kernel)
                        else if f <= flags then old(kernel) - {fd}
                        else old(kernel)[fd := (f - flags) * {In, Out}]
      ensures DataSet(old(events), events, fd, true, 0)
    {
      hide ClrSub, Put, ViewOf, Table, FlagsOf, Mask, DataOf;
      ghost var was := View();
      events := GetFde(events, fd);
      ViewAt(events, fd);
      SetNothing(was, fd, flags);
      if events[fd].sFlags * flags == {} {
        return 0;
      }
      var f := events[fd].sFlags - flags;
      NoneLeft(events[fd].sFlags, flags);
      ClrPut(was, fd, flags);
      PutFacts(was, fd, f);
      ViewUpdate(events, fd, events[fd].(sFlags := f));
      events := events[fd := events[fd].(sFlags := f)];
      var op := if f != {} then Mod else Delete;
      MaskIs(f);
      ret := EpollCtl(op, fd, Mask(f));
      if ret == -1 {
        return -1;
      }
      return 0;
    }
  }

  lemma {:induction false} NoneLeft(a: Flags, b: Flags)
    ensures a - b == {} <==> a <= b
  {
    if a - b == {} {
      forall x | x in a ensures x in b {
        assert x !in a - b;
      }
    }
  }

  lemma {:induction false} PutFacts(m: Subs, fd: nat, flags: Flags)
    ensures fd in Put(m, fd, flags) <==> flags != {}
    ensures flags != {} ==> Put(m, fd, flags)[fd] == flags
    ensures forall k: nat | k != fd ::
              (k in Put(m, fd, flags) <==> k in m) && (k in m ==> Put(m, fd, flags)[k] == m[k])
  {
  }

  // Set with an empty mask registers a descriptor that has no subscription. The next set for it is
  // taken down in the table and refused by the kernel, which goes on watching for nothing.
  method EmptyMaskExample() returns (e: Epoll, ret: int)
    ensures fresh(e) && ret == -1 && FlagsOf(e.View(), 7) == {In} && 7 in e.kernel && e.kernel[7] == {}
  {
    e := new Epoll();
    ret := e.Set(7, {}, 0);
    assert FlagsOf(e.View(), 7) * {In} == {};
    ret := e.Set(7, {In}, 0);
  }

  // ---------- The backends agree ----------

  datatype Op = SetOp(fd: nat, flags: Flags) | ClrOp(fd: nat, flags: Flags) | DelOp(fd: nat)

  function Meaning(m: Subs, op: Op): Subs {
    match op
    case SetOp(fd, flags) => SetSub(m, fd, flags)
    case ClrOp(fd, flags) => ClrSub(m, fd, flags)
    case DelOp(fd) => DelSub(m, fd)
  }

  function MeaningAll(m: Subs, ops: seq<Op>): Subs {
    if ops == [] then m else Meaning(MeaningAll(m, ops[..|ops| - 1]), ops[|ops| - 1])
  }

  // What both backends can be asked: descriptors that fit an fd_set, and something left subscribed
  // by a clr that finds a bit.
  predicate Askable(m: Subs, op: Op) {
    op.fd < FD_SETSIZE && (op.ClrOp? ==> Clearable(m, op.fd, op.flags))
  }

  // One call to either backend.
  method Both(s: Select, e: Epoll, op: Op)
    requires s.Usable() && e.Usable() && s.View() == e.View() && Askable(s.View(), op)
    modifies s, e
    ensures s.Usable() && e.Usable() && s.View() == e.View() == Meaning(old(s.View()), op)
    ensures old(s.Valid() && e.Valid()) && (op.SetOp? ==> op.flags != {}) ==> s.Valid() && e.Valid()
  {
    hide Select.Usable, Epoll.Usable, Select.Valid, Epoll.Valid, SetSub, ClrSub, DelSub, ViewOf, FlagsOf, Mask;
    match op
    case SetOp(fd, flags) =>
      var r0 := s.Set(fd, flags, 0);
      var r1 := e.Set(fd, flags, 0);
    case ClrOp(fd, flags) =>
      var r0 := s.Clr(fd, flags);
      var r1 := e.Clr(fd, flags);
    case DelOp(fd) =>
      var r0 := s.Del(fd);
      var r1 := e.Del(fd);
  }

  // Main result: over any run of calls the two backends hold the same subscriptions. Unless an
  // empty mask is set, maxfd and the kernel keep up with them.
  method SameRun(s: Select, e: Epoll, ops: seq<Op>)
    requires s.Usable() && e.Usable() && s.View() == e.View()
    requires forall i | 0 <= i < |ops| :: Askable(MeaningAll(s.View(), ops[..i]), ops[i])
    modifies s, e
    ensures s.Usable() && e.Usable() && s.View() == e.View() == MeaningAll(old(s.View()), ops)
    ensures old(s.Valid() && e.Valid()) && (forall op <- ops :: op.SetOp? ==> op.flags != {}) ==>
              s.Valid() && e.Valid()
  {
    hide Select.Usable, Epoll.Usable, Select.Valid, Epoll.Valid, Select.View, Epoll.View, Meaning, Askable;
    ghost var m := s.View();
    ghost var proper := s.Valid() && e.Valid() && (forall op <- ops :: op.SetOp? ==> op.flags != {});
    for i := 0 to |ops|
      invariant s.Usable() && e.Usable() && s.View() == e.View() == MeaningAll(m, ops[..i])
      invariant proper ==> s.Valid() && e.Valid()
    {
      assert ops[..i + 1][..i] == ops[..i];
      assert ops[i] in ops && Askable(MeaningAll(m, ops[..i]), ops[i]);
      Both(s, e, ops[i]);
    }
    assert ops[..|ops|] == ops;
  }
}
