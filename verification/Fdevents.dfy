// Which descriptors are watched for what: the select and the epoll backend of Fdevents.
module Fdevents {
  import opened Options

  // The bits of an event mask; a mask is the set of its bits.
  datatype Flag = In | Pri | Out | Hup | Err

  type Flags = set<Flag>

  // One entry of the events table.
  datatype Fdevent = Fdevent(fd: nat, sFlags: Flags, events: Flags, data: int)

  // The subscriptions, for the descriptors that have any.
  type Subs = map<nat, Flags>

  function FlagsOf(m: Subs, fd: nat): Flags {
    if fd in m then m[fd] else {}
  }

  function Put(m: Subs, fd: nat, flags: Flags): Subs {
    if flags == {} then m - {fd} else m[fd := flags]
  }

  // What set, clr and del mean, whatever the backend. A set that overlaps what is subscribed does
  // nothing, not even for its other bits.
  function SetSub(m: Subs, fd: nat, flags: Flags): Subs {
    if FlagsOf(m, fd) * flags != {} then m else Put(m, fd, FlagsOf(m, fd) + flags)
  }

  function ClrSub(m: Subs, fd: nat, flags: Flags): Subs {
    if FlagsOf(m, fd) * flags == {} then m else Put(m, fd, FlagsOf(m, fd) - flags)
  }

  function DelSub(m: Subs, fd: nat): Subs {
    Put(m, fd, {})
  }

  // The bit is subscribed for the descriptor.
  predicate Has(m: Subs, fd: nat, x: Flag) {
    fd in m && x in m[fd]
  }

  // The three operations bit by bit.
  lemma {:induction false} SubsAre(m: Subs, fd: nat, flags: Flags, k: nat, x: Flag)
    ensures Has(SetSub(m, fd, flags), k, x) <==>
              Has(m, k, x) || (k == fd && x in flags && forall y <- flags :: !Has(m, fd, y))
    ensures Has(ClrSub(m, fd, flags), k, x) <==> Has(m, k, x) && !(k == fd && x in flags)
    ensures Has(DelSub(m, fd), k, x) <==> Has(m, k, x) && k != fd
  {
    if y :| y in flags && Has(m, fd, y) {
      assert y in FlagsOf(m, fd) * flags;
    } else {
      assert FlagsOf(m, fd) * flags == {};
    }
    if FlagsOf(m, fd) * flags == {} {
      assert Has(m, fd, x) && x in flags ==> x in FlagsOf(m, fd) * flags;
    } else {
      assert Has(m, fd, x) && x !in flags <==> x in FlagsOf(m, fd) - flags;
    }
  }

  // The bits asked for are subscribed afterwards exactly if none or all of them were before.
  lemma {:induction false} SetSubscribesExactly(m: Subs, fd: nat, flags: Flags)
    ensures flags <= FlagsOf(SetSub(m, fd, flags), fd) <==>
              FlagsOf(m, fd) * flags == {} || flags <= FlagsOf(m, fd)
  {
    if FlagsOf(m, fd) + flags == {} {
      assert flags == {};
    }
  }

  // Asking for In and Out where In is subscribed leaves Out out.
  lemma {:induction false} SetDropsOut()
    ensures FlagsOf(SetSub(map[7 := {In}], 7, {In, Out}), 7) == {In}
  {
    assert In in {In} * {In, Out};
  }

  // What the select backend can be asked to clear: no bit that is set, or not the last ones.
  predicate Clearable(m: Subs, fd: nat, flags: Flags) {
    FlagsOf(m, fd) * flags == {} || ClrSub(m, fd, flags) != map[]
  }

  lemma {:induction false} SetNothing(m: Subs, fd: nat, flags: Flags)
    ensures FlagsOf(m, fd) * flags != {} ==> SetSub(m, fd, flags) == m
    ensures FlagsOf(m, fd) * flags == {} ==> ClrSub(m, fd, flags) == m
  {
  }

  lemma {:induction false} SetPut(m: Subs, fd: nat, flags: Flags)
    requires FlagsOf(m, fd) * flags == {}
    ensures SetSub(m, fd, flags) == Put(m, fd, FlagsOf(m, fd) + flags)
    ensures forall k <- SetSub(m, fd, flags) :: k in m || k == fd
    ensures fd in SetSub(m, fd, flags) <==> flags != {} || FlagsOf(m, fd) != {}
  {
    if FlagsOf(m, fd) + flags == {} {
      assert flags == {} && FlagsOf(m, fd) == {};
    }
  }

  lemma {:induction false} ClrPut(m: Subs, fd: nat, flags: Flags)
    requires FlagsOf(m, fd) * flags != {}
    ensures ClrSub(m, fd, flags) == Put(m, fd, FlagsOf(m, fd) - flags)
    ensures forall k <- ClrSub(m, fd, flags) :: k in m
  {
  }

  // The table entries as a map.
  function ViewOf(events: seq<Fdevent>): Subs {
    map fd: nat | fd < |events| && events[fd].sFlags != {} :: events[fd].sFlags
  }

  // The data last stored for a descriptor.
  function DataOf(events: seq<Fdevent>, fd: nat): int {
    if fd < |events| then events[fd].data else 0
  }

  // What set does to the data: an overlapping call leaves the old one.
  ghost predicate DataSet(was: seq<Fdevent>, events: seq<Fdevent>, fd: nat, skipped: bool, data: int) {
    forall k: nat :: DataOf(events, k) == if k == fd && !skipped then data else DataOf(was, k)
  }

  ghost predicate Table(events: seq<Fdevent>) {
    forall i | 0 <= i < |events| :: events[i].fd == i
  }

  // get_fde: makes the table long enough.
  method GetFde(events: seq<Fdevent>, fd: nat) returns (r: seq<Fdevent>)
    requires Table(events)
    ensures Table(r) && events <= r && fd < |r| && (|r| == |events| || |r| == fd + 1)
    ensures forall i | |events| <= i < |r| :: r[i].sFlags == {}
    ensures ViewOf(r) == ViewOf(events) && forall k: nat :: DataOf(r, k) == DataOf(events, k)
  {
    r := events;
    while |r| <= fd
      invariant Table(r) && events <= r && (|r| == |events| || |r| <= fd + 1)
      invariant forall i | |events| <= i < |r| :: r[i].sFlags == {} && r[i].data == 0
    {
      r := r + [Fdevent(|r|, {}, {}, 0)];
    }
  }

  lemma {:induction false} ViewAt(events: seq<Fdevent>, fd: nat)
    requires fd < |events|
    ensures FlagsOf(ViewOf(events), fd) == events[fd].sFlags
    ensures fd in ViewOf(events) <==> events[fd].sFlags != {}
    ensures DataOf(events, fd) == events[fd].data
  {
  }

  lemma {:induction false} ViewUpdate(events: seq<Fdevent>, fd: nat, e: Fdevent)
    requires fd < |events|
    ensures Table(events) && e.fd == fd ==> Table(events[fd := e])
    ensures ViewOf(events[fd := e]) == Put(ViewOf(events), fd, e.sFlags)
    ensures forall k: nat :: DataOf(events[fd := e], k) == if k == fd then e.data else DataOf(events, k)
  {
    var r := events[fd := e];
    forall k: nat ensures DataOf(r, k) == if k == fd then e.data else DataOf(events, k) {
      if k < |events| {
        assert r[k] == if k == fd then e else events[k];
      }
    }
  }

  // fde->events = bits
  function MarkReady(events: seq<Fdevent>, i: nat, bits: Flags): (r: seq<Fdevent>)
    requires i < |events|
    ensures |r| == |events| && ViewOf(r) == ViewOf(events) && (Table(events) ==> Table(r))
    ensures forall k: nat :: DataOf(r, k) == DataOf(events, k)
    ensures r[i].events == bits && forall k | 0 <= k < |events| && k != i :: r[k] == events[k]
  {
    events[i := events[i].(events := bits)]
  }

  lemma {:induction false} NoDataSet(events: seq<Fdevent>)
    ensures DataSet(events, events, 0, true, 0)
  {
  }

  lemma {:induction false} DataKept(was: seq<Fdevent>, mid: seq<Fdevent>, events: seq<Fdevent>)
    requires DataSet(was, mid, 0, true, 0) && forall k: nat :: DataOf(events, k) == DataOf(mid, k)
    ensures DataSet(was, events, 0, true, 0)
  {
  }

  const FD_SETSIZE := 1024

  // ---------- fde_select.cpp ----------

  // What select(2) answers.
  datatype Selected = Interrupted | Failed | Ready(rset: set<nat>, wset: set<nat>)

  ghost predicate Mirror(m: Subs, readset: set<nat>, writeset: set<nat>) {
    && (forall fd: nat :: fd in readset <==> In in FlagsOf(m, fd))
    && (forall fd: nat :: fd in writeset <==> Out in FlagsOf(m, fd))
  }

  lemma {:induction false} FlagsAfterPut(m: Subs, fd: nat, flags: Flags, k: nat)
    ensures FlagsOf(Put(m, fd, flags), k) == if k == fd then flags else FlagsOf(m, k)
  {
  }

  lemma {:induction false} MirrorAt(m: Subs, rs: set<nat>, ws: set<nat>, fd: nat)
    requires Mirror(m, rs, ws)
    ensures (fd in rs <==> In in FlagsOf(m, fd)) && (fd in ws <==> Out in FlagsOf(m, fd))
  {
  }

  // The sets follow an entry whose bits become `flags`.
  lemma {:induction false} MirrorPut(
    m: Subs, rs: set<nat>, ws: set<nat>, fd: nat, flags: Flags, rs': set<nat>, ws': set<nat>)
    requires Mirror(m, rs, ws)
    requires rs' - {fd} == rs - {fd} && (fd in rs' <==> In in flags)
    requires ws' - {fd} == ws - {fd} && (fd in ws' <==> Out in flags)
    ensures Mirror(Put(m, fd, flags), rs', ws')
  {
    hide Put, FlagsOf;
    forall k: nat
      ensures k in rs' <==> In in FlagsOf(Put(m, fd, flags), k)
      ensures k in ws' <==> Out in FlagsOf(Put(m, fd, flags), k)
    {
      FlagsAfterPut(m, fd, flags, k);
      assert k != fd ==> (k in rs' - {fd} <==> k in rs - {fd}) && (k in ws' - {fd} <==> k in ws - {fd});
    }
  }

  lemma {:induction false} WatchedBelow(m: Subs, rs: set<nat>, ws: set<nat>)
    requires Mirror(m, rs, ws)
    ensures forall fd <- rs + ws :: fd in m
  {
  }

  class Select {
    var maxfd: int
    var readset: set<nat>
    var writeset: set<nat>
    var events: seq<Fdevent>

    // The two fd_sets repeat the In and Out bits, and no descriptor watched lies above maxfd.
    ghost predicate Usable()
      reads this
    {
      && Table(events)
      && Mirror(View(), readset, writeset)
      && -1 <= maxfd < |events| && maxfd < FD_SETSIZE
      && forall fd <- View() :: fd <= maxfd
    }

    // Besides, maxfd is the largest of them.
    ghost predicate Valid()
      reads this
    {
      Usable() && (maxfd >= 0 ==> maxfd in View())
    }

    ghost function View(): Subs
      reads this
    {
      ViewOf(events)
    }

    // select(2) is asked for exactly what is subscribed, up to the largest descriptor.
    lemma {:induction false} SelectWatches(fd: nat)
      requires Usable()
      ensures fd in readset <==> fd in View() && In in View()[fd]
      ensures fd in writeset <==> fd in View() && Out in View()[fd]
      ensures fd in View() ==> fd <= maxfd < 1024
    {
    }

    constructor ()
      ensures Valid() && View() == map[]
    {
      maxfd, readset, writeset, events := -1, {}, {}, [];
    }

    method IsSet(fd: nat, flag: Flag) returns (r: bool)
      requires Usable()
      modifies this`events
      ensures Usable() && View() == old(View()) && r == (flag in FlagsOf(View(), fd))
      ensures DataSet(old(events), events, fd, true, 0)
    {
      events := GetFde(events, fd);
      r := flag in events[fd].sFlags;
    }

    // A call that overlaps what is subscribed does nothing. An empty mask subscribes nothing but
    // may raise maxfd past the descriptors watched.
    method Set(fd: nat, flags: Flags, data: int) returns (ret: int)
      requires Usable()
      modifies this
      ensures Usable() && ret == if fd >= 1024 then -1 else 0
      ensures View() == if ret == -1 then old(View()) else SetSub(old(View()), fd, flags)
      ensures var skipped := ret == -1 || FlagsOf(old(View()), fd) * flags != {};
              && DataSet(old(events), events, fd, skipped, data)
              && maxfd == if !skipped && fd > old(maxfd) then fd else old(maxfd)
      ensures old(Valid()) ==> (Valid() <==> flags != {} || fd <= old(maxfd) || fd >= 1024)
    {
      if fd > FD_SETSIZE - 1 {
        return -1;
      }
      hide Mirror, SetSub, Put, ViewOf, Table, FlagsOf, DataOf;
      ghost var was := View();
      events := GetFde(events, fd);
      ViewAt(events, fd);
      SetNothing(was, fd, flags);
      if events[fd].sFlags * flags != {} {
        return 0;
      }
      ghost var f := events[fd].sFlags + flags;
      readset := if In in flags then readset + {fd} else readset;
      writeset := if Out in flags then writeset + {fd} else writeset;
      MirrorPut(was, old(readset), old(writeset), fd, f, readset, writeset);
      SetPut(was, fd, flags);
      ViewUpdate(events, fd, events[fd].(data := data, sFlags := f));
      events := events[fd := events[fd].(data := data, sFlags := events[fd].sFlags + flags)];
      maxfd := if fd > maxfd then fd else maxfd;
      return 0;
    }

    method Del(fd: nat) returns (ret: int)
      requires Usable() && fd < FD_SETSIZE
      modifies this
      ensures Usable() && Valid() && ret == 0 && View() == DelSub(old(View()), fd)
      ensures DataSet(old(events), events, fd, true, 0)
    {
      readset, writeset := readset - {fd}, writeset - {fd};
      events := GetFde(events, fd);
      MirrorPut(View(), old(readset), old(writeset), fd, {}, readset, writeset);
      hide Mirror;
      ViewUpdate(events, fd, events[fd].(sFlags := {}));
      events := events[fd := events[fd].(sFlags := {})];
      LowerMax();
      return 0;
    }

    // The loop of del.
    method LowerMax()
      requires -1 <= maxfd < |events| && forall fd <- View() :: fd <= maxfd
      modifies this`maxfd
      ensures -1 <= maxfd <= old(maxfd) && (maxfd >= 0 ==> maxfd in View()) && forall fd <- View() :: fd <= maxfd
    {
      while maxfd >= 0 && events[maxfd].sFlags == {}
        invariant -1 <= maxfd <= old(maxfd) && forall fd <- View() :: fd <= maxfd
      {
        assert maxfd !in View();
        maxfd := maxfd - 1;
      }
    }

    // A clr that finds no bit set does nothing. Otherwise it scans for the new maxfd without a
    // lower end: None where the scan leaves the table, which is exactly where nothing stays
    // subscribed.
    method Clr(fd: nat, flags: Flags) returns (ret: Option<int>)
      requires Usable()
      modifies this
      ensures Usable() && View() == ClrSub(old(View()), fd, flags) && DataSet(old(events), events, fd, true, 0)
      ensures ret == if Clearable(old(View()), fd, flags) then Some(0) else None
      ensures old(Valid()) || FlagsOf(old(View()), fd) * flags != {} ==> Valid()
    {
      hide Mirror, ClrSub, Put, ViewOf, Table, FlagsOf, DataOf;
      ghost var was := View();
      events := GetFde(events, fd);
      ViewAt(events, fd);
      SetNothing(was, fd, flags);
      if events[fd].sFlags * flags == {} {
        return Some(0);
      }
      ghost var f := events[fd].sFlags - flags;
      MirrorAt(was, readset, writeset, fd);
      readset := if In in flags then readset - {fd} else readset;
      writeset := if Out in flags then writeset - {fd} else writeset;
      MirrorPut(was, old(readset), old(writeset), fd, f, readset, writeset);
      ViewUpdate(events, fd, events[fd].(sFlags := f));
      ClrPut(was, fd, flags);
      events := events[fd := events[fd].(sFlags := events[fd].sFlags - flags)];
      var inside := ScanDown();
      return if inside then Some(0) else None;
    }

    // The loop of clr, up to the first entry in front of the table.
    method ScanDown() returns (inside: bool)
      requires -1 <= maxfd < |events| && forall fd <- View() :: fd <= maxfd
      modifies this`maxfd
      ensures -1 <= maxfd <= old(maxfd) && (forall fd <- View() :: fd <= maxfd)
      ensures (inside <==> View() != map[]) && (inside <==> maxfd >= 0) && (inside ==> maxfd in View())
    {
      while maxfd >= 0 && events[maxfd].sFlags == {}
        invariant -1 <= maxfd <= old(maxfd) && forall fd <- View() :: fd <= maxfd
      {
        assert maxfd !in View();
        maxfd := maxfd - 1;
      }
      inside := maxfd >= 0;
      assert inside ==> maxfd in View();
    }

    // The loop of wait: it stops once as many descriptors are found as select counted bits.
    method CollectReady(rset: set<nat>, wset: set<nat>) returns (ready: seq<nat>)
      requires Usable()
      modifies this`events
      ensures Usable() && View() == old(View())
      ensures DataSet(old(events), events, 0, true, 0)
      ensures ready == ReadyUpTo(rset, wset, maxfd + 1)
      ensures forall fd <- ready :: fd < |events| && events[fd].events == Bits(rset, wset, fd)
    {
      hide ViewOf, MarkReady, Bits, Table, Mirror, DataOf, DataSet;
      NoDataSet(events);
      var ret := |rset| + |wset|;
      var i := 0;
      ready := [];
      while i <= maxfd && |ready| < ret
        invariant 0 <= i <= maxfd + 1
        invariant Usable() && View() == old(View()) && DataSet(old(events), events, 0, true, 0)
        invariant ready == ReadyUpTo(rset, wset, i)
        invariant forall fd | 0 <= fd < i :: events[fd].events == Bits(rset, wset, fd)
        invariant forall fd <- ready :: fd < i
      {
        DataKept(old(events), events, MarkReady(events, i, Bits(rset, wset, i)));
        events := MarkReady(events, i, Bits(rset, wset, i));
        if events[i].events != {} {
          ready := ready + [i];
        }
        i := i + 1;
      }
      NothingLeft(rset, wset, i, maxfd + 1);
    }

    // Every ready descriptor once, in ascending order, with its bits. The list holds the positions
    // in the table of the entries that fde_select.cpp points to.
    method Wait(result: Selected) returns (ok: bool, ready: seq<nat>)
      requires Usable()
      requires result.Ready? ==> result.rset <= readset && result.wset <= writeset
      modifies this`events
      ensures Usable() && View() == old(View())
      ensures DataSet(old(events), events, 0, true, 0)
      ensures ok <==> result != Failed
      ensures !result.Ready? ==> ready == []
      ensures result.Ready? ==> forall fd :: fd in ready <==> fd in result.rset + result.wset
      ensures forall i, j | 0 <= i < j < |ready| :: ready[i] < ready[j]
      ensures forall fd <- ready ::
                && fd < |events| && events[fd].events <= {In, Out}
                && (In in events[fd].events <==> fd in result.rset)
                && (Out in events[fd].events <==> fd in result.wset)
    {
      hide ViewOf, Bits, Table, ReadyUpTo, DataOf;
      if result == Interrupted {
        return true, [];
      }
      if result == Failed {
        return false, [];
      }
      WatchedBelow(View(), readset, writeset);
      ReadyIs(result.rset, result.wset, maxfd + 1);
      hide Mirror;
      ready := CollectReady(result.rset, result.wset);
      forall fd: nat ensures Bits(result.rset, result.wset, fd) <= {In, Out}
        ensures In in Bits(result.rset, result.wset, fd) <==> fd in result.rset
        ensures Out in Bits(result.rset, result.wset, fd) <==> fd in result.wset
      {
        BitsAre(result.rset, result.wset, fd);
      }
      ok := true;
    }
  }

  // The last subscription cleared: the scan for the new maxfd leaves the table.
  method ClrExample() returns (s: Select, ret: Option<int>)
    ensures fresh(s) && ret == None && s.View() == map[]
  {
    s := new Select();
    var _ := s.Set(7, {In}, 0);
    assert {} + {In} == {In} && SetSub(map[], 7, {In}) == map[7 := {In}];
    ret := s.Clr(7, {In});
  }

  // An empty mask: nothing is subscribed, and maxfd is 7.
  method RaisedMaxfdExample() returns (s: Select)
    ensures fresh(s) && s.View() == map[] && s.maxfd == 7
  {
    s := new Select();
    var _ := s.Set(7, {}, 0);
  }

  // ---------- What wait has to return ----------

  function Bits(rset: set<nat>, wset: set<nat>, fd: nat): Flags {
    (if fd in rset then {In} else {}) + (if fd in wset then {Out} else {})
  }

  // The ready descriptors below n, from the smallest.
  function ReadyUpTo(rset: set<nat>, wset: set<nat>, n: nat): seq<nat> {
    if n == 0 then []
    else ReadyUpTo(rset, wset, n - 1) + if Bits(rset, wset, n - 1) != {} then [n - 1] else []
  }

  lemma {:induction false} BitsAre(rset: set<nat>, wset: set<nat>, fd: nat)
    ensures Bits(rset, wset, fd) <= {In, Out}
    ensures (In in Bits(rset, wset, fd) <==> fd in rset) && (Out in Bits(rset, wset, fd) <==> fd in wset)
  {
  }

  lemma {:induction false} BitsReady(rset: set<nat>, wset: set<nat>, fd: nat)
    ensures Bits(rset, wset, fd) != {} <==> fd in rset + wset
  {
    assert fd in rset ==> In in Bits(rset, wset, fd);
    assert fd in wset ==> Out in Bits(rset, wset, fd);
  }

  // The list is in ascending order and holds exactly the ready descriptors below n.
  lemma {:induction false} ReadyIs(rset: set<nat>, wset: set<nat>, n: nat)
    ensures var r := ReadyUpTo(rset, wset, n);
            && (forall i, j | 0 <= i < j < |r| :: r[i] < r[j])
            && forall fd :: fd in r <==> fd < n && fd in rset + wset
  {
    if n > 0 {
      ReadyIs(rset, wset, n - 1);
      BitsReady(rset, wset, n - 1);
      SnocAscends(ReadyUpTo(rset, wset, n - 1), n - 1);
    }
  }

  lemma {:induction false} SnocAscends(r: seq<nat>, x: nat)
    requires (forall i, j | 0 <= i < j < |r| :: r[i] < r[j]) && forall y <- r :: y < x
    ensures var r' := r + [x];
            (forall i, j | 0 <= i < j < |r'| :: r'[i] < r'[j]) && forall y :: y in r' <==> y in r || y == x
    ensures r + [] == r
  {
    var r' := r + [x];
    forall i, j | 0 <= i < j < |r'| ensures r'[i] < r'[j] {
      assert i < |r| && r[i] in r;
    }
  }

  // Counting: the list up to n is as long as the set of ready descriptors below n is large.
  lemma {:induction false} ReadySize(rset: set<nat>, wset: set<nat>, n: nat) returns (below: set<nat>)
    ensures |ReadyUpTo(rset, wset, n)| == |below|
    ensures forall fd :: fd in below <==> fd in rset + wset && fd < n
  {
    below := {};
    if n > 0 {
      below := ReadySize(rset, wset, n - 1);
      BitsReady(rset, wset, n - 1);
      below := below + if n - 1 in rset + wset then {n - 1} else {};
    }
  }

  lemma {:induction false} UnionSize(a: set<nat>, b: set<nat>)
    ensures |a + b| <= |a| + |b|
  {
    assert a + b == a + (b - a) && b == (b - a) + (b * a);
    assert |a + b| == |a| + |b - a| && |b| == |b - a| + |b * a|;
  }

  lemma {:induction false} FullSubset(a: set<nat>, b: set<nat>)
    requires a <= b && |a| >= |b|
    ensures a == b
  {
    assert b == a + (b - a);
    assert |b| == |a| + |b - a|;
  }

  lemma {:induction false} NoMore(rset: set<nat>, wset: set<nat>, i: nat, n: nat)
    requires i <= n && forall fd <- rset + wset :: fd < i
    ensures ReadyUpTo(rset, wset, n) == ReadyUpTo(rset, wset, i)
  {
    if i < n {
      NoMore(rset, wset, i, n - 1);
      BitsReady(rset, wset, n - 1);
    }
  }

  // Whichever way the loop ends, nothing ready is left behind: select counted every bit, so its
  // count is no smaller than the number of ready descriptors.
  lemma {:induction false} NothingLeft(rset: set<nat>, wset: set<nat>, i: nat, n: nat)
    requires i <= n && (i == n || |ReadyUpTo(rset, wset, i)| >= |rset| + |wset|)
    ensures ReadyUpTo(rset, wset, i) == ReadyUpTo(rset, wset, n)
  {
    if i < n {
      var below := ReadySize(rset, wset, i);
      UnionSize(rset, wset);
      FullSubset(below, rset + wset);
      NoMore(rset, wset, i, n);
    }
  }
}
