// The connection object of link.h and link.cpp over a scripted socket.
module Links {
  import opened Octets
  import opened Wire
  import opened Buffers
  import opened Sockets
  import opened Responses

  // A Bytes object: `len` bytes of the input buffer's array from index `start` on.
  datatype View = View(start: nat, len: nat)

  predicate InRange(total: nat, vs: seq<View>) {
    forall i | 0 <= i < |vs| :: vs[i].start + vs[i].len <= total
  }

  function Resolve(a: Octets, vs: seq<View>): (p: Packet)
    requires InRange(|a|, vs)
    ensures |p| == |vs|
  {
    seq(|vs|, i requires 0 <= i < |vs| => a[vs[i].start..vs[i].start + vs[i].len])
  }

  // The index of the first line feed of a[from..from + n], or -1.
  method Memchr(a: array<Byte>, from: nat, n: nat) returns (r: int)
    requires from + n <= a.Length
    ensures var k := FindLF(a[from..from + n]); r == if k == n then -1 else from + k
  {
    ghost var s := a[from..from + n];
    for k := 0 to n
      invariant LF !in s[..k]
    {
      assert a[from + k] == s[k];
      if a[from + k] == LF {
        assert s == s[..k] + [LF] + s[k + 1..];
        FirstLF(s[..k], s[k + 1..]);
        return from + k;
      }
      assert s[..k + 1] == s[..k] + [s[k]];
    }
    assert s[..n] == s;
    NoLF(s);
    return -1;
  }

  // What one pass of the record loop of parse decides on: wait for more bytes, refuse the
  // input, end the packet after n bytes, or take the argument v and step over n bytes.
  datatype Step = Wait | Bad | End(n: nat) | Take(v: View, n: nat)

  lemma {:induction false} SliceOfSlice(a: array<Byte>, from: nat, n: nat, i: nat, j: nat)
    requires from + n <= a.Length && i <= j <= n
    ensures a[from..from + n][i..j] == a[from + i..from + j]
  {
    var t, u := a[from..from + n][i..j], a[from + i..from + j];
    assert forall k | 0 <= k < j - i :: t[k] == u[k];
  }

  lemma {:induction false} SliceTail(a: array<Byte>, from: nat, n: nat, i: nat)
    requires from + n <= a.Length && i <= n
    ensures a[from..from + n][i..] == a[from + i..from + n]
  {
    var t, u := a[from..from + n][i..], a[from + i..from + n];
    assert forall k | 0 <= k < n - i :: t[k] == u[k];
  }

  // Length of the line end at a[q], with `left` bytes to look at.
  method LineEnd(a: array<Byte>, q: nat, left: nat) returns (n: nat)
    requires q + left <= a.Length
    ensures n == EolLength(a[q..q + left]) && n <= left
  {
    if left > 0 && a[q] == LF {
      return 1;
    } else if left > 1 && a[q] == CR && a[q + 1] == LF {
      return 2;
    }
    return 0;
  }

  // r is what one pass of the record loop decides on the bytes `rest`, `parsed` bytes into the input.
  ghost predicate Decides(a: Octets, rest: Octets, parsed: nat, r: Step) {
    match r
    case Wait => ParseFrom(rest, parsed) == NotReady
    case Bad => ParseFrom(rest, parsed) == Malformed
    case End(n) => n <= |rest| && ParseFrom(rest, parsed) == Ready([], parsed + n)
    case Take(v, n) =>
      v.start + v.len <= |a| && 0 < n <= |rest| &&
      ParseFrom(rest, parsed) == Prepend([a[v.start..v.start + v.len]], ParseFrom(rest[n..], parsed + n))
  }

  // The part of the loop body behind the head, which announces bodyLen bytes.
  method NextBody(a: array<Byte>, head: nat, size: nat, parsed: nat, headLen: nat, bodyLen: nat) returns (r: Step)
    requires 1 < headLen <= size && headLen <= MAX_HEAD && head + size <= a.Length
    requires var rest := a[head..head + size];
             FindLF(rest) == headLen - 1 && IsDigit(rest[0]) && Atoi(rest[..headLen - 1]) == bodyLen
    ensures Decides(a[..], a[head..head + size], parsed, r)
  {
    hide FindLF, Atoi, ParseFrom, Prepend, EolLength;
    ghost var rest := a[head..head + size];
    var left := size - (headLen + bodyLen);
    if left < 0 {
      ParseWaits(rest, parsed, headLen - 1, headLen + bodyLen);
      return Wait;
    }
    var v := View(head + headLen, bodyLen);
    var q := head + headLen + bodyLen;
    SliceOfSlice(a, head, size, headLen, headLen + bodyLen);
    SliceTail(a, head, size, headLen + bodyLen);
    var eol := LineEnd(a, q, left);
    if eol == 0 {
      ParseWaits(rest, parsed, headLen - 1, headLen + bodyLen);
      return Wait;
    }
    var n := headLen + bodyLen + eol;
    ParseStep(rest, parsed, headLen - 1, headLen + bodyLen, n);
    if parsed + n > MAX_PACKET_SIZE {
      return Bad;
    }
    return Take(v, n);
  }

  // The body of the record loop on the bytes a[head..head + size], `parsed` bytes into the input.
  method NextRecord(a: array<Byte>, head: nat, size: nat, parsed: nat) returns (r: Step)
    requires size > 0 && head + size <= a.Length
    ensures Decides(a[..], a[head..head + size], parsed, r)
  {
    hide FindLF, Atoi, ParseFrom, Prepend, EolLength;
    ghost var rest := a[head..head + size];
    assert rest[0] == a[head];
    var body := Memchr(a, head, size);
    if body == -1 {
      ParseUnended(rest, parsed);
      return Wait;
    }
    body := body + 1;
    var headLen := body - head;
    if headLen == 1 || (headLen == 2 && a[head] == CR) {
      ParseEnd(rest, parsed);
      return End(headLen);
    }
    if !IsDigit(a[head]) || headLen > MAX_HEAD {
      ParseBadHead(rest, parsed, headLen - 1);
      return Bad;
    }
    SliceOfSlice(a, head, size, 0, headLen - 1);
    var bodyLen := Atoi(a[head..body - 1]);
    if bodyLen < 0 {
      ParseBadHead(rest, parsed, headLen - 1);
      return Bad;
    }
    r := NextBody(a, head, size, parsed, headLen, bodyLen);
  }

  // How many blank bytes stand in front.
  method SkipBlanks(a: array<Byte>, off: nat, total: nat) returns (k: nat)
    requires off + total <= a.Length
    ensures k == SkipBlank(a[off..off + total])
  {
    ghost var s := a[off..off + total];
    k := 0;
    while k < total && IsBlank(a[off + k])
      invariant k <= total && Blank(s[..k])
    {
      assert s[..k + 1] == s[..k] + [s[k]];
      k := k + 1;
    }
    SkipBlankExact(s[..k], s[k..]);
    assert s == s[..k] + s[k..];
  }

  // The arguments taken so far, and what is left to parse.
  ghost predicate Partway(a: Octets, s: Octets, vs: seq<View>, parsed: nat) {
    && parsed <= |s| && InRange(|a|, vs)
    && Wire.Parse(s) == Prepend(Resolve(a, vs), ParseFrom(s[parsed..], parsed))
  }

  lemma {:induction false} PartwayStart(a: Octets, s: Octets)
    ensures Partway(a, s, [], SkipBlank(s))
  {
    hide Wire.Parse, ParseFrom;
    ParseFromBlank(s);
    assert Resolve(a, []) == [];
  }

  // What one more pass means for the whole.
  lemma {:induction false} PartwayStep(a: Octets, s: Octets, vs: seq<View>, parsed: nat, r: Step)
    requires Partway(a, s, vs, parsed) && Decides(a, s[parsed..], parsed, r)
    ensures match r
            case Wait => Wire.Parse(s) == NotReady
            case Bad => Wire.Parse(s) == Malformed
            case End(n) => parsed + n <= |s| && Wire.Parse(s) == Ready(Resolve(a, vs), parsed + n)
            case Take(v, n) => 0 < n <= |s| - parsed && Partway(a, s, vs + [v], parsed + n)
  {
    hide Wire.Parse, ParseFrom;
    match r
    case Wait =>
    case Bad =>
    case End(n) =>
      assert Resolve(a, vs) + [] == Resolve(a, vs);
    case Take(v, n) =>
      TakeView(a, s, vs, v, parsed, n);
  }

  lemma {:induction false} TakeView(a: Octets, s: Octets, vs: seq<View>, v: View, parsed: nat, n: nat)
    requires InRange(|a|, vs) && v.start + v.len <= |a| && parsed + n <= |s|
    requires Wire.Parse(s) == Prepend(Resolve(a, vs), ParseFrom(s[parsed..], parsed))
    requires ParseFrom(s[parsed..], parsed) ==
             Prepend([a[v.start..v.start + v.len]], ParseFrom(s[parsed..][n..], parsed + n))
    ensures InRange(|a|, vs + [v])
    ensures Wire.Parse(s) == Prepend(Resolve(a, vs + [v]), ParseFrom(s[parsed + n..], parsed + n))
  {
    hide Wire.Parse, ParseFrom;
    assert Resolve(a, vs + [v]) == Resolve(a, vs) + [a[v.start..v.start + v.len]];
    assert s[parsed..][n..] == s[parsed + n..];
  }

  lemma {:induction false} PartwayEnd(a: Octets, s: Octets, vs: seq<View>)
    requires Partway(a, s, vs, |s|)
    ensures Wire.Parse(s) == NotReady
  {
    hide Wire.Parse;
    assert s[|s|..] == [];
    ParseNoLF([], |s|);
  }

  // The two loops of parse on the pending bytes a[off..off + total]: the verdict, with the
  // number of bytes it covers, and the arguments found.
  method Scan(a: array<Byte>, off: nat, total: nat) returns (r: Step, vs: seq<View>)
    requires off + total <= a.Length
    ensures !r.Take? && InRange(a.Length, vs)
    ensures var s := a[off..off + total];
            match Wire.Parse(s)
            case Ready(args, n) => r == End(n) && n <= total && Resolve(a[..], vs) == args
            case Malformed => r == Bad
            case NotReady => r == Wait
  {
    hide Wire.Parse, SkipBlank, Resolve, Decides, Partway, InRange;
    ghost var s := a[off..off + total];
    var parsed := SkipBlanks(a, off, total);
    var size, head := total - parsed, off + parsed;
    vs := [];
    PartwayStart(a[..], s);
    while size > 0
      invariant head == off + parsed && parsed + size == total && 0 <= size
      invariant 0 <= parsed <= |s| && Partway(a[..], s, vs, parsed)
    {
      SliceTail(a, off, total, parsed);
      r := NextRecord(a, head, size, parsed);
      PartwayStep(a[..], s, vs, parsed, r);
      PartwayRange(a[..], s, vs, parsed);
      match r
      case Wait => return;
      case Bad => return;
      case End(n) =>
        r := End(parsed + n);
        return;
      case Take(v, n) =>
        vs := vs + [v];
        head, size, parsed := head + n, size - n, parsed + n;
    }
    PartwayRange(a[..], s, vs, parsed);
    PartwayEnd(a[..], s, vs);
    return Wait, vs;
  }

  lemma {:induction false} PartwayRange(a: Octets, s: Octets, vs: seq<View>, parsed: nat)
    requires Partway(a, s, vs, parsed)
    ensures InRange(|a|, vs)
  {
  }

  // One read(2) into the free end of a buffer.
  method Receive(input: Buffer, sock: Socket) returns (r: Reply)
    requires input.Valid() && input.Space() > 0
    modifies input`size, input.buf, sock`inbound, sock`script
    ensures input.Valid() && r == Answer(old(sock.script), old(input.Space()), Reading(|old(sock.inbound)|))
    ensures var n := if r.Moved? then r.n else 0;
            && n <= |old(sock.inbound)| && sock.inbound == old(sock.inbound)[n..]
            && sock.script == Rest(old(sock.script))
            && input.Contents() == old(input.Contents()) + old(sock.inbound)[..n]
  {
    hide Splice, Answer, Rest, Buffer.Contents;
    ghost var pend, inb, at := input.Contents(), sock.inbound, input.off + input.size;
    input.ContentsAre();
    r := sock.SysRead(input.buf, input.off + input.size, input.Space());
    var n := if r.Moved? then r.n else 0;
    SpliceWindow(old(input.buf[..]), input.off, at, inb[..n]);
    assert input.buf[..][input.off..at + n] == pend + inb[..n];
    input.Incr(n);
    input.ContentsAre();
  }

  class Link {
    const noblock: bool
    const sock: Socket
    const input: Buffer
    const output: Buffer
    var recvData: seq<View>

    ghost predicate Valid()
      reads input, output
    {
      && input != output && input.buf != output.buf
      && input.Valid() && input.buf.Length >= INIT_BUFFER_SIZE
      && output.Valid() && output.buf.Length >= INIT_BUFFER_SIZE
    }

    // Everything the link changes.
    ghost function Repr(): set<object>
      reads input, output
    {
      {this, sock, input, output, input.buf, output.buf}
    }

    // The bytes this side has received or can still receive.
    ghost function Incoming(): Octets
      requires Valid()
      reads sock, input, output, input.buf
    {
      input.Contents() + sock.inbound
    }

    // The bytes this side has given to the kernel or will.
    ghost function Outgoing(): Octets
      requires Valid()
      reads sock, input, output, output.buf
    {
      sock.outbound + output.Contents()
    }

    constructor (sock: Socket, noblock: bool)
      ensures Valid() && this.sock == sock && this.noblock == noblock && recvData == []
      ensures fresh(input) && fresh(output) && fresh(input.buf) && fresh(output.buf)
      ensures input.Contents() == [] && output.Contents() == []
      ensures input.buf.Length == output.buf.Length == 1024 && input.off == output.off == 0
    {
      this.sock, this.noblock := sock, noblock;
      input := new Buffer(INIT_BUFFER_SIZE);
      output := new Buffer(INIT_BUFFER_SIZE);
      recvData := [];
    }

    // The receiving end, as a value.
    ghost function In(): (p: Pipe)
      requires Valid()
      reads sock, input, output, input.buf
      ensures p.Valid() && p.Stream() == Incoming()
    {
      Pipe(input.buf.Length, input.off, input.Contents(), sock.inbound, sock.script)
    }

    // The sending end, as a value.
    ghost function Out(): Outflow
      requires Valid()
      reads sock, input, output, output.buf
    {
      Outflow(output.Contents(), sock.outbound, sock.script)
    }

    // One read(2) into the free end of the input.
    method ReadOnce() returns (r: Reply)
      requires Valid() && input.Space() > 0
      modifies input`size, input.buf, sock`inbound, sock`script
      ensures Valid() && r == Answer(old(sock.script), old(input.Space()), Reading(|old(sock.inbound)|))
      ensures var n := if r.Moved? then r.n else 0; n <= |old(sock.inbound)| && In() == old(In()).Received(n, 1)
    {
      hide Answer, Pipe.Received, Rest, Buffer.Contents;
      ghost var p := In();
      r := Receive(input, sock);
      ReceivedOnce(p, if r.Moved? then r.n else 0);
    }

    // Where read starts: the buffer leaves its first size, and is compacted.
    method Widen()
      requires Valid()
      modifies input, input.buf
      ensures Valid() && In() == old(In()).Widened() && (input.buf == old(input.buf) || fresh(input.buf))
    {
      hide Compacted;
      if input.buf.Length == INIT_BUFFER_SIZE {
        var _ := input.Grow();
      }
      input.Nice();
    }

    // The loop of read.
    method ReadLoop() returns (ret: int)
      requires Valid()
      modifies input`size, input.buf, sock`inbound, sock`script
      ensures Valid()
      ensures var w := old(In());
              var t := Answers(w.script, w.Space(), Reading(|w.inbound|), noblock);
              Through(w, In(), t, noblock) && ret == ReadResult(t)
    {
      hide Answers, Answer, Total, Pipe.Received, ReadResult, Underway, Buffer.Contents;
      ghost var w, done := In(), [];
      UnderwayStart(w, noblock);
      ret := 0;
      while input.Space() > 0
        invariant Valid() && Underway(w, In(), done, noblock) && ret == Total(done)
        decreases In().Bound()
      {
        UnderwayStep(w, In(), done, noblock);
        var len := ReadOnce();
        done := done + [len];
        match len
        case Interrupted => continue;
        case Again => break;
        case Failed => return -1;
        case Moved(n) =>
          if n == 0 {
            return 0;
          }
          ret := ret + n;
        if !noblock {
          break;
        }
      }
      UnderwayEnd(w, In(), done, noblock);
    }

    // Moves bytes from the kernel to the end of the input, as many as the kernel answers.
    method Read() returns (ret: int)
      requires Valid()
      modifies input, input.buf, sock`inbound, sock`script
      ensures Valid() && (input.buf == old(input.buf) || fresh(input.buf))
      ensures In() == old(In()).Fed(noblock) && ret == ReadResult(old(In()).Heard(noblock))
      ensures Incoming() == old(Incoming()) && old(input.Contents()) <= input.Contents()
      ensures input.buf.Length == if old(input.buf.Length) == 1024 then 8192 else old(input.buf.Length)
      ensures input.off == if old(input.off) > input.buf.Length / 2 then 0 else old(input.off)
      ensures ReadsPlainly(old(In()), In(), ret, noblock)
      ensures old(sock.script) == [] ==>
                ret == Least(input.buf.Length - input.off - old(input.size), |old(sock.inbound)|)
    {
      hide Answers, Total, Pipe.Widened, Pipe.Received, Pipe.Fed, Pipe.Heard, ReadResult, Through, ReadsPlainly;
      hide Buffer.Contents;
      ghost var p := In();
      FedFacts(p, noblock);
      ReadPlain(p, noblock);
      Widen();
      ret := ReadLoop();
      ThroughIsFed(p, In(), noblock);
    }

    // One write(2) of everything pending.
    method WriteOnce() returns (r: Reply)
      requires Valid() && output.size > 0
      modifies output`size, output`off, sock`outbound, sock`script
      ensures Valid() && r == Answer(old(sock.script), old(output.size), Writing)
      ensures var n := if r.Moved? then r.n else 0;
              && n <= old(output.size) && Out() == old(Out()).Sent(n, 1) && output.off == old(output.off) + n
              && output.size == old(output.size) - n
    {
      hide Answer;
      var data := output.buf[output.off..output.off + output.size];
      r := sock.SysWrite(data);
      output.Decr(if r.Moved? then r.n else 0);
      AfterOne(old(sock.script));
    }

    // The loop of write.
    method WriteLoop() returns (ret: int)
      requires Valid()
      modifies output`size, output`off, sock`outbound, sock`script
      ensures Valid() && output.off + output.size == old(output.off + output.size)
      ensures var t := Answers(old(sock.script), old(output.size), Writing, noblock);
              Drained(old(Out()), Out(), t, noblock) && ret == WriteResult(t)
    {
      hide Answers, Answer, Total, Outflow.Sent, WriteResult, Draining, Buffer.Contents;
      ghost var w, done := Out(), [];
      DrainingStart(w, noblock);
      ret := 0;
      while output.size > 0
        invariant Valid() && output.off + output.size == old(output.off + output.size)
        invariant Draining(w, Out(), done, noblock) && 0 <= ret == Total(done)
        decreases |sock.script| + output.size
      {
        DrainingStep(w, Out(), done, noblock);
        var len := WriteOnce();
        done := done + [len];
        match len
        case Interrupted => continue;
        case Again => break;
        case Failed => return -1;
        case Moved(n) =>
          if n == 0 {
            break;
          }
          ret := ret + n;
        if !noblock {
          break;
        }
      }
      DrainingEnd(w, Out(), done, noblock);
    }

    // Where write starts: the buffer leaves its first size.
    method WidenOut()
      requires Valid()
      modifies output`buf
      ensures Valid() && Out() == old(Out()) && (output.buf == old(output.buf) || fresh(output.buf))
      ensures output.buf.Length == if old(output.buf.Length) == 1024 then 8192 else old(output.buf.Length)
    {
      if output.buf.Length == INIT_BUFFER_SIZE {
        var _ := output.Grow();
      }
    }

    // Moves bytes from the front of the output to the kernel, as many as it answers.
    method Write() returns (ret: int)
      requires Valid()
      modifies output, output.buf, sock`outbound, sock`script
      ensures Valid() && (output.buf == old(output.buf) || fresh(output.buf))
      ensures var t := Answers(old(sock.script), old(output.size), Writing, noblock);
              && ret == WriteResult(t) == (if t != [] && t[|t| - 1] == Failed then -1 else Total(t))
              && Total(t) <= old(output.size) && Out() == old(Out()).Sent(Total(t), |t|)
              && sock.script == After(old(sock.script), |t|) && |sock.outbound| == |old(sock.outbound)| + Total(t)
              && output.size == old(output.size) - Total(t)
      ensures old(sock.script) == [] ==> ret == old(output.size) && output.size == 0
      ensures output.buf.Length == if old(output.buf.Length) == 1024 then 8192 else old(output.buf.Length)
      ensures old(sock.outbound) <= sock.outbound
      ensures Outgoing() == old(Outgoing()) && output.off + output.size <= old(output.off + output.size)
    {
      hide Answers, Total, WriteResult, Compacted, Drained, Outflow.Sent, Buffer.Contents;
      WriteLast(sock.script, output.size, noblock);
      ghost var w, t := Out(), Answers(sock.script, output.size, Writing, noblock);
      WidenOut();
      ret := WriteLoop();
      DrainedFacts(w, Out(), t, noblock);
      if ret != -1 {
        output.Nice();
      }
    }

    // Writes until nothing is left or the kernel reports an error.
    method Flush() returns (ret: int)
      requires Valid()
      modifies output, output.buf, sock`outbound, sock`script
      ensures Valid() && (output.buf == old(output.buf) || fresh(output.buf))
      ensures (Out(), ret == -1) == Flushed(old(Out()))
      ensures ret != -1 ==> output.Contents() == [] && ret == |sock.outbound| - |old(sock.outbound)|
      ensures Outgoing() == old(Outgoing())
    {
      hide Answers, Total, Outflow.Sent, Buffer.Contents, Flushed;
      ghost var w := Out();
      ret := 0;
      while output.size > 0
        invariant Valid() && (output.buf == old(output.buf) || fresh(output.buf))
        invariant Outgoing() == old(Outgoing()) && Flushed(Out()) == Flushed(w)
        invariant ret == |sock.outbound| - |old(sock.outbound)|
        decreases |sock.script| + output.size
      {
        WriteOfFlush(Out(), noblock);
        WriteGoesOn(sock.script, output.size, noblock);
        var n := Write();
        if n == -1 {
          return -1;
        }
        ret := ret + n;
      }
      FlushedNothing(Out());
    }

    // A full input is compacted, and grown if that gives no room.
    method MakeRoom() returns (ok: bool)
      requires Valid()
      modifies input, input.buf
      ensures Valid() && (input.buf == old(input.buf) || fresh(input.buf))
      ensures input.Contents() == old(input.Contents())
      ensures ok <==> input.Space() > 0
      ensures In() == old(In()).Roomy()
      ensures old(input.Space()) > 0 ==> input.off == old(input.off) && input.buf == old(input.buf)
      ensures old(input.Space()) == 0 && old(input.off) > old(input.buf.Length) / 2 ==>
                input.off == 0 && input.buf == old(input.buf)
      ensures old(input.Space()) == 0 && old(input.off) <= old(input.buf.Length) / 2 ==>
                var n := old(input.buf.Length);
                var next := if n < 8192 then 8192 else if n < 524288 then 8 * n else 2 * n;
                input.off == old(input.off) && input.buf.Length == if next > 2147483647 then n else next
    {
      hide Compacted;
      if input.Space() == 0 {
        input.Nice();
        if input.Space() == 0 {
          var r := input.Grow();
          if r == -1 {
            return false;
          }
        }
      }
      return true;
    }

    // Takes the first bytes off the input, which stay where they are in the array.
    method StepOver(n: nat)
      requires Valid() && n <= input.size
      modifies input`off, input`size
      ensures Valid() && In() == old(In()).(off := old(In()).off + n, pend := old(In()).pend[n..])
      ensures input.Contents() == old(input.Contents())[n..]
      ensures input.buf == old(input.buf) && input.buf[..] == old(input.buf[..])
    {
      hide Buffer.Contents;
      input.Decr(n);
    }

    // The verdict, and the arguments found, are those of the pending bytes.
    ghost predicate Decided(verdict: Step)
      requires Valid()
      reads this, input, output, input.buf
    {
      && InRange(input.buf.Length, recvData)
      && match Wire.Parse(input.Contents())
         case Ready(args, n) => verdict == End(n) && n <= input.size && Resolve(input.buf[..], recvData) == args != []
         case Malformed => verdict == Bad
         case NotReady => verdict == Wait
    }

    // What parse does about its verdict.
    method Conclude(verdict: Step) returns (ok: bool)
      requires Valid() && input.size > 0 && Decided(verdict) && !verdict.Take?
      modifies this`recvData, input, input.buf
      ensures Valid() && (input.buf == old(input.buf) || fresh(input.buf))
      ensures (In(), ok) == old(In()).Parsed()
      ensures var s := old(input.Contents());
              match Wire.Parse(s)
              case Ready(args, n) =>
                ok && args != [] && n <= |s| && input.Contents() == s[n..] &&
                input.buf == old(input.buf) && input.buf[..] == old(input.buf[..]) &&
                InRange(input.buf.Length, recvData) && Resolve(input.buf[..], recvData) == args
              case Malformed => !ok && input.Contents() == s
              case NotReady =>
                && input.Contents() == s
                && (ok ==> recvData == [] && (input.Space() > 0 || input.size == 0))
    {
      hide Wire.Parse, Resolve, InRange, Buffer.Contents;
      hide Pipe.Roomy, Pipe.Widened, Pipe.Parsed, Pipe.Full;
      ParsedCases(In());
      match verdict
      case Bad =>
        return false;
      case End(parsed) =>
        StepOver(parsed);
        return true;
      case Wait =>
        recvData := [];
        ok := MakeRoom();
    }

    // Takes the next packet off the front of the input. false stands for NULL; true with an
    // empty recvData for "not ready".
    method Parse() returns (ok: bool)
      requires Valid()
      modifies this`recvData, input, input.buf
      ensures Valid() && (input.buf == old(input.buf) || fresh(input.buf))
      ensures (In(), ok) == old(In()).Parsed()
      ensures var s := old(input.Contents());
              match Wire.Parse(s)
              case Ready(args, n) =>
                ok && args != [] && n <= |s| && input.Contents() == s[n..] &&
                input.buf == old(input.buf) && input.buf[..] == old(input.buf[..]) &&
                InRange(input.buf.Length, recvData) && Resolve(input.buf[..], recvData) == args
              case Malformed => !ok && input.Contents() == s
              case NotReady =>
                && input.Contents() == s
                && (ok ==> recvData == [] && (input.Space() > 0 || input.size == 0))
    {
      hide Wire.Parse, FindLF, ParseFrom, SkipBlank, Resolve, InRange;
      hide Pipe.Roomy, Pipe.Widened, Pipe.Parsed, Pipe.Full;
      recvData := [];
      ghost var s := input.Contents();
      assert s == input.buf[input.off..input.off + input.size] && In() == old(In());
      hide Buffer.Contents, Link.In, Pipe.Space;
      if input.size == 0 {
        ParsedCases(In());
        ParseEmpty();
        return true;
      }
      var verdict;
      verdict, recvData := Scan(input.buf, input.off, input.size);
      if verdict.End? {
        ParseNonempty(s);
      }
      ok := Conclude(verdict);
    }

    // send(vector<Bytes>) and the fixed-arity overloads. The results of the appends are ignored:
    // a record that does not fit is left out, and the ones behind it may still be written.
    method Send(p: Packet)
      requires Valid() && forall i | 0 <= i < |p| :: |p[i]| <= INT_MAX - 17
      modifies output, output.buf
      ensures Valid() && (output.buf == old(output.buf) || fresh(output.buf)) && output.off == old(output.off)
      ensures output.Contents() ==
              old(output.Contents()) + Written(p, old(output.off + output.size), Limit(old(output.buf.Length)))
    {
      hide Record, Limit, Written, Max, Buffer.Contents;
      ghost var was, used, limit := output.Contents(), output.off + output.size, Limit(output.buf.Length);
      for i := 0 to |p|
        invariant Valid() && (output.buf == old(output.buf) || fresh(output.buf)) && output.off == old(output.off)
        invariant Limit(output.buf.Length) == limit
        invariant output.Contents() + Written(p[i..], output.off + output.size, limit) ==
                  was + Written(p, used, limit)
      {
        ghost var before := output.Contents();
        WrittenStep(before, p[i..], output.off + output.size, limit);
        assert p[i..][1..] == p[i + 1..];
        var _ := output.AppendRecord(p[i]);
      }
      WrittenEnd(output.off + output.size, limit);
      var _ := output.Append([LF]);
    }

    // send(vector<string>) writes nothing at all for an empty packet.
    method SendStrings(p: Packet)
      requires Valid() && forall i | 0 <= i < |p| :: |p[i]| <= INT_MAX - 17
      modifies output, output.buf
      ensures Valid() && (output.buf == old(output.buf) || fresh(output.buf)) && output.off == old(output.off)
      ensures output.Contents() == old(output.Contents()) +
              if p == [] then [] else Written(p, old(output.off + output.size), Limit(old(output.buf.Length)))
    {
      if p != [] {
        Send(p);
      }
    }

    // Reads until a packet is there, parse fails or read brings nothing. It gives up only on
    // malformed input, on a full buffer that cannot grow, or because the kernel gave up.
    method Response() returns (ok: bool)
      requires Valid()
      modifies this`recvData, input, input.buf, sock`inbound, sock`script
      ensures Valid() && (input.buf == old(input.buf) || fresh(input.buf))
      ensures (In(), ok) == Answered(old(In()), noblock) && IsRest(old(sock.script), sock.script)
      ensures !ok ==> Incoming() == old(Incoming())
      ensures !ok ==> var used := Used(old(sock.script), sock.script);
                      Wire.Parse(input.Contents()) == Malformed || In().Full() || GaveUp(used, In())
      ensures ok ==> InRange(input.buf.Length, recvData) && recvData != []
      ensures ok ==> var v := Wire.Parse(old(Incoming())); v.Ready? && v.args == Resolve(input.buf[..], recvData)
    {
      hide Wire.Parse, Resolve, Pipe.Parsed, Pipe.Fed, Pipe.Heard, ReadResult, Answered;
      hide GaveUp, Used, IsRest, Pipe.Full;
      ghost var p := In();
      Refusals(p, noblock);
      while true
        invariant Valid() && (input.buf == old(input.buf) || fresh(input.buf))
        invariant Answered(In(), noblock) == Answered(p, noblock) && Incoming() == old(Incoming())
        decreases In().Bound()
      {
        ghost var s, q := input.Contents(), In();
        AnsweredStep(q, noblock);
        var parsed := Parse();
        if !parsed {
          return false;
        }
        if recvData == [] {
          FedFacts(In(), noblock);
          var n := Read();
          if n <= 0 {
            return false;
          }
        } else {
          ParseStable(s, sock.inbound);
          return true;
        }
      }
    }
  }

  // A write uses up a reply, or takes everything.
  lemma {:induction false} WriteGoesOn(script: seq<Reply>, want: nat, noblock: bool)
    requires want > 0
    ensures var t := Answers(script, want, Writing, noblock);
            (script == [] ==> Total(t) == want) && (script != [] ==> |After(script, |t|)| < |script|)
  {
    hide Answers, Total;
    AnswersFacts(script, want, Writing, noblock);
    if script == [] {
      WriteAll(want, noblock);
    }
  }

  lemma {:induction false} WriteLast(script: seq<Reply>, want: nat, noblock: bool)
    ensures var t := Answers(script, want, Writing, noblock);
            && WriteResult(t) == (if t != [] && t[|t| - 1] == Failed then -1 else Total(t))
            && (script == [] ==> WriteResult(t) == want)
  {
    hide Answers, Total;
    NothingAsked(script, Writing, noblock);
    NoTotal();
    if script == [] && want > 0 {
      WriteAll(want, noblock);
    }
  }

  lemma {:induction false} WriteAll(want: nat, noblock: bool)
    requires want > 0
    ensures Answers([], want, Writing, noblock) == [Moved(want)] && Total([Moved(want)]) == want
  {
    var r := Moved(want);
    assert Answers([], 0, Writing, noblock) == [];
    assert Answers([], want, Writing, noblock) == [r];
    TotalOne(r);
  }

  // ---------- What send writes ----------

  // What comes behind `used` bytes in a buffer that can grow to `limit`: the records that find
  // room, and the closing line if it does.
  function Written(p: Packet, used: nat, limit: nat): Octets {
    if p == [] then (if used + 1 <= limit then [LF] else [])
    else if used + 16 + |p[0]| + 1 <= limit then Record(p[0]) + Written(p[1..], used + |Record(p[0])|, limit)
    else Written(p[1..], used, limit)
  }

  // Each record in turn, and the closing line, find room.
  predicate RoomFor(p: Packet, used: nat, limit: nat) {
    if p == [] then used + 1 <= limit
    else used + 16 + |p[0]| + 1 <= limit && RoomFor(p[1..], used + |Record(p[0])|, limit)
  }

  lemma {:induction false} EncodeFirst(p: Packet)
    requires p != []
    ensures Encode(p) == Record(p[0]) + Encode(p[1..])
  {
  }

  // A packet is written as a whole exactly if all of it finds room.
  lemma {:induction false} WrittenWholeExactly(p: Packet, used: nat, limit: nat)
    ensures Written(p, used, limit) == Encode(p) <==> RoomFor(p, used, limit)
    ensures |Written(p, used, limit)| <= |Encode(p)|
    ensures !RoomFor(p, used, limit) ==> |Written(p, used, limit)| < |Encode(p)|
  {
    hide Record, Encode;
    if p == [] {
      assert Encode([]) == [LF] by { EncodeNone(); }
    } else {
      EncodeFirst(p);
      RecordLength(p[0]);
      WrittenWholeExactly(p[1..], used + |Record(p[0])|, limit);
      WrittenWholeExactly(p[1..], used, limit);
    }
  }

  // 20 bytes before the limit, a body of ten bytes is left out and the empty one behind it sent.
  lemma {:induction false} PartialExample(limit: nat)
    requires limit >= 20
    ensures Written([seq(10, _ => 0), []], limit - 20, limit) == Encode([[]]) != Encode([seq(10, _ => 0), []])
  {
    hide Encode;
    var long: Octets := seq(10, _ => 0);
    var p, rest: Packet := [long, []], [[]];
    assert !RoomFor(p, limit - 20, limit) && p[1..] == rest;
    assert Record([]) == [48, LF, LF] by { assert Digits(0) == [48]; }
    assert rest[1..] == [] && rest[0] == [];
    assert RoomFor(rest, limit - 20, limit);
    WrittenWholeExactly(rest, limit - 20, limit);
    EncodeFirst(p);
    RecordLength(long);
  }

  lemma {:induction false} EncodeNone()
    ensures Encode([]) == [LF]
  {
  }

  lemma {:induction false} RoomSuffices(p: Packet, used: nat, limit: nat)
    requires used + |Encode(p)| + 16 <= limit
    ensures RoomFor(p, used, limit)
  {
    hide Record, Encode;
    if p == [] {
      EncodeNone();
    } else {
      EncodeFirst(p);
      RecordLength(p[0]);
      EncodeNotEmpty(p[1..]);
      RoomSuffices(p[1..], used + |Record(p[0])|, limit);
    }
  }

  lemma {:induction false} EncodeNotEmpty(p: Packet)
    ensures |Encode(p)| > 0
  {
  }

  lemma {:induction false} WrittenStep(before: Octets, p: Packet, used: nat, limit: nat)
    requires p != []
    ensures before + Written(p, used, limit) ==
            if used + 16 + |p[0]| + 1 <= limit then
              before + Record(p[0]) + Written(p[1..], used + |Record(p[0])|, limit)
            else before + Written(p[1..], used, limit)
  {
    hide Record;
  }

  lemma {:induction false} WrittenEnd(used: nat, limit: nat)
    ensures Written([], used, limit) == if used + 1 <= limit then [LF] else []
  {
  }
}
