// The compacting, growable byte buffer of util/bytes.h and util/bytes.cpp.
module Buffers {
  import opened Octets
  import opened Wire

  const KIB := 1024
  // Every buffer can grow to this size.
  const ROOM := 0x4000_0000

  function Max(a: int, b: int): int {
    if a >= b then a else b
  }

  // The size Buffer::grow asks for.
  function NextTotal(total: nat): (n: nat)
    ensures n > total
  {
    if total < 8 * KIB then 8 * KIB
    else if total < 512 * KIB then 8 * total
    else 2 * total
  }

  // The size at which a buffer of this size stops growing.
  function Limit(total: nat): (n: nat)
    decreases INT_MAX - total
  {
    if NextTotal(total) > INT_MAX then total else Limit(NextTotal(total))
  }

  lemma {:induction false} LimitIs(total: nat)
    requires total <= INT_MAX
    ensures ROOM <= Limit(total) <= INT_MAX && total <= Limit(total) && NextTotal(Limit(total)) > INT_MAX
    decreases INT_MAX - total
  {
    if NextTotal(total) <= INT_MAX {
      LimitIs(NextTotal(total));
    }
  }

  // From 8192 bytes on growing at least doubles the size; the steps from the first size of a
  // connection's buffer.
  lemma {:induction false} GrowthSteps(total: nat)
    ensures (total >= 8192 ==> NextTotal(total) >= 2 * total) && NextTotal(total) >= 8192
    ensures NextTotal(1024) == 8192 && NextTotal(8192) == 65536 && NextTotal(65536) == 524288
    ensures NextTotal(524288) == 1048576 && Limit(1024) == 1073741824
  {
    assert Limit(536870912) == Limit(1073741824) == 1073741824;
    assert Limit(134217728) == Limit(268435456) == 1073741824;
    assert Limit(33554432) == Limit(67108864) == 1073741824;
    assert Limit(8388608) == Limit(16777216) == 1073741824;
    assert Limit(2097152) == Limit(4194304) == 1073741824;
    assert Limit(524288) == Limit(1048576) == 1073741824;
    assert Limit(8192) == Limit(65536) == 1073741824;
  }

  // a with s written over it from index at on.
  function Splice(a: Octets, at: nat, s: Octets): Octets
    requires at + |s| <= |a|
  {
    a[..at] + s + a[at + |s|..]
  }

  lemma {:induction false} SpliceTwice(a: Octets, at: nat, s: Octets, t: Octets)
    requires at + |s| + |t| <= |a|
    ensures Splice(Splice(a, at, s), at + |s|, t) == Splice(a, at, s + t)
  {
    var b := Splice(a, at, s);
    assert b[..at + |s|] == a[..at] + s;
    assert b[at + |s| + |t|..] == a[at + |s| + |t|..];
  }

  method Memcpy(a: array<Byte>, at: nat, s: Octets)
    requires at + |s| <= a.Length
    modifies a
    ensures a[..] == Splice(old(a[..]), at, s)
  {
    forall k | 0 <= k < |s| {
      a[at + k] := s[k];
    }
  }

  // What Buffer::nice leaves in the array: the bytes at off move to the front once off is past
  // the middle.
  function Compacted(a: Octets, off: nat, size: nat): (r: Octets)
    requires off + size <= |a|
    ensures |r| == |a|
  {
    if off > |a| / 2 then Splice(a, 0, a[off..off + size]) else a
  }

  // bytes.h promises that Bytes already handed out stay valid across nice(). This holds for what
  // lies in the second half, but in general, whatever the array holds, for a view in front of
  // the data exactly if nothing moves or the view starts behind the moved bytes.
  lemma {:induction false} ViewSurvivesExactly(total: nat, off: nat, size: nat, start: nat, len: nat)
    requires off + size <= total && start + len <= off && len > 0
    ensures (forall a: Octets | |a| == total ::
               Compacted(a, off, size)[start..start + len] == a[start..start + len]) <==>
            off <= total / 2 || start >= size
    ensures start >= total / 2 && off > total / 2 ==> start >= size
  {
    hide Compacted;
    if off > total / 2 && start < size {
      var a := ViewOverwritten(total, off, size, start, len);
    } else {
      forall a: Octets | |a| == total
        ensures Compacted(a, off, size)[start..start + len] == a[start..start + len]
      {
        ViewKept(a, off, size, start, len);
      }
    }
  }

  lemma {:induction false} ViewKept(a: Octets, off: nat, size: nat, start: nat, len: nat)
    requires off + size <= |a| && start + len <= off && (off <= |a| / 2 || start >= size)
    ensures Compacted(a, off, size)[start..start + len] == a[start..start + len]
  {
    hide Compacted;
    CompactedIs(a, off, size);
    if off > |a| / 2 {
      BehindFront(a[off..off + size], a, start, len);
    }
  }

  lemma {:induction false} CompactedIs(a: Octets, off: nat, size: nat)
    requires off + size <= |a|
    ensures Compacted(a, off, size) == if off > |a| / 2 then a[off..off + size] + a[size..] else a
  {
  }

  lemma {:induction false} BehindFront(front: Octets, a: Octets, start: nat, len: nat)
    requires |front| <= start && start + len <= |a|
    ensures (front + a[|front|..])[start..start + len] == a[start..start + len]
  {
  }

  lemma {:induction false} ViewOverwritten(total: nat, off: nat, size: nat, start: nat, len: nat) returns (a: Octets)
    requires off + size <= total && start + len <= off && len > 0 && off > total / 2 && start < size
    ensures |a| == total && Compacted(a, off, size)[start..start + len] != a[start..start + len]
  {
    a := seq(total, i requires 0 <= i < total => if i < off then 0 else 1);
    var c := Compacted(a, off, size);
    assert a[start..start + len][0] == 0;
    assert c[start] == a[off..off + size][start] == 1;
    assert c[start..start + len][0] == 1;
  }

  lemma {:induction false} SpliceByte(a: Octets, b: Octets, at: nat, x: Byte)
    requires at < |a| == |b| && b == a[at := x]
    ensures b == Splice(a, at, [x])
  {
  }

  lemma {:induction false} SpliceWindow(a: Octets, from: nat, at: nat, s: Octets)
    requires from <= at && at + |s| <= |a|
    ensures |Splice(a, at, s)| == |a|
    ensures Splice(a, at, s)[from..at + |s|] == a[from..at] + s
  {
  }

  lemma {:induction false} RecordBytes(s: Octets)
    ensures Record(s) == Digits(|s|) + [LF] + s + [LF]
  {
  }

  lemma {:induction false} RecordLength(s: Octets)
    ensures |Record(s)| >= |s| + 3
  {
  }

  // The three writes of append_record: the length line, the bytes, a line feed.
  method PutRecord(a: array<Byte>, at: nat, len: Octets, s: Octets)
    requires at + |len| + |s| + 1 <= a.Length
    modifies a
    ensures a[..] == Splice(old(a[..]), at, len + s + [LF])
  {
    hide Splice;
    var p := at;
    Memcpy(a, p, len);
    p := p + |len|;
    Memcpy(a, p, s);
    SpliceTwice(old(a[..]), at, len, s);
    p := p + |s|;
    ghost var mid := a[..];
    a[p] := LF;
    SpliceByte(mid, a[..], p, LF);
    SpliceTwice(old(a[..]), at, len + s, [LF]);
  }

  class Buffer {
    var buf: array<Byte>
    // data_ - buf, size_; total_ is buf.Length
    var off: nat
    var size: nat

    ghost predicate Valid()
      reads this
    {
      off + size <= buf.Length <= INT_MAX
    }

    ghost function Contents(): (s: Octets)
      requires Valid()
      reads this, buf
      ensures |s| == size
    {
      buf[off..off + size]
    }

    lemma {:induction false} ContentsAre()
      requires Valid()
      ensures Contents() == buf[..][off..off + size]
    {
    }

    constructor (total: nat)
      requires total <= INT_MAX
      ensures Valid() && fresh(buf) && buf.Length == total && off == 0 && Contents() == []
    {
      buf := new Byte[total](_ => 0);
      off, size := 0, 0;
    }

    function Space(): (n: nat)
      requires Valid()
      reads this
      ensures off + size + n == buf.Length
    {
      buf.Length - off - size
    }

    method Incr(num: nat)
      requires Valid() && num <= Space()
      modifies this`size
      ensures Valid() && Contents() == old(Contents()) + buf[off + old(size)..off + old(size) + num]
    {
      size := size + num;
    }

    method Decr(num: nat)
      requires Valid() && num <= size
      modifies this`size, this`off
      ensures Valid() && Contents() == old(Contents())[num..] && off == old(off) + num
    {
      size := size - num;
      off := off + num;
    }

    // Moves the bytes to the front once the front half is free. memcpy is given ranges that do
    // not overlap, and the second half of the array is left as it was.
    method Nice()
      requires Valid()
      modifies this`off, buf
      ensures Valid() && Contents() == old(Contents())
      ensures off == if old(off) > buf.Length / 2 then 0 else old(off)
      ensures buf[..] == Compacted(old(buf[..]), old(off), size)
      ensures buf[buf.Length / 2..] == old(buf[buf.Length / 2..])
      ensures old(off) > buf.Length / 2 ==> size <= buf.Length / 2 < old(off)
    {
      if off > buf.Length / 2 {
        assert size <= buf.Length / 2 < off;
        var data := buf[off..off + size];
        Memcpy(buf, 0, data);
        off := 0;
      }
    }

    // -1 when the new size leaves the range of an int; nothing changes then.
    method Grow() returns (r: int)
      requires Valid()
      modifies this`buf
      ensures Valid() && Contents() == old(Contents())
      ensures r == -1 <==> NextTotal(old(buf.Length)) > INT_MAX
      ensures r == -1 ==> buf == old(buf)
      ensures r != -1 ==> fresh(buf) && r == buf.Length == NextTotal(old(buf.Length))
      ensures r != -1 ==>
                var n := old(buf.Length); r == if n < 8192 then 8192 else if n < 524288 then 8 * n else 2 * n
      ensures old(buf[..]) <= buf[..]
    {
      var n := NextTotal(buf.Length);
      if n > INT_MAX {
        return -1;
      }
      var p := new Byte[n](_ => 0);
      var data := buf[..];
      Memcpy(p, 0, data);
      buf := p;
      return n;
    }

    // The loop in front of every append: grow until `need` bytes fit.
    method Reserve(need: nat) returns (ok: bool)
      requires Valid()
      modifies this`buf
      ensures Valid() && Contents() == old(Contents())
      ensures ok <==> need <= Space()
      ensures ok <==> off + size + need <= Limit(old(buf.Length))
      ensures Limit(buf.Length) == Limit(old(buf.Length))
      ensures buf == old(buf) || fresh(buf)
      ensures old(need <= Space()) ==> buf == old(buf)
      ensures old(buf.Length) <= buf.Length <= Max(old(buf.Length), Max(8 * KIB, 8 * (off + size + need)))
    {
      LimitIs(buf.Length);
      while need > Space()
        invariant Valid() && Contents() == old(Contents())
        invariant buf.Length <= Limit(buf.Length) == Limit(old(buf.Length))
        invariant buf == old(buf) || fresh(buf)
        invariant old(need <= Space()) ==> buf == old(buf)
        invariant old(buf.Length) <= buf.Length <= Max(old(buf.Length), Max(8 * KIB, 8 * (off + size + need)))
        decreases INT_MAX - buf.Length
      {
        var r := Grow();
        if r == -1 {
          return false;
        }
        LimitIs(buf.Length);
      }
      return true;
    }

    method Append(s: Octets) returns (r: int)
      requires Valid()
      modifies this, buf
      ensures Valid() && (buf == old(buf) || fresh(buf)) && off == old(off)
      ensures old(buf.Length) <= buf.Length && Limit(buf.Length) == Limit(old(buf.Length))
      ensures r == -1 ==> Contents() == old(Contents())
      ensures r != -1 ==> r == |s| && Contents() == old(Contents()) + s
      ensures r != -1 <==> off + old(size) + |s| <= Limit(old(buf.Length))
    {
      var ok := Reserve(|s|);
      if !ok {
        return -1;
      }
      Memcpy(buf, off + size, s);
      size := size + |s|;
      return |s|;
    }

    // The part of append_record behind its loop.
    method PutAtSlot(s: Octets) returns (r: int)
      requires Valid() && |s| <= INT_MAX && 16 + |s| + 1 <= Space()
      modifies this`size, buf
      ensures Valid() && r == |Record(s)| && Contents() == old(Contents()) + Record(s)
    {
      hide Record, Splice, Digits;
      IntDigits(|s|);
      var len := Digits(|s|) + [LF];
      assert |len| <= 11;
      PutRecord(buf, off + size, len, s);
      RecordBytes(s);
      SpliceWindow(old(buf[..]), off, off + size, Record(s));
      size := size + (|len| + |s| + 1);
      assert Contents() == buf[..][off..off + size];
      return |len| + |s| + 1;
    }

    method AppendRecord(s: Octets) returns (r: int)
      requires Valid() && |s| <= INT_MAX - 17
      modifies this, buf
      ensures Valid() && (buf == old(buf) || fresh(buf)) && off == old(off)
      ensures old(buf.Length) <= buf.Length && Limit(buf.Length) == Limit(old(buf.Length))
      ensures r == -1 ==> Contents() == old(Contents())
      ensures r != -1 ==> r == |Record(s)| && Contents() == old(Contents()) + Record(s)
      ensures r != -1 <==> off + old(size) + 16 + |s| + 1 <= Limit(old(buf.Length))
      ensures buf.Length <= Max(old(buf.Length), Max(8 * KIB, 8 * (off + old(size) + 16 + |s| + 1)))
    {
      var ok := Reserve(16 + |s| + 1);
      if !ok {
        return -1;
      }
      r := PutAtSlot(s);
    }
  }
}
