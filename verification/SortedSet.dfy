// The scored set of util/sorted_set.cpp: a map from keys to items beside an ordered set of items.
module SortedSet {
  import opened Strings

  datatype Item = Item(key: string, score: int)

  // Item::operator<
  predicate Before(a: Item, b: Item) {
    a.score < b.score || (a.score == b.score && Less(a.key, b.key))
  }

  lemma {:induction false} BeforeOrder(a: Item, b: Item)
    ensures Before(a, b) || a == b || Before(b, a)
    ensures !Before(a, a) && !(Before(a, b) && Before(b, a))
  {
    LessTotal(a.key, b.key);
    LessIrreflexive(a.key);
    if Less(a.key, b.key) {
      LessAsymmetric(a.key, b.key);
    }
  }

  lemma {:induction false} BeforeTransitive(a: Item, b: Item, c: Item)
    requires Before(a, b) && Before(b, c)
    ensures Before(a, c)
  {
    if Less(a.key, b.key) && Less(b.key, c.key) {
      LessTransitive(a.key, b.key, c.key);
    }
  }

  // ---------- std::set<Item> as the list of its elements in order ----------

  ghost predicate Ordered(s: seq<Item>) {
    forall i, j | 0 <= i < j < |s| :: Before(s[i], s[j])
  }

  function Insert(s: seq<Item>, x: Item): seq<Item> {
    if s == [] then [x]
    else if Before(x, s[0]) then [x] + s
    else if x == s[0] then s
    else [s[0]] + Insert(s[1..], x)
  }

  function Erase(s: seq<Item>, x: Item): seq<Item> {
    if s == [] then []
    else if s[0] == x then s[1..]
    else [s[0]] + Erase(s[1..], x)
  }

  lemma {:induction false} InsertKeeps(s: seq<Item>, x: Item)
    requires Ordered(s)
    ensures Ordered(Insert(s, x))
    ensures forall y :: y in Insert(s, x) <==> y in s || y == x
  {
    if s != [] {
      BeforeOrder(x, s[0]);
      InsertKeeps(s[1..], x);
      if Before(x, s[0]) {
        forall j | 0 < j < |s| ensures Before(x, s[j]) {
          BeforeTransitive(x, s[0], s[j]);
        }
      } else if x != s[0] {
        var t := Insert(s[1..], x);
        forall j | 0 <= j < |t| ensures Before(s[0], t[j]) {
          assert t[j] in t;
        }
      }
    }
  }

  lemma {:induction false} EraseKeeps(s: seq<Item>, x: Item)
    requires Ordered(s)
    ensures Ordered(Erase(s, x))
    ensures forall y :: y in Erase(s, x) <==> y in s && y != x
  {
    if s != [] {
      EraseKeeps(s[1..], x);
      if s[0] == x {
        forall y | y in s[1..] ensures y != x {
          BeforeOrder(x, y);
        }
      } else {
        var t := Erase(s[1..], x);
        forall j | 0 <= j < |t| ensures Before(s[0], t[j]) {
          assert t[j] in t;
        }
      }
    }
  }

  // The order leaves one way to list a set of items.
  lemma {:induction false} OneOrder(s: seq<Item>, t: seq<Item>)
    requires Ordered(s) && Ordered(t) && forall y :: y in s <==> y in t
    ensures s == t
  {
    assert s != [] ==> s[0] in s;
    assert t != [] ==> t[0] in t;
    if s != [] {
      BeforeOrder(s[0], t[0]);
      assert s[0] == t[0];
      forall y ensures y in s[1..] <==> y in t[1..] {
        BeforeOrder(s[0], y);
        assert y in s <==> y == s[0] || y in s[1..];
        assert y in t <==> y == t[0] || y in t[1..];
      }
      OneOrder(s[1..], t[1..]);
    }
  }

  ghost predicate Agree(m: map<string, Item>, s: seq<Item>) {
    && Ordered(s)
    && (forall k <- m :: m[k].key == k && m[k] in s)
    && forall x <- s :: x.key in m && m[x.key] == x
  }

  lemma {:induction false} EraseLast(s: seq<Item>)
    requires Ordered(s) && s != []
    ensures Erase(s, s[|s| - 1]) == s[..|s| - 1]
  {
    if |s| > 1 {
      BeforeOrder(s[0], s[|s| - 1]);
      EraseLast(s[1..]);
      assert s[..|s| - 1] == [s[0]] + s[1..][..|s| - 2];
    }
  }

  lemma {:induction false} AgreeFirst(m: map<string, Item>, s: seq<Item>)
    requires Agree(m, s) && s != []
    ensures s[0].key in m && Agree(m - {s[0].key}, s[1..])
  {
    assert s[0] in s;
    AgreeErase(m, s, s[0].key);
  }

  lemma {:induction false} AgreeLast(m: map<string, Item>, s: seq<Item>)
    requires Agree(m, s) && s != []
    ensures var n := |s| - 1; s[n].key in m && Agree(m - {s[n].key}, s[..n])
  {
    hide Erase;
    var last := s[|s| - 1];
    assert last in s;
    AgreeErase(m, s, last.key);
    EraseLast(s);
  }

  lemma {:induction false} AgreeInsert(m: map<string, Item>, s: seq<Item>, x: Item)
    requires Agree(m, s) && x.key !in m
    ensures Agree(m[x.key := x], Insert(s, x))
  {
    hide Insert, Ordered;
    InsertKeeps(s, x);
  }

  lemma {:induction false} AgreeErase(m: map<string, Item>, s: seq<Item>, key: string)
    requires Agree(m, s) && key in m
    ensures Agree(m - {key}, Erase(s, m[key]))
  {
    hide Erase, Ordered;
    EraseKeeps(s, m[key]);
  }

  function Scores(m: map<string, Item>): map<string, int> {
    map k | k in m :: m[k].score
  }

  lemma {:induction false} ScoresWithout(m: map<string, Item>, key: string)
    ensures Scores(m - {key}) == Scores(m) - {key}
  {
  }

  lemma {:induction false} NoScores(m: map<string, Item>, s: seq<Item>)
    requires Agree(m, s)
    ensures s == [] <==> Scores(m) == map[]
  {
    if s != [] {
      assert s[0] in s && s[0].key in Scores(m);
    }
  }

  class SortedSet {
    var existed: map<string, Item>
    var sorted: seq<Item>

    // Both indexes hold the same items, one for each key.
    ghost predicate Valid()
      reads this
    {
      Agree(existed, sorted)
    }

    // The scores by key.
    ghost function View(): map<string, int>
      reads this
    {
      Scores(existed)
    }

    constructor ()
      ensures Valid() && View() == map[]
    {
      existed, sorted := map[], [];
    }

    method Size() returns (n: nat)
      requires Valid()
      ensures n == |View()|
    {
      ListSize(sorted, existed);
      assert View().Keys == existed.Keys;
      return |sorted|;
    }

    method Add(key: string, score: int) returns (ret: int)
      requires Valid()
      modifies this
      ensures Valid() && View() == old(View())[key := score]
      ensures ret == if key in old(View()) then 0 else 1
    {
      hide Agree, Insert, Erase;
      ret := 1;
      ghost var others := existed - {key};
      if key in existed {
        ret := 0;
        var item := existed[key];
        if item.score == score {
          return 0;
        }
        AgreeErase(existed, sorted, key);
        sorted := Erase(sorted, item);
      } else {
        assert others == existed;
      }
      var item := Item(key, score);
      AgreeInsert(others, sorted, item);
      assert others[key := item] == existed[key := item];
      sorted := Insert(sorted, item);
      existed := existed[key := item];
    }

    method Del(key: string) returns (ret: int)
      requires Valid()
      modifies this
      ensures Valid() && View() == old(View()) - {key}
      ensures ret == if key in old(View()) then 1 else 0
    {
      if key !in existed {
        return 0;
      }
      hide Agree, Erase;
      AgreeErase(existed, sorted, key);
      sorted := Erase(sorted, existed[key]);
      existed := existed - {key};
      return 1;
    }

    // The smallest item, or 0 if there is none.
    method Front() returns (ret: int, key: string, score: int)
      requires Valid()
      ensures (ret == 0 <==> View() == map[]) && (ret == 0 <==> sorted == [])
      ensures ret != 0 ==> ret == 1 && key in View() && View()[key] == score && sorted[0] == Item(key, score)
      ensures ret != 0 ==> forall k <- View() :: k != key ==>
                score < View()[k] || (score == View()[k] && Less(key, k))
    {
      if sorted == [] {
        return 0, "", 0;
      }
      assert sorted[0] in sorted;
      key, score := sorted[0].key, sorted[0].score;
      forall k | k in View() && k != key ensures Before(Item(key, score), Item(k, View()[k])) {
        assert existed[k] in sorted;
      }
      assert key in View();
      return 1, key, score;
    }

    // The largest item, or 0 if there is none.
    method Back() returns (ret: int, key: string, score: int)
      requires Valid()
      ensures ret == 0 <==> View() == map[]
      ensures ret != 0 ==>
                ret == 1 && key in View() && View()[key] == score && sorted[|sorted| - 1] == Item(key, score)
      ensures ret != 0 ==> forall k <- View() :: k != key ==>
                View()[k] < score || (View()[k] == score && Less(k, key))
    {
      if sorted == [] {
        return 0, "", 0;
      }
      var last := sorted[|sorted| - 1];
      assert last in sorted;
      key, score := last.key, last.score;
      forall k | k in View() && k != key ensures Before(Item(k, View()[k]), Item(key, score)) {
        assert existed[k] in sorted;
      }
      assert key in View();
      return 1, key, score;
    }

    // The largest score, 0 for the empty set.
    method MaxScore() returns (max: int)
      requires Valid()
      ensures View() == map[] ==> max == 0
      ensures View() != map[] ==> (exists k <- View() :: View()[k] == max) && forall k <- View() :: View()[k] <= max
    {
      var ret, key, score := Back();
      return if ret == 0 then 0 else score;
    }

    method PopFront() returns (ret: int)
      requires Valid()
      modifies this
      ensures Valid() && ret == if old(sorted) == [] then 0 else 1
      ensures ret == 0 ==> View() == old(View()) == map[]
      ensures ret == 1 ==> sorted == old(sorted)[1..] && View() == old(View()) - {old(sorted)[0].key}
    {
      hide Agree, Scores;
      NoScores(existed, sorted);
      if sorted == [] {
        return 0;
      }
      var item := sorted[0];
      AgreeFirst(existed, sorted);
      ScoresWithout(existed, item.key);
      existed := existed - {item.key};
      sorted := sorted[1..];
      return 1;
    }

    method PopBack() returns (ret: int)
      requires Valid()
      modifies this
      ensures Valid() && ret == if old(sorted) == [] then 0 else 1
      ensures ret == 0 ==> View() == old(View()) == map[]
      ensures ret == 1 ==> sorted == old(sorted)[..|old(sorted)| - 1]
      ensures ret == 1 ==> View() == old(View()) - {old(sorted)[|old(sorted)| - 1].key}
    {
      hide Agree, Scores;
      NoScores(existed, sorted);
      if sorted == [] {
        return 0;
      }
      var n := |sorted| - 1;
      var item := sorted[n];
      AgreeLast(existed, sorted);
      ScoresWithout(existed, item.key);
      existed := existed - {item.key};
      sorted := sorted[..n];
      return 1;
    }

    // Front and PopFront until empty: every pair once, in strictly increasing order.
    method Drain() returns (out: seq<Item>)
      requires Valid()
      modifies this
      ensures Valid() && View() == map[]
      ensures forall i, j | 0 <= i < j < |out| ::
                out[i].score < out[j].score || (out[i].score == out[j].score && Less(out[i].key, out[j].key))
      ensures forall k, n :: Item(k, n) in out <==> k in old(View()) && old(View())[k] == n
    {
      hide Agree, Before;
      ghost var was, m := sorted, existed;
      assert Agree(m, was);
      out := [];
      while true
        invariant Valid() && out + sorted == was
        decreases |sorted|
      {
        var ret, key, score := Front();
        if ret == 0 {
          break;
        }
        out := out + [Item(key, score)];
        ret := PopFront();
      }
      assert out == was;
      DrainedAll(m, was);
    }
  }

  lemma {:induction false} DrainedAll(m: map<string, Item>, s: seq<Item>)
    requires Agree(m, s)
    ensures forall k, n :: Item(k, n) in s <==> k in m && m[k].score == n
    ensures forall i, j | 0 <= i < j < |s| ::
              s[i].score < s[j].score || (s[i].score == s[j].score && Less(s[i].key, s[j].key))
  {
  }

  lemma {:induction false} ListSize(s: seq<Item>, m: map<string, Item>)
    requires Agree(m, s)
    ensures |s| == |m|
  {
    if s != [] {
      var x := s[0];
      assert x in s;
      var m' := m - {x.key};
      forall y | y in s[1..] ensures y.key != x.key {
        BeforeOrder(x, y);
      }
      ListSize(s[1..], m');
    } else {
      assert m == map[];
    }
  }

  // The scores alone determine the order in which the items come out.
  lemma {:induction false} ViewDetermines(a: SortedSet, b: SortedSet)
    requires a.Valid() && b.Valid() && a.View() == b.View()
    ensures a.sorted == b.sorted
  {
    forall y ensures y in a.sorted <==> y in b.sorted {
      assert y in a.sorted <==> y.key in a.View() && a.View()[y.key] == y.score;
      assert y in b.sorted <==> y.key in b.View() && b.View()[y.key] == y.score;
    }
    OneOrder(a.sorted, b.sorted);
  }
}
