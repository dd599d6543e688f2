// The address filter of util/ip_filter.h: one lookup in an ordered set in place of a scan.
module IpFilter {
  import opened Options
  import opened Strings

  // ---------- Rules ----------

  function Dots(s: string): nat {
    if s == "" then 0 else (if s[0] == '.' then 1 else 0) + Dots(s[1..])
  }

  lemma {:induction false} DotsIs(s: string)
    ensures Dots(s) == multiset(s)['.']
  {
    if s != "" {
      assert s == [s[0]] + s[1..];
      DotsIs(s[1..]);
    }
  }

  // What add_allow and add_deny store for a text.
  function Rule(text: string): string {
    text + if Dots(text) == 3 then "=" else "@"
  }

  function Text(rule: string): string
    requires rule != ""
  {
    rule[..|rule| - 1]
  }

  predicate IsRule(rule: string) {
    rule != "" && rule == Rule(Text(rule))
  }

  // A full address matches itself only, anything else every longer address that starts with it.
  predicate Matches(rule: string, ip: string)
    requires rule != ""
  {
    if rule[|rule| - 1] == '=' then Text(rule) == ip else Text(rule) < ip
  }

  ghost predicate RuleSet(m: set<string>) {
    forall rule <- m :: IsRule(rule)
  }

  // The scan over all rules that check_hit stands for.
  ghost predicate AnyMatches(m: set<string>, ip: string)
    requires RuleSet(m)
  {
    exists rule <- m :: Matches(rule, ip)
  }

  // ---------- The lookup ----------

  // u is the first element of m behind x.
  ghost predicate IsUpperBound(m: set<string>, x: string, u: string) {
    u in m && Less(x, u) && forall y <- m :: Less(x, y) ==> u == y || Less(u, y)
  }

  ghost predicate Hit(m: set<string>, ip: string)
    requires RuleSet(m)
  {
    exists u <- m :: IsUpperBound(m, ip, u) && Matches(u, ip)
  }

  // std::set::upper_bound
  method UpperBound(m: set<string>, x: string) returns (r: Option<string>)
    ensures r.Some? ==> IsUpperBound(m, x, r.value)
    ensures r.None? ==> forall y <- m :: !Less(x, y)
  {
    r := None;
    var rest := m;
    while rest != {}
      invariant rest <= m
      invariant r.Some? ==> r.value in m && Less(x, r.value)
      invariant forall y <- m - rest :: Less(x, y) ==> r.Some? && (r.value == y || Less(r.value, y))
      decreases rest
    {
      var y :| y in rest;
      if Less(x, y) {
        if r.Some? {
          LessTotal(y, r.value);
        }
        if r.None? || Less(y, r.value) {
          forall z | z in m - rest && Less(x, z) ensures y == z || Less(y, z) {
            if z != r.value {
              LessTransitive(y, r.value, z);
            }
          }
          r := Some(y);
        }
      }
      rest := rest - {y};
    }
  }

  method CheckHit(m: set<string>, ip: string) returns (hit: bool)
    requires RuleSet(m)
    ensures hit == Hit(m, ip)
  {
    if m == {} {
      return false;
    }
    var it := UpperBound(m, ip);
    if it.None? {
      return false;
    }
    var prefix := it.value;
    var len := |prefix| - 1;
    forall u | u in m && IsUpperBound(m, ip, u) ensures u == prefix {
      UpperBoundUnique(m, ip, u, prefix);
    }
    if prefix[len] == '=' {
      return prefix[..len] == ip;
    } else if |ip| > len {
      return ip[..len] == prefix[..len];
    }
    return false;
  }

  lemma {:induction false} UpperBoundUnique(m: set<string>, x: string, u: string, v: string)
    requires IsUpperBound(m, x, u) && IsUpperBound(m, x, v)
    ensures u == v
  {
    if Less(u, v) {
      LessAsymmetric(u, v);
    }
  }

  lemma {:induction false} UpperBoundExists(m: set<string>, x: string, y: string) returns (u: string)
    requires y in m && Less(x, y)
    ensures IsUpperBound(m, x, u)
    decreases set z | z in m && Less(z, y)
  {
    if z :| z in m && Less(x, z) && Less(z, y) {
      LessIrreflexive(z);
      forall w | w in m && Less(w, z) ensures Less(w, y) {
        LessTransitive(w, z, y);
      }
      var below, below' := set w | w in m && Less(w, y), set w | w in m && Less(w, z);
      assert below' <= below && z in below && z !in below';
      u := UpperBoundExists(m, x, z);
    } else {
      u := y;
      forall z | z in m && Less(x, z) ensures y == z || Less(y, z) {
        LessTotal(y, z);
      }
    }
  }

  // ---------- When the lookup is the scan ----------

  predicate IpText(s: string) {
    forall i | 0 <= i < |s| :: '0' <= s[i] <= '9' || s[i] == '.'
  }

  // No rule's text starts another rule's text.
  ghost predicate PrefixFree(m: set<string>)
    requires RuleSet(m)
  {
    forall r <- m, s <- m :: Text(r) <= Text(s) ==> r == s
  }

  // A hit always means that a rule matches.
  lemma {:induction false} HitIsMatch(m: set<string>, ip: string)
    requires RuleSet(m) && Hit(m, ip)
    ensures AnyMatches(m, ip)
  {
  }

  // The order puts a matching rule behind the address, whose characters are below '=' and '@'.
  lemma {:induction false} MatchIsAbove(rule: string, ip: string)
    requires IsRule(rule) && IpText(ip) && Matches(rule, ip)
    ensures Less(ip, rule)
  {
    var t, mark := Text(rule), rule[|rule| - 1..];
    assert rule == t + mark && ip == t + ip[|t|..];
    LessBehind(t, ip[|t|..], mark);
  }

  // What the lookup finds instead of a matching rule starts with that rule's text.
  lemma {:induction false} FoundNested(rule: string, ip: string, u: string)
    requires IsRule(rule) && IsRule(u) && Text(rule) <= ip && Less(ip, u) && Less(u, rule)
    ensures Text(rule) <= Text(u)
  {
    var t := Text(rule);
    assert rule == t + rule[|t|..];
    if t < ip {
      PrefixLess(t, ip);
      LessTransitive(t, ip, u);
    } else {
      assert t == ip;
    }
    Between(t, u, rule[|t|..]);
  }

  lemma {:induction false} MatchIsHit(m: set<string>, ip: string)
    requires RuleSet(m) && PrefixFree(m) && IpText(ip) && AnyMatches(m, ip)
    ensures Hit(m, ip)
  {
    hide Rule;
    var rule :| rule in m && Matches(rule, ip);
    MatchIsAbove(rule, ip);
    var u := UpperBoundExists(m, ip, rule);
    if Less(u, rule) {
      FoundNested(rule, ip, u);
    }
    assert u == rule;
  }

  // The element found for ip matches only if it is ip itself with '=', should the lookup end
  // inside the extensions of ip.
  lemma {:induction false} MissAt(m: set<string>, ip: string, s: string)
    requires RuleSet(m) && s in m && ip < s && (Text(s) == ip ==> s[|s| - 1] != '=')
    requires forall u <- m :: Text(u) == ip && u[|u| - 1] == '=' ==> !Less(u, s)
    ensures !Hit(m, ip)
  {
    hide Rule;
    forall u | u in m && IsUpperBound(m, ip, u) ensures !Matches(u, ip) {
      PrefixLess(ip, s);
      assert s == ip + s[|ip|..];
      if u != s {
        Between(ip, u, s[|ip|..]);
      }
      assert ip <= Text(u);
    }
  }

  // Two nested rules, the shorter one exact: its own address is not found.
  lemma {:induction false} ExactMisses(m: set<string>, r: string, s: string)
    requires RuleSet(m) && r in m && s in m && Text(r) < Text(s) && r[|r| - 1] == '=' && IpText(Text(s))
    ensures !Hit(m, Text(r))
  {
    hide Dots;
    var ip := Text(r);
    assert r == ip + "=" && s == ip + s[|ip|..];
    LessBehind(ip, s[|ip|..], "=");
    forall u | u in m && Text(u) == ip && u[|u| - 1] == '=' ensures !Less(u, s) {
      assert u == r;
      LessAsymmetric(s, r);
    }
    MissAt(m, ip, s);
  }

  // Two nested rules always spoil some address.
  lemma {:induction false} NestedMisses(m: set<string>, r: string, s: string) returns (ip: string)
    requires RuleSet(m) && r in m && s in m && r != s && Text(r) <= Text(s) && IpText(Text(s))
    ensures IpText(ip) && AnyMatches(m, ip) && !Hit(m, ip)
  {
    hide Dots;
    var t, t' := Text(r), Text(s);
    assert t != t';
    if r[|r| - 1] == '=' {
      ip := t;
      ExactMisses(m, r, s);
    } else if s[|s| - 1] == '@' {
      ip := t';
      assert Matches(r, ip);
      assert forall u <- m :: Text(u) == ip ==> u == s;
      MissAt(m, ip, s);
    } else if Rule(t' + "0") in m {
      ip := t';
      var s' := Rule(t' + "0");
      assert Text(s') == t' + "0";
      assert Matches(s, ip);
      ExactMisses(m, s, s');
    } else {
      ip := t' + "0";
      assert Matches(r, ip);
      JustBelowMisses(m, s);
    }
  }

  lemma {:induction false} JustBelowMisses(m: set<string>, s: string)
    requires RuleSet(m) && s in m && s[|s| - 1] == '=' && Rule(Text(s) + "0") !in m
    ensures !Hit(m, Text(s) + "0")
  {
    hide Dots;
    var t := Text(s);
    var ip := t + "0";
    assert s == t + "=";
    LessBehind(t, "0", "=");
    forall u | u in m && IsUpperBound(m, ip, u) ensures !Matches(u, ip) {
      if u != s {
        PrefixLess(t, ip);
        LessTransitive(t, ip, u);
        Between(t, u, "=");
      }
      assert t <= Text(u);
      assert Text(u) == t ==> u == s;
      assert Text(u) < ip ==> Text(u) == t;
      assert Text(u) == ip ==> u == Rule(ip);
    }
  }

  lemma {:induction false} LookupIsScan(m: set<string>, ip: string)
    requires RuleSet(m) && PrefixFree(m) && IpText(ip)
    ensures Hit(m, ip) <==> AnyMatches(m, ip)
  {
    hide Rule;
    if Hit(m, ip) {
      HitIsMatch(m, ip);
    } else if AnyMatches(m, ip) {
      MatchIsHit(m, ip);
    }
  }

  // Main result: the lookup agrees with the scan on all addresses exactly for the rule sets
  // without nested rules.
  lemma {:induction false} LookupIsScanExactly(m: set<string>)
    requires RuleSet(m) && forall rule <- m :: IpText(Text(rule))
    ensures (forall ip | IpText(ip) :: Hit(m, ip) <==> AnyMatches(m, ip)) <==> PrefixFree(m)
  {
    hide Rule;
    if PrefixFree(m) {
      forall ip | IpText(ip) ensures Hit(m, ip) <==> AnyMatches(m, ip) {
        LookupIsScan(m, ip);
      }
    } else {
      var r, s :| r in m && s in m && Text(r) <= Text(s) && r != s;
      var ip := NestedMisses(m, r, s);
    }
  }

  // With the rules 1.2.3.4 and 1.2.3.45 the address 1.2.3.4 is not found.
  lemma {:induction false} NestedExample()
    ensures var m := {Rule("1.2.3.4"), Rule("1.2.3.45")};
            RuleSet(m) && AnyMatches(m, "1.2.3.4") && !Hit(m, "1.2.3.4")
  {
    hide Less, Hit;
    var a, b := "1.2.3.4", "1.2.3.45";
    DotsExample();
    var r, s := Rule(a), Rule(b);
    assert Text(r) == a && Text(s) == b && r[|r| - 1] == '=';
    assert Matches(r, a);
    assert a < b;
    ExactMisses({r, s}, r, s);
  }

  lemma {:induction false} DotsExample()
    ensures Dots("1.2.3.4") == Dots("1.2.3.45") == 3
  {
    assert Dots("3.4") == 1 && Dots("3.45") == 1;
    assert Dots("2.3.4") == 2 && Dots("2.3.45") == 2;
  }

  // ---------- Both rule sets together ----------

  // The precedence of check_pass, given what was found among the rules; `open` stands for "all" in
  // the allowed rules and not in the denied ones.
  predicate Passes(open: bool, allowed: bool, denied: bool) {
    allowed || (!denied && open)
  }

  // The answers are those of a scan for every address.
  ghost predicate PassIsScan(allow: set<string>, deny: set<string>, open: bool)
    requires RuleSet(allow) && RuleSet(deny)
  {
    forall ip | IpText(ip) ::
      Passes(open, Hit(allow, ip), Hit(deny, ip)) == Passes(open, AnyMatches(allow, ip), AnyMatches(deny, ip))
  }

  ghost predicate LookupIsScanFor(m: set<string>)
    requires RuleSet(m)
  {
    forall ip | IpText(ip) :: Hit(m, ip) <==> AnyMatches(m, ip)
  }

  // A rule matches, but the lookup does not find it.
  ghost predicate Missed(m: set<string>, ip: string)
    requires RuleSet(m)
  {
    AnyMatches(m, ip) && !Hit(m, ip)
  }

  // Nested rules matter only on the side that decides. Without "all" these are the allowed rules.
  // With it, and rules on one side only, these are the denied ones.
  lemma {:induction false} PassIsScanExactly(allow: set<string>, deny: set<string>, open: bool)
    requires RuleSet(allow) && RuleSet(deny)
    requires (forall r <- allow :: IpText(Text(r))) && forall r <- deny :: IpText(Text(r))
    ensures !open ==> (PassIsScan(allow, deny, open) <==> PrefixFree(allow))
    ensures open && allow == {} ==> (PassIsScan(allow, deny, open) <==> PrefixFree(deny))
    ensures open && deny == {} ==> PassIsScan(allow, deny, open)
    ensures open && PrefixFree(allow) && PrefixFree(deny) ==> PassIsScan(allow, deny, open)
  {
    hide Hit, AnyMatches, IpText, PrefixFree;
    LookupIsScanExactly(allow);
    LookupIsScanExactly(deny);
    NoRules();
    assert LookupIsScanFor(allow) <==> PrefixFree(allow);
    assert LookupIsScanFor(deny) <==> PrefixFree(deny);
    if !open {
      assert PassIsScan(allow, deny, open) <==> LookupIsScanFor(allow);
    } else if allow == {} {
      assert PassIsScan(allow, deny, open) <==> LookupIsScanFor(deny);
    }
  }

  // With "all" and rules on both sides, an address gets a wrong answer exactly if it misses an
  // allowed rule and hits a denied one, or matches no allowed rule and misses a denied one.
  lemma {:induction false} OpenIsScanExactly(allow: set<string>, deny: set<string>)
    requires RuleSet(allow) && RuleSet(deny)
    ensures PassIsScan(allow, deny, true) <==>
            forall ip | IpText(ip) ::
              !(Missed(allow, ip) && Hit(deny, ip)) && !(!AnyMatches(allow, ip) && Missed(deny, ip))
  {
    hide Hit, AnyMatches, IpText;
    forall ip ensures (Hit(allow, ip) ==> AnyMatches(allow, ip)) && (Hit(deny, ip) ==> AnyMatches(deny, ip)) {
      if Hit(allow, ip) {
        HitIsMatch(allow, ip);
      }
      if Hit(deny, ip) {
        HitIsMatch(deny, ip);
      }
    }
  }

  lemma {:induction false} NoRules()
    ensures RuleSet({}) && forall ip :: !Hit({}, ip) && !AnyMatches({}, ip)
  {
  }

  // ---------- The filter ----------

  class Filter {
    var denyAll: bool
    var allowAll: bool
    var empty: bool
    var deny: set<string>
    var allow: set<string>

    ghost predicate Valid()
      reads this
    {
      RuleSet(allow) && RuleSet(deny)
    }

    constructor ()
      ensures Valid() && empty && !denyAll && !allowAll && deny == {} && allow == {}
    {
      denyAll, allowAll, empty := false, false, true;
      deny, allow := {}, {};
    }

    method IsFullIp(ipPrefix: string) returns (full: bool)
      ensures full <==> Dots(ipPrefix) == 3
    {
      var n := 0;
      assert ipPrefix[0..] == ipPrefix;
      for i := 0 to |ipPrefix|
        invariant Dots(ipPrefix) == n + Dots(ipPrefix[i..])
      {
        if ipPrefix[i] == '.' {
          n := n + 1;
        }
        assert ipPrefix[i..][1..] == ipPrefix[i + 1..];
      }
      return n == 3;
    }

    method AddAllow(ipPrefix: string)
      requires Valid()
      modifies this
      ensures Valid() && !empty && denyAll == old(denyAll) && deny == old(deny)
      ensures allowAll == (old(allowAll) || ipPrefix == "all" || ipPrefix == "*")
      ensures allow == old(allow) +
              if ipPrefix == "all" || ipPrefix == "*" then {}
              else {ipPrefix + if multiset(ipPrefix)['.'] == 3 then "=" else "@"}
    {
      DotsIs(ipPrefix);
      if ipPrefix == "all" || ipPrefix == "*" {
        allowAll := true;
      } else {
        var full := IsFullIp(ipPrefix);
        var prefix := ipPrefix + if full then "=" else "@";
        assert Text(prefix) == ipPrefix;
        allow := allow + {prefix};
      }
      empty := false;
    }

    method AddDeny(ipPrefix: string)
      requires Valid()
      modifies this
      ensures Valid() && !empty && allowAll == old(allowAll) && allow == old(allow)
      ensures denyAll == (old(denyAll) || ipPrefix == "all" || ipPrefix == "*")
      ensures deny == old(deny) +
              if ipPrefix == "all" || ipPrefix == "*" then {}
              else {ipPrefix + if multiset(ipPrefix)['.'] == 3 then "=" else "@"}
    {
      DotsIs(ipPrefix);
      if ipPrefix == "all" || ipPrefix == "*" {
        denyAll := true;
      } else {
        var full := IsFullIp(ipPrefix);
        var prefix := ipPrefix + if full then "=" else "@";
        assert Text(prefix) == ipPrefix;
        deny := deny + {prefix};
      }
      empty := false;
    }

    // Allowed rules come before denied ones, and both before "all": with no nested rules on
    // either side the answer is that of a scan.
    method CheckPass(ip: string) returns (pass: bool)
      requires Valid()
      ensures pass <==> empty || Passes(allowAll && !denyAll, Hit(allow, ip), Hit(deny, ip))
      ensures IpText(ip) && PrefixFree(allow) && PrefixFree(deny) ==>
                (pass <==> empty || AnyMatches(allow, ip) || (!AnyMatches(deny, ip) && !denyAll && allowAll))
    {
      if IpText(ip) && PrefixFree(allow) && PrefixFree(deny) {
        LookupIsScan(allow, ip);
        LookupIsScan(deny, ip);
      }
      if empty {
        return true;
      }
      var hit := CheckHit(allow, ip);
      if hit {
        return true;
      }
      hit := CheckHit(deny, ip);
      if hit {
        return false;
      }
      if denyAll {
        return false;
      }
      if allowAll {
        return true;
      }
      return false;
    }
  }

  // ---------- What a filter answers, from the texts it was given ----------

  predicate All(text: string) {
    text == "all" || text == "*"
  }

  // The address a text with three dots stands for is the text; others stand for all addresses that
  // go on behind them.
  predicate Covers(text: string, ip: string) {
    !All(text) && if multiset(text)['.'] == 3 then ip == text else text < ip
  }

  // No text listed starts another.
  ghost predicate Flat(texts: seq<string>) {
    forall a <- texts, b <- texts :: a <= b && !All(a) && !All(b) ==> a == b
  }

  ghost function Stored(texts: seq<string>): set<string> {
    set t | t in texts && !All(t) :: Rule(t)
  }

  lemma {:induction false} MatchesIs(text: string, ip: string)
    ensures Matches(Rule(text), ip) && !All(text) <==> Covers(text, ip)
    ensures IsRule(Rule(text)) && Text(Rule(text)) == text
  {
    DotsIs(text);
    assert Text(Rule(text)) == text;
  }

  // One side of a filter, given these texts.
  ghost predicate Side(rules: set<string>, all: bool, texts: seq<string>) {
    rules == Stored(texts) && (all <==> exists t <- texts :: All(t))
  }

  lemma {:induction false} SideStart()
    ensures Side({}, false, [])
  {
  }

  lemma {:induction false} SideSnoc(rules: set<string>, all: bool, texts: seq<string>, i: nat)
    requires i < |texts| && Side(rules, all, texts[..i])
    ensures var text := texts[i];
            var mark := if multiset(text)['.'] == 3 then "=" else "@";
            Side(rules + if All(text) then {} else {text + mark}, all || All(text), texts[..i + 1])
  {
    hide All;
    var text := texts[i];
    DotsIs(text);
    assert forall t :: t in texts[..i + 1] <==> t in texts[..i] || t == text;
  }

  lemma {:induction false} StoredIs(texts: seq<string>, ip: string)
    ensures RuleSet(Stored(texts))
    ensures AnyMatches(Stored(texts), ip) <==> exists t <- texts :: Covers(t, ip)
    ensures Flat(texts) ==> PrefixFree(Stored(texts))
  {
    hide Rule, All, Matches, Covers;
    forall t
      ensures IsRule(Rule(t)) && Text(Rule(t)) == t && (Matches(Rule(t), ip) && !All(t) <==> Covers(t, ip))
    {
      MatchesIs(t, ip);
    }
    if t :| t in texts && Covers(t, ip) {
      assert Rule(t) in Stored(texts);
    }
  }

  // Main result on the filter: filled with texts of which none starts another, it answers for every
  // address just as the texts say. Allowed texts come before denied ones, and both before "all".
  method Answer(allowed: seq<string>, denied: seq<string>, ip: string) returns (pass: bool)
    requires Flat(allowed) && Flat(denied)
    requires forall i | 0 <= i < |ip| :: '0' <= ip[i] <= '9' || ip[i] == '.'
    ensures pass <==>
            || (allowed == [] && denied == [])
            || (exists t <- allowed :: Covers(t, ip))
            || ((exists t <- allowed :: All(t)) && !(exists t <- denied :: All(t) || Covers(t, ip)))
  {
    hide Rule, Covers, Flat, Stored, Hit, AnyMatches, RuleSet, Side;
    var f := new Filter();
    SideStart();
    for i := 0 to |allowed|
      invariant fresh(f) && f.Valid() && f.deny == {} && !f.denyAll && (f.empty <==> i == 0)
      invariant Side(f.allow, f.allowAll, allowed[..i])
    {
      SideSnoc(f.allow, f.allowAll, allowed, i);
      f.AddAllow(allowed[i]);
    }
    assert allowed[..|allowed|] == allowed && denied[..|denied|] == denied;
    for i := 0 to |denied|
      invariant fresh(f) && f.Valid() && Side(f.allow, f.allowAll, allowed)
      invariant (f.empty <==> allowed == [] && i == 0) && Side(f.deny, f.denyAll, denied[..i])
    {
      SideSnoc(f.deny, f.denyAll, denied, i);
      f.AddDeny(denied[i]);
    }
    SideMeans(f.allow, f.allowAll, allowed, ip);
    SideMeans(f.deny, f.denyAll, denied, ip);
    pass := f.CheckPass(ip);
  }

  lemma {:induction false} SideMeans(rules: set<string>, all: bool, texts: seq<string>, ip: string)
    requires Side(rules, all, texts) && Flat(texts)
    ensures RuleSet(rules) && PrefixFree(rules) && (all <==> exists t <- texts :: All(t))
    ensures AnyMatches(rules, ip) <==> exists t <- texts :: Covers(t, ip)
  {
    hide All, Covers, AnyMatches, PrefixFree, RuleSet;
    StoredIs(texts, ip);
  }
}
