/**
 `exclusions/filter.py`: the plain meaning of an exclusion rule, the type buckets that avoid scanning
 every rule per indicator, and the proof that both exclude the same indicators.
 */
module ExclusionFilter {
  import opened Wrappers
  import opened Text
  import opened Urls
  import opened Cidr

  /** One row of `exclusions`; empty notes stand for NULL as well. */
  datatype Rule = Rule(iocType: string, value: string, notes: string, enabled: bool, customer: Option<string>)

  /** An extracted indicator. */
  datatype Ioc = Ioc(iocType: string, value: string)

  datatype Excluded = Excluded(value: string, iocType: string, reason: string)

  /** Parsing by the `ipaddress` library; `None` is its ValueError. */
  datatype IpLib = IpLib(network: string -> Option<Prefix>, address: string -> Option<Address>)

  // ---------------------------------------------------------------------------------------
  // The plain definition, rule by rule
  // ---------------------------------------------------------------------------------------

  /** Enabled, and global or scoped to this incident's customer. */
  predicate Active(r: Rule, customer: Option<string>) {
    r.enabled && (r.customer.None? || r.customer == Some("") || r.customer == customer)
  }

  /** The host a domain rule is compared with, if there is one. */
  function HostOf(ioc: Ioc): Option<string> {
    var v := Lower(Strip(ioc.value));
    var host :=
      if ioc.iocType == "url" then UrlHost(v)
      else if ioc.iocType == "email" then
        if '@' in v then StripDots(Strip(AfterLast(v, '@'))) else ""
      else v;
    if host == "" then None else Some(host)
  }

  predicate DomainCovers(domain: string, host: string) {
    host == domain || EndsWith(host, "." + domain)
  }

  predicate IsIp(t: string) { t in {"ipv4", "ipv6"} }
  predicate IsHosted(t: string) { t in {"domain", "url", "email"} }
  predicate IsHash(t: string) { t in {"sha256", "sha1", "md5"} }

  predicate Matches(lib: IpLib, r: Rule, ioc: Ioc) {
    var rv, v := Strip(r.value), Strip(ioc.value);
    && rv != "" && v != ""
    && (|| (IsIp(ioc.iocType) && r.iocType == "ip" && rv == v)
        || (IsIp(ioc.iocType) && r.iocType == "cidr" && CidrCovers(lib, rv, v))
        || (IsHosted(ioc.iocType) && r.iocType == "domain" && HostOf(ioc).Some? &&
            DomainCovers(Lower(rv), HostOf(ioc).value))
        || (IsHash(ioc.iocType) && r.iocType == "hash" && Lower(rv) == Lower(v)))
  }

  predicate CidrCovers(lib: IpLib, network: string, address: string) {
    var n, a := lib.network(network), lib.address(address);
    n.Some? && a.Some? && Contains(n.value, a.value)
  }

  ghost predicate Hit(lib: IpLib, rules: seq<Rule>, customer: Option<string>, ioc: Ioc) {
    exists r :: r in rules && Active(r, customer) && Matches(lib, r, ioc)
  }

  function Reason(r: Rule): string {
    "rule `" + r.iocType + ":" + r.value + "`" + (if r.notes == "" then "" else " \U{2014} " + r.notes)
  }

  /** The indicators that no rule hits, in order. */
  ghost function Kept(lib: IpLib, rules: seq<Rule>, customer: Option<string>, iocs: seq<Ioc>): seq<Ioc> {
    if iocs == [] then []
    else
      var n := |iocs| - 1;
      Kept(lib, rules, customer, iocs[..n]) + if Hit(lib, rules, customer, iocs[n]) then [] else [iocs[n]]
  }

  /** The indicators that some rule hits, in order. */
  ghost function Dropped(lib: IpLib, rules: seq<Rule>, customer: Option<string>, iocs: seq<Ioc>): seq<Ioc> {
    if iocs == [] then []
    else
      var n := |iocs| - 1;
      Dropped(lib, rules, customer, iocs[..n]) + if Hit(lib, rules, customer, iocs[n]) then [iocs[n]] else []
  }

  /** The enabled rules in scope, in table order. */
  function ActiveOf(rules: seq<Rule>, customer: Option<string>): seq<Rule> {
    if rules == [] then []
    else
      var n := |rules| - 1;
      ActiveOf(rules[..n], customer) + if Active(rules[n], customer) then [rules[n]] else []
  }

  /** A rule that names the indicator itself. */
  predicate Exact(r: Rule, ioc: Ioc) {
    var rv, v := Strip(r.value), Strip(ioc.value);
    && rv != "" && v != ""
    && (|| (IsIp(ioc.iocType) && r.iocType == "ip" && rv == v)
        || (IsHosted(ioc.iocType) && r.iocType == "domain" && HostOf(ioc) == Some(Lower(rv)))
        || (IsHash(ioc.iocType) && r.iocType == "hash" && Lower(rv) == Lower(v)))
  }

  /** A rule that covers the indicator by its network or by a parent domain. */
  predicate Covering(lib: IpLib, r: Rule, ioc: Ioc) {
    var rv, v := Strip(r.value), Strip(ioc.value);
    && rv != "" && v != ""
    && (|| (IsIp(ioc.iocType) && r.iocType == "cidr" && CidrCovers(lib, rv, v))
        || (IsHosted(ioc.iocType) && r.iocType == "domain" && HostOf(ioc).Some? &&
            EndsWith(HostOf(ioc).value, "." + Lower(rv))))
  }

  /** Among several matching rules: the last that names the indicator, else the first that covers it. */
  ghost predicate Decides(lib: IpLib, rules: seq<Rule>, ioc: Ioc, r: Rule) {
    || (exists i | 0 <= i < |rules| ::
          rules[i] == r && Exact(r, ioc) && forall j | i < j < |rules| :: !Exact(rules[j], ioc))
    || ((forall j | 0 <= j < |rules| :: !Exact(rules[j], ioc)) &&
        exists i | 0 <= i < |rules| ::
          rules[i] == r && Covering(lib, r, ioc) && forall j | 0 <= j < i :: !Covering(lib, rules[j], ioc))
  }

  lemma MatchesSplit(lib: IpLib, r: Rule, ioc: Ioc)
    ensures Matches(lib, r, ioc) <==> Exact(r, ioc) || Covering(lib, r, ioc)
  {
    hide Strip, Lower, HostOf, EndsWith;
  }

  /** The deciding rule matches and there is at most one. */
  lemma DecidesIsUnique(lib: IpLib, rules: seq<Rule>, ioc: Ioc, r: Rule, q: Rule)
    requires Decides(lib, rules, ioc, r)
    ensures r in rules && Matches(lib, r, ioc)
    ensures Decides(lib, rules, ioc, q) ==> q == r
  {
    MatchesSplit(lib, r, ioc);
    hide Matches, Exact, Covering;
  }

  ghost predicate Cites(lib: IpLib, rules: seq<Rule>, customer: Option<string>, ioc: Ioc, x: Excluded) {
    && x.value == ioc.value && x.iocType == ioc.iocType
    && exists r :: Decides(lib, ActiveOf(rules, customer), ioc, r) && x.reason == Reason(r)
  }

  lemma {:induction false} ActiveOfIsFilter(rules: seq<Rule>, customer: Option<string>)
    ensures forall r :: r in ActiveOf(rules, customer) <==> r in rules && Active(r, customer)
    decreases |rules|
  {
    hide Active;
    if rules != [] {
      var n := |rules| - 1;
      ActiveOfIsFilter(rules[..n], customer);
      assert rules == rules[..n] + [rules[n]];
    }
  }

  /** The split loses and invents nothing. */
  lemma {:induction false} SplitConserves(lib: IpLib, rules: seq<Rule>, customer: Option<string>, iocs: seq<Ioc>)
    ensures multiset(Kept(lib, rules, customer, iocs)) + multiset(Dropped(lib, rules, customer, iocs)) == multiset(iocs)
    decreases |iocs|
  {
    hide Hit, Kept, Dropped;
    SplitUnfolds(lib, rules, customer, iocs);
    if iocs != [] {
      var n := |iocs| - 1;
      SplitConserves(lib, rules, customer, iocs[..n]);
      assert iocs == iocs[..n] + [iocs[n]];
    }
  }

  lemma SplitUnfolds(lib: IpLib, rules: seq<Rule>, customer: Option<string>, iocs: seq<Ioc>)
    ensures iocs == [] ==> Kept(lib, rules, customer, iocs) == [] && Dropped(lib, rules, customer, iocs) == []
    ensures iocs != [] ==>
              var front, x := iocs[..|iocs| - 1], iocs[|iocs| - 1];
              if Hit(lib, rules, customer, x) then
                && Kept(lib, rules, customer, iocs) == Kept(lib, rules, customer, front)
                && Dropped(lib, rules, customer, iocs) == Dropped(lib, rules, customer, front) + [x]
              else
                && Kept(lib, rules, customer, iocs) == Kept(lib, rules, customer, front) + [x]
                && Dropped(lib, rules, customer, iocs) == Dropped(lib, rules, customer, front)
  {
    hide Hit;
  }

  /** Each side holds only what belongs there. */
  lemma {:induction false} SplitIsPure(lib: IpLib, rules: seq<Rule>, customer: Option<string>, iocs: seq<Ioc>)
    ensures forall ioc | ioc in Kept(lib, rules, customer, iocs) :: !Hit(lib, rules, customer, ioc)
    ensures forall ioc | ioc in Dropped(lib, rules, customer, iocs) :: Hit(lib, rules, customer, ioc)
    decreases |iocs|
  {
    if iocs != [] {
      var n := |iocs| - 1;
      hide Hit;
      SplitIsPure(lib, rules, customer, iocs[..n]);
    }
  }

  lemma {:induction false} NoRulesKeepAll(lib: IpLib, rules: seq<Rule>, customer: Option<string>, iocs: seq<Ioc>)
    requires forall r | r in rules :: !Active(r, customer)
    ensures Kept(lib, rules, customer, iocs) == iocs && Dropped(lib, rules, customer, iocs) == []
    decreases |iocs|
  {
    if iocs != [] {
      var n := |iocs| - 1;
      NoRulesKeepAll(lib, rules, customer, iocs[..n]);
      assert iocs == iocs[..n] + [iocs[n]];
    }
  }

  // ---------------------------------------------------------------------------------------
  // What a rule excludes, in terms of the texts
  // ---------------------------------------------------------------------------------------

  /** The host of a URL is the one it was put together with, in lower case. */
  lemma HostOfUrl(
    scheme: Option<string>, user: Option<string>, host: string, port: Option<string>, tail: string, ioc: Ioc)
    requires ioc == Ioc("url", UrlText(scheme, user, host, port, tail))
    requires AreUrlParts(scheme, user, host, port, tail)
    requires host != "" && Trim(ioc.value)
    ensures HostOf(ioc) == Some(Lower(host))
  {
    hide UrlHost, Lower, Strip, Trim, AreUrlParts, UrlText, AfterLast, StripDots;
    UrlHostOfParts(scheme, user, host, port, tail);
    TrimmedStrips(ioc.value);
    LowerUrlHost(ioc.value);
    LowerEmpty(host);
  }

  /** The host of an e-mail address is what follows its "@", in lower case and without trailing dots. */
  lemma HostOfMail(user: string, host: string, dots: string, ioc: Ioc)
    requires ioc == Ioc("email", user + "@" + (host + dots)) && Trim(ioc.value)
    requires host != "" && Lacks(host + dots, '@') && !IsSpace((host + dots)[0]) && host[|host| - 1] != '.'
    requires forall i | 0 <= i < |dots| :: dots[i] == '.'
    ensures HostOf(ioc) == Some(Lower(host))
  {
    hide Lower, Strip, AfterLast, StripDots, UrlHost;
    var rest := host + dots;
    MailText(user, rest, ioc.value);
    DotsAreCut(host, dots);
    LowerStripDots(rest);
    LowerEmpty(host);
  }

  /** The text behind the "@" of a trimmed address, as the matcher sees it. */
  lemma MailText(user: string, rest: string, v: string)
    requires v == user + "@" + rest && Trim(v) && rest != "" && Lacks(rest, '@') && !IsSpace(rest[0])
    ensures Strip(v) == v && '@' in Lower(v)
    ensures Strip(AfterLast(Lower(v), '@')) == Lower(rest)
  {
    MailEnds(user, rest, v);
    hide Strip, AfterLast, Lacks;
    TrimmedStrips(v);
    TrimmedStrips(rest);
    MailHostOfParts(user, rest);
    hide Lower;
    LowerAfterLast(v, '@');
    LowerStrip(rest);
  }

  lemma MailEnds(user: string, rest: string, v: string)
    requires v == user + "@" + rest && Trim(v) && rest != "" && !IsSpace(rest[0])
    ensures Trim(rest) && '@' in Lower(v)
  {
    assert v[|v| - 1] == rest[|rest| - 1];
    assert v[|user|] == '@';
    assert Lower(v)[|user|] == '@';
    hide IsSpace;
  }

  lemma {:induction false} DotsAreCut(host: string, dots: string)
    requires host != "" && host[|host| - 1] != '.' && forall i | 0 <= i < |dots| :: dots[i] == '.'
    ensures StripDots(host + dots) == host
    decreases |dots|
  {
    if dots == "" {
      assert host + dots == host;
    } else {
      DotsAreCut(host, dots[..|dots| - 1]);
      assert (host + dots)[..|host + dots| - 1] == host + dots[..|dots| - 1];
    }
  }

  /** A domain rule excludes its own host and every host below it, and no other. */
  lemma DomainRuleMatchesIff(lib: IpLib, r: Rule, ioc: Ioc, host: string)
    requires r.iocType == "domain" && ioc.iocType in {"domain", "url", "email"}
    requires HostOf(ioc) == Some(host) && Strip(ioc.value) != ""
    ensures Matches(lib, r, ioc) <==>
            && Strip(r.value) != ""
            && (|| host == Lower(Strip(r.value))
                || exists sub: string :: host == sub + ("." + Lower(Strip(r.value))))
  {
    EndsWithIff(host, "." + Lower(Strip(r.value)));
    hide Strip, Lower, HostOf, EndsWith;
  }

  /** So a URL is excluded exactly by the rules for its host and for the domains above it. */
  lemma UrlRuleMatchesIff(
    lib: IpLib, r: Rule, scheme: Option<string>, user: Option<string>, host: string, port: Option<string>,
    tail: string, ioc: Ioc)
    requires ioc == Ioc("url", UrlText(scheme, user, host, port, tail))
    requires AreUrlParts(scheme, user, host, port, tail)
    requires host != "" && Trim(ioc.value)
    ensures Matches(lib, r, ioc) <==>
            && r.iocType == "domain" && Strip(r.value) != ""
            && (|| Lower(host) == Lower(Strip(r.value))
                || exists sub: string :: Lower(host) == sub + ("." + Lower(Strip(r.value))))
  {
    hide Strip, Lower, HostOf, Trim, AreUrlParts, UrlText;
    HostOfUrl(scheme, user, host, port, tail, ioc);
    TrimmedStrips(ioc.value);
    TextNotEmpty(scheme, user, host, port, tail);
    if r.iocType == "domain" {
      DomainRuleMatchesIff(lib, r, ioc, Lower(host));
    }
  }

  lemma TextNotEmpty(
    scheme: Option<string>, user: Option<string>, host: string, port: Option<string>, tail: string)
    requires host != ""
    ensures UrlText(scheme, user, host, port, tail) != ""
  {}

  /** An address is excluded by the rule with the same text and by the networks it lies in. */
  lemma AddressRuleMatchesIff(lib: IpLib, r: Rule, ioc: Ioc)
    requires ioc.iocType == "ipv4" || ioc.iocType == "ipv6"
    ensures Matches(lib, r, ioc) <==>
            var rv, v := Strip(r.value), Strip(ioc.value);
            && rv != "" && v != ""
            && (|| (r.iocType == "ip" && rv == v)
                || (&& r.iocType == "cidr" && lib.network(rv).Some? && lib.address(v).Some?
                    && var n, a := lib.network(rv).value, lib.address(v).value;
                       && a.version == n.base.version
                       && SameLeadingBits(Width(a.version), n.length, a.value, n.base.value)))
  {
    var n, a := lib.network(Strip(r.value)), lib.address(Strip(ioc.value));
    if n.Some? && a.Some? {
      ContainsIsPrefixMatch(n.value, a.value);
    }
    hide Strip, Contains, SameLeadingBits, HostOf;
  }

  /** A hash is excluded by the rule with the same text in any letter case; other kinds are never excluded. */
  lemma OtherRuleMatchesIff(lib: IpLib, r: Rule, ioc: Ioc)
    requires ioc.iocType !in {"ipv4", "ipv6", "domain", "url", "email"}
    ensures Matches(lib, r, ioc) <==>
            && ioc.iocType in {"sha256", "sha1", "md5"} && r.iocType == "hash"
            && Strip(r.value) != "" && Strip(ioc.value) != ""
            && Lower(Strip(r.value)) == Lower(Strip(ioc.value))
  {
    hide Strip, Lower, HostOf;
  }

  /** Disabled rules and rules of another customer never change the result. */
  lemma {:induction false} ForeignRuleDoesNotMatter(
    lib: IpLib, rules: seq<Rule>, r: Rule, customer: Option<string>, iocs: seq<Ioc>)
    requires !r.enabled || (r.customer.Some? && r.customer.value != "" && r.customer != customer)
    ensures Kept(lib, rules + [r], customer, iocs) == Kept(lib, rules, customer, iocs)
    decreases |iocs|
  {
    hide Matches;
    if iocs != [] {
      var n := |iocs| - 1;
      ForeignRuleDoesNotMatter(lib, rules, r, customer, iocs[..n]);
      assert Hit(lib, rules + [r], customer, iocs[n]) <==> Hit(lib, rules, customer, iocs[n]) by {
        if q :| q in rules && Active(q, customer) && Matches(lib, q, iocs[n]) {
          assert q in rules + [r];
        }
      }
    }
  }

  /** An enabled rule without a customer, or of this one, excludes whatever it matches. */
  lemma OwnRuleExcludes(lib: IpLib, rules: seq<Rule>, r: Rule, customer: Option<string>, iocs: seq<Ioc>, ioc: Ioc)
    requires r in rules && r.enabled && (r.customer.None? || r.customer == Some("") || r.customer == customer)
    requires Matches(lib, r, ioc)
    ensures ioc !in Kept(lib, rules, customer, iocs)
  {
    SplitIsPure(lib, rules, customer, iocs);
    assert Active(r, customer);
    assert Hit(lib, rules, customer, ioc);
    hide Matches, Kept, Dropped;
  }

  /** A reason quotes the value of its rule, and ends with the notes if there are any. */
  lemma ReasonQuotes(r: Rule)
    ensures exists front: string, back: string :: Reason(r) == front + (":" + r.value + "`") + back
    ensures r.notes != "" ==> exists front: string :: Reason(r) == front + r.notes
  {
    var quoted := ":" + r.value + "`";
    var head := "rule `" + r.iocType;
    var dash := " \U{2014} ";
    var tail := if r.notes == "" then "" else dash + r.notes;
    assert Reason(r) == head + quoted + tail;
    if r.notes != "" {
      assert Reason(r) == (head + quoted + dash) + r.notes;
    }
  }

  // ---------------------------------------------------------------------------------------
  // The buckets
  // ---------------------------------------------------------------------------------------

  datatype Buckets = Buckets(
    ipExact: map<string, Rule>,
    cidrNets: seq<(Prefix, Rule)>,
    domainExact: map<string, Rule>,
    domainSuffix: seq<(string, Rule)>,
    hashExact: map<string, Rule>)

  /** The key under which a rule of type `ty` is filed in an exact bucket. */
  predicate Keyed(r: Rule, ty: string, v: string) {
    r.iocType == ty && Strip(r.value) != "" && v == if ty == "ip" then Strip(r.value) else Lower(Strip(r.value))
  }

  ghost predicate IsLast(rules: seq<Rule>, r: Rule, ty: string, v: string) {
    exists i | 0 <= i < |rules| ::
      rules[i] == r && Keyed(r, ty, v) && forall j | i < j < |rules| :: !Keyed(rules[j], ty, v)
  }

  /** An exact bucket holds, for every key, the last rule filed under it. */
  ghost predicate HoldsLast(rules: seq<Rule>, ty: string, bucket: map<string, Rule>) {
    && (forall v | v in bucket :: IsLast(rules, bucket[v], ty, v))
    && (forall v, k | v !in bucket && 0 <= k < |rules| :: !Keyed(rules[k], ty, v))
  }

  predicate IsCidrRule(lib: IpLib, r: Rule) {
    r.iocType == "cidr" && Strip(r.value) != "" && lib.network(Strip(r.value)).Some?
  }

  predicate IsDomainRule(r: Rule) {
    r.iocType == "domain" && Strip(r.value) != ""
  }

  function CidrEntry(lib: IpLib, r: Rule): (Prefix, Rule)
    requires IsCidrRule(lib, r)
  {
    (lib.network(Strip(r.value)).value, r)
  }

  function SuffixEntry(r: Rule): (string, Rule) { ("." + Lower(Strip(r.value)), r) }

  /** The parsed networks of the `cidr` rules, in order; rules that do not parse are skipped. */
  function CidrsOf(lib: IpLib, rules: seq<Rule>): seq<(Prefix, Rule)> {
    if rules == [] then []
    else
      var n := |rules| - 1;
      CidrsOf(lib, rules[..n]) + if IsCidrRule(lib, rules[n]) then [CidrEntry(lib, rules[n])] else []
  }

  /** The suffixes of the `domain` rules, in order. */
  function SuffixesOf(rules: seq<Rule>): seq<(string, Rule)> {
    if rules == [] then []
    else
      var n := |rules| - 1;
      SuffixesOf(rules[..n]) + if IsDomainRule(rules[n]) then [SuffixEntry(rules[n])] else []
  }

  /** The buckets of a list of rules. */
  ghost predicate Files(lib: IpLib, rules: seq<Rule>, b: Buckets) {
    && HoldsLast(rules, "ip", b.ipExact)
    && HoldsLast(rules, "domain", b.domainExact)
    && HoldsLast(rules, "hash", b.hashExact)
    && b.cidrNets == CidrsOf(lib, rules)
    && b.domainSuffix == SuffixesOf(rules)
  }

  /** Filing one more rule. */
  function File(lib: IpLib, b: Buckets, r: Rule): Buckets {
    var v := Strip(r.value);
    if v == "" then b
    else if r.iocType == "ip" then b.(ipExact := b.ipExact[v := r])
    else if r.iocType == "cidr" then
      (match lib.network(v)
       case None => b
       case Some(net) => b.(cidrNets := b.cidrNets + [(net, r)]))
    else if r.iocType == "domain" then
      b.(domainExact := b.domainExact[Lower(v) := r], domainSuffix := b.domainSuffix + [("." + Lower(v), r)])
    else if r.iocType == "hash" then b.(hashExact := b.hashExact[Lower(v) := r])
    else b
  }

  lemma HoldsLastSnoc(rules: seq<Rule>, ty: string, bucket: map<string, Rule>, r: Rule)
    requires HoldsLast(rules, ty, bucket)
    ensures forall v | Keyed(r, ty, v) :: HoldsLast(rules + [r], ty, bucket[v := r])
    ensures (forall v :: !Keyed(r, ty, v)) ==> HoldsLast(rules + [r], ty, bucket)
  {
    hide Keyed;
    var more := rules + [r];
    forall v | v in bucket && !Keyed(r, ty, v) ensures IsLast(more, bucket[v], ty, v) {
      var i :| 0 <= i < |rules| && rules[i] == bucket[v] && Keyed(bucket[v], ty, v)
               && forall j | i < j < |rules| :: !Keyed(rules[j], ty, v);
      assert more[i] == bucket[v];
    }
    forall v | Keyed(r, ty, v) ensures HoldsLast(more, ty, bucket[v := r]) {
      assert more[|rules|] == r && IsLast(more, r, ty, v);
      forall w | w != v ensures !Keyed(r, ty, w) { KeyedIsUnique(r, ty, v, w); }
    }
  }

  lemma KeyedIsUnique(r: Rule, ty: string, v: string, w: string)
    requires v != w && Keyed(r, ty, v)
    ensures !Keyed(r, ty, w)
  {}

  lemma FileFiles(lib: IpLib, rules: seq<Rule>, b: Buckets, r: Rule)
    requires Files(lib, rules, b)
    ensures Files(lib, rules + [r], File(lib, b, r))
  {
    hide Keyed, HoldsLast, CidrsOf, SuffixesOf, IsCidrRule, IsDomainRule, Strip, Lower;
    HoldsLastSnoc(rules, "ip", b.ipExact, r);
    HoldsLastSnoc(rules, "domain", b.domainExact, r);
    HoldsLastSnoc(rules, "hash", b.hashExact, r);
    ListsSnoc(lib, rules, r);
    FileByType(lib, b, r);
  }

  lemma ListsSnoc(lib: IpLib, rules: seq<Rule>, r: Rule)
    ensures CidrsOf(lib, rules + [r]) == CidrsOf(lib, rules) + if IsCidrRule(lib, r) then [CidrEntry(lib, r)] else []
    ensures SuffixesOf(rules + [r]) == SuffixesOf(rules) + if IsDomainRule(r) then [SuffixEntry(r)] else []
  {
    hide IsCidrRule, IsDomainRule;
    assert (rules + [r])[..|rules|] == rules;
  }

  /** Which bucket a rule goes to. */
  lemma FileByType(lib: IpLib, b: Buckets, r: Rule)
    ensures var b' := File(lib, b, r);
            && (forall v | Keyed(r, "ip", v) :: b'.ipExact == b.ipExact[v := r])
            && ((forall v :: !Keyed(r, "ip", v)) ==> b'.ipExact == b.ipExact)
            && (forall v | Keyed(r, "domain", v) :: b'.domainExact == b.domainExact[v := r])
            && ((forall v :: !Keyed(r, "domain", v)) ==> b'.domainExact == b.domainExact)
            && (forall v | Keyed(r, "hash", v) :: b'.hashExact == b.hashExact[v := r])
            && ((forall v :: !Keyed(r, "hash", v)) ==> b'.hashExact == b.hashExact)
            && b'.cidrNets == b.cidrNets + (if IsCidrRule(lib, r) then [CidrEntry(lib, r)] else [])
            && b'.domainSuffix == b.domainSuffix + (if IsDomainRule(r) then [SuffixEntry(r)] else [])
  {
    hide Strip, Lower;
    var v := Strip(r.value);
    assert v != "" && r.iocType == "ip" ==> Keyed(r, "ip", v);
    assert v != "" && r.iocType == "domain" ==> Keyed(r, "domain", Lower(v));
    assert v != "" && r.iocType == "hash" ==> Keyed(r, "hash", Lower(v));
  }

  method BuildBuckets(lib: IpLib, rules: seq<Rule>) returns (b: Buckets)
    ensures Files(lib, rules, b)
  {
    b := Buckets(map[], [], map[], [], map[]);
    assert rules[..0] == [];
    assert Files(lib, rules[..0], b);
    hide Files, File;
    for n := 0 to |rules|
      invariant Files(lib, rules[..n], b)
    {
      FileFiles(lib, rules[..n], b, rules[n]);
      assert rules[..n + 1] == rules[..n] + [rules[n]];
      b := File(lib, b, rules[n]);
    }
    assert rules[..|rules|] == rules;
  }

  /** Position `k` of the network list, read back as a position in the rules. */
  lemma {:induction false} CidrPosition(lib: IpLib, rules: seq<Rule>, k: nat) returns (i: nat)
    requires k < |CidrsOf(lib, rules)|
    ensures i < |rules| && IsCidrRule(lib, rules[i]) && CidrsOf(lib, rules)[k] == CidrEntry(lib, rules[i])
    ensures forall j | 0 <= j < i && IsCidrRule(lib, rules[j]) :: CidrEntry(lib, rules[j]) in CidrsOf(lib, rules)[..k]
    decreases |rules|
  {
    hide IsCidrRule, CidrEntry;
    var n := |rules| - 1;
    var early := CidrsOf(lib, rules[..n]);
    if k < |early| {
      i := CidrPosition(lib, rules[..n], k);
      assert early[..k] == CidrsOf(lib, rules)[..k];
    } else {
      i := n;
      CidrsAreAll(lib, rules[..n]);
      assert early == CidrsOf(lib, rules)[..k];
    }
  }

  lemma {:induction false} CidrsAreAll(lib: IpLib, rules: seq<Rule>)
    ensures forall j | 0 <= j < |rules| && IsCidrRule(lib, rules[j]) :: CidrEntry(lib, rules[j]) in CidrsOf(lib, rules)
    decreases |rules|
  {
    hide IsCidrRule, CidrEntry;
    if rules != [] {
      CidrsAreAll(lib, rules[..|rules| - 1]);
    }
  }

  /** Position `k` of the suffix list, read back as a position in the rules. */
  lemma {:induction false} SuffixPosition(rules: seq<Rule>, k: nat) returns (i: nat)
    requires k < |SuffixesOf(rules)|
    ensures i < |rules| && IsDomainRule(rules[i]) && SuffixesOf(rules)[k] == SuffixEntry(rules[i])
    ensures forall j | 0 <= j < i && IsDomainRule(rules[j]) :: SuffixEntry(rules[j]) in SuffixesOf(rules)[..k]
    decreases |rules|
  {
    hide IsDomainRule, SuffixEntry;
    var n := |rules| - 1;
    var early := SuffixesOf(rules[..n]);
    if k < |early| {
      i := SuffixPosition(rules[..n], k);
      assert early[..k] == SuffixesOf(rules)[..k];
    } else {
      i := n;
      SuffixesAreAll(rules[..n]);
      assert early == SuffixesOf(rules)[..k];
    }
  }

  lemma {:induction false} SuffixesAreAll(rules: seq<Rule>)
    ensures forall j | 0 <= j < |rules| && IsDomainRule(rules[j]) :: SuffixEntry(rules[j]) in SuffixesOf(rules)
    decreases |rules|
  {
    hide IsDomainRule, SuffixEntry;
    if rules != [] {
      SuffixesAreAll(rules[..|rules| - 1]);
    }
  }

  /** No rule names the indicator or covers it. */
  ghost predicate Unmatched(lib: IpLib, rules: seq<Rule>, ioc: Ioc) {
    forall k | 0 <= k < |rules| :: !Exact(rules[k], ioc) && !Covering(lib, rules[k], ioc)
  }

  /** The lookup in one exact bucket. */
  lemma ExactBucket(lib: IpLib, rules: seq<Rule>, ty: string, bucket: map<string, Rule>, v: string, ioc: Ioc)
    requires HoldsLast(rules, ty, bucket)
    requires forall r :: Exact(r, ioc) <==> Keyed(r, ty, v)
    ensures v in bucket ==> Decides(lib, rules, ioc, bucket[v])
    ensures v !in bucket ==> forall k | 0 <= k < |rules| :: !Exact(rules[k], ioc)
  {
    hide Exact, Keyed, Covering;
  }

  method LookUpIp(lib: IpLib, rules: seq<Rule>, b: Buckets, ioc: Ioc) returns (hit: Option<Rule>)
    requires Files(lib, rules, b) && Strip(ioc.value) != "" && IsIp(ioc.iocType)
    ensures hit.Some? ==> Decides(lib, rules, ioc, hit.value)
    ensures hit.None? ==> Unmatched(lib, rules, ioc)
  {
    hide Strip, Lower, HostOf, Contains, Decides, HoldsLast;
    var v := Strip(ioc.value);
    ExactBucket(lib, rules, "ip", b.ipExact, v, ioc);
    if v in b.ipExact {
      return Some(b.ipExact[v]);
    }
    hit := None;
    match lib.address(v)
    case None =>
    case Some(a) =>
      for k := 0 to |b.cidrNets|
        invariant forall j | 0 <= j < k :: !Contains(b.cidrNets[j].0, a)
      {
        if Contains(b.cidrNets[k].0, a) {
          FirstNetworkDecides(lib, rules, ioc, a, k);
          return Some(b.cidrNets[k].1);
        }
      }
      NoNetworkCovers(lib, rules, ioc, a);
  }

  lemma FirstNetworkDecides(lib: IpLib, rules: seq<Rule>, ioc: Ioc, a: Address, k: nat)
    requires IsIp(ioc.iocType) && Strip(ioc.value) != "" && lib.address(Strip(ioc.value)) == Some(a)
    requires forall j | 0 <= j < |rules| :: !Exact(rules[j], ioc)
    requires k < |CidrsOf(lib, rules)| && Contains(CidrsOf(lib, rules)[k].0, a)
    requires forall m | 0 <= m < k :: !Contains(CidrsOf(lib, rules)[m].0, a)
    ensures Decides(lib, rules, ioc, CidrsOf(lib, rules)[k].1)
  {
    hide Strip, Lower, HostOf, Contains, Exact, CidrsOf;
    var i := CidrPosition(lib, rules, k);
    assert Covering(lib, rules[i], ioc);
    forall j | 0 <= j < i && IsCidrRule(lib, rules[j]) ensures !Covering(lib, rules[j], ioc) {
      assert CidrEntry(lib, rules[j]) in CidrsOf(lib, rules)[..k];
    }
  }

  lemma NoNetworkCovers(lib: IpLib, rules: seq<Rule>, ioc: Ioc, a: Address)
    requires IsIp(ioc.iocType) && lib.address(Strip(ioc.value)) == Some(a)
    requires forall m | 0 <= m < |CidrsOf(lib, rules)| :: !Contains(CidrsOf(lib, rules)[m].0, a)
    ensures forall j | 0 <= j < |rules| :: !Covering(lib, rules[j], ioc)
  {
    hide Strip, Lower, HostOf, Contains, CidrsOf;
    CidrsAreAll(lib, rules);
    forall j | 0 <= j < |rules| && IsCidrRule(lib, rules[j]) ensures !Covering(lib, rules[j], ioc) {
      assert CidrEntry(lib, rules[j]) in CidrsOf(lib, rules);
    }
  }

  method LookUpHost(lib: IpLib, rules: seq<Rule>, b: Buckets, ioc: Ioc) returns (hit: Option<Rule>)
    requires Files(lib, rules, b) && Strip(ioc.value) != "" && IsHosted(ioc.iocType)
    ensures hit.Some? ==> Decides(lib, rules, ioc, hit.value)
    ensures hit.None? ==> Unmatched(lib, rules, ioc)
  {
    hide Strip, Lower, HostOf, Decides, HoldsLast;
    hit := None;
    match HostOf(ioc)
    case None =>
    case Some(host) =>
      ExactBucket(lib, rules, "domain", b.domainExact, host, ioc);
      if host in b.domainExact {
        return Some(b.domainExact[host]);
      }
      for k := 0 to |b.domainSuffix|
        invariant forall j | 0 <= j < k :: !EndsWith(host, b.domainSuffix[j].0)
      {
        if EndsWith(host, b.domainSuffix[k].0) {
          FirstSuffixDecides(lib, rules, ioc, host, k);
          return Some(b.domainSuffix[k].1);
        }
      }
      NoSuffixCovers(lib, rules, ioc, host);
  }

  lemma FirstSuffixDecides(lib: IpLib, rules: seq<Rule>, ioc: Ioc, host: string, k: nat)
    requires IsHosted(ioc.iocType) && Strip(ioc.value) != "" && HostOf(ioc) == Some(host)
    requires forall j | 0 <= j < |rules| :: !Exact(rules[j], ioc)
    requires k < |SuffixesOf(rules)| && EndsWith(host, SuffixesOf(rules)[k].0)
    requires forall m | 0 <= m < k :: !EndsWith(host, SuffixesOf(rules)[m].0)
    ensures Decides(lib, rules, ioc, SuffixesOf(rules)[k].1)
  {
    hide Strip, Lower, HostOf, EndsWith, Exact, SuffixesOf;
    var i := SuffixPosition(rules, k);
    assert Covering(lib, rules[i], ioc);
    forall j | 0 <= j < i && IsDomainRule(rules[j]) ensures !Covering(lib, rules[j], ioc) {
      assert SuffixEntry(rules[j]) in SuffixesOf(rules)[..k];
    }
  }

  lemma NoSuffixCovers(lib: IpLib, rules: seq<Rule>, ioc: Ioc, host: string)
    requires IsHosted(ioc.iocType) && HostOf(ioc) == Some(host)
    requires forall m | 0 <= m < |SuffixesOf(rules)| :: !EndsWith(host, SuffixesOf(rules)[m].0)
    ensures forall j | 0 <= j < |rules| :: !Covering(lib, rules[j], ioc)
  {
    hide Strip, Lower, HostOf, EndsWith, SuffixesOf;
    SuffixesAreAll(rules);
    forall j | 0 <= j < |rules| && IsDomainRule(rules[j]) ensures !Covering(lib, rules[j], ioc) {
      assert SuffixEntry(rules[j]) in SuffixesOf(rules);
    }
  }

  /** The bucket lookup of one indicator finds the deciding rule, and nothing exactly when no rule matches. */
  method LookUp(lib: IpLib, rules: seq<Rule>, b: Buckets, ioc: Ioc) returns (hit: Option<Rule>)
    requires Files(lib, rules, b)
    ensures hit.Some? ==> Decides(lib, rules, ioc, hit.value)
    ensures hit.None? ==> Unmatched(lib, rules, ioc)
  {
    hide Strip, Lower, HostOf, Decides, HoldsLast, CidrsOf, SuffixesOf;
    hit := None;
    var v := Strip(ioc.value);
    if v == "" {
      return;
    }
    if IsIp(ioc.iocType) {
      hit := LookUpIp(lib, rules, b, ioc);
    } else if IsHosted(ioc.iocType) {
      hit := LookUpHost(lib, rules, b, ioc);
    } else if IsHash(ioc.iocType) {
      ExactBucket(lib, rules, "hash", b.hashExact, Lower(v), ioc);
      if Lower(v) in b.hashExact {
        hit := Some(b.hashExact[Lower(v)]);
      }
    }
  }

  method ActiveRules(rules: seq<Rule>, customer: Option<string>) returns (active: seq<Rule>)
    ensures active == ActiveOf(rules, customer)
  {
    active := [];
    for n := 0 to |rules|
      invariant active == ActiveOf(rules[..n], customer)
    {
      assert rules[..n + 1][..n] == rules[..n];
      if Active(rules[n], customer) {
        active := active + [rules[n]];
      }
    }
    assert rules[..|rules|] == rules;
  }

  /** On the active rules, deciding and matching are what `Hit` says. */
  lemma DecidedIsHit(lib: IpLib, rules: seq<Rule>, customer: Option<string>, ioc: Ioc)
    ensures forall r | Decides(lib, ActiveOf(rules, customer), ioc, r) :: Hit(lib, rules, customer, ioc)
    ensures Unmatched(lib, ActiveOf(rules, customer), ioc) ==> !Hit(lib, rules, customer, ioc)
  {
    ActiveOfIsFilter(rules, customer);
    var active := ActiveOf(rules, customer);
    forall r | Decides(lib, active, ioc, r) ensures Hit(lib, rules, customer, ioc) {
      DecidesIsUnique(lib, active, ioc, r, r);
    }
    forall r ensures Matches(lib, r, ioc) <==> Exact(r, ioc) || Covering(lib, r, ioc) {
      MatchesSplit(lib, r, ioc);
    }
    hide Matches, Exact, Covering, ActiveOf, Decides;
  }

  /**
   `apply`: an order-preserving split of the indicators by the plain definition, each exclusion citing
   the rule that decides it.
   */
  method Apply(lib: IpLib, rules: seq<Rule>, iocs: seq<Ioc>, customer: Option<string>)
      returns (kept: seq<Ioc>, excluded: seq<Excluded>)
    ensures kept == Kept(lib, rules, customer, iocs)
    ensures |excluded| == |Dropped(lib, rules, customer, iocs)|
    ensures forall k | 0 <= k < |excluded| ::
              Cites(lib, rules, customer, Dropped(lib, rules, customer, iocs)[k], excluded[k])
  {
    hide Matches, Active, Files, Hit, Decides, Unmatched, ActiveOf;
    kept, excluded := [], [];
    if iocs == [] {
      return;
    }
    var active := ActiveRules(rules, customer);
    if active == [] {
      ActiveOfIsFilter(rules, customer);
      NoRulesKeepAll(lib, rules, customer, iocs);
      return iocs, [];
    }
    var b := BuildBuckets(lib, active);
    for n := 0 to |iocs|
      invariant kept == Kept(lib, rules, customer, iocs[..n])
      invariant |excluded| == |Dropped(lib, rules, customer, iocs[..n])|
      invariant forall k | 0 <= k < |excluded| ::
                  Cites(lib, rules, customer, Dropped(lib, rules, customer, iocs[..n])[k], excluded[k])
    {
      var ioc := iocs[n];
      assert iocs[..n + 1][..n] == iocs[..n];
      var hit := LookUp(lib, active, b, ioc);
      DecidedIsHit(lib, rules, customer, ioc);
      if hit.Some? {
        excluded := excluded + [Excluded(ioc.value, ioc.iocType, Reason(hit.value))];
        assert Cites(lib, rules, customer, ioc, excluded[|excluded| - 1]);
      } else {
        kept := kept + [ioc];
      }
    }
    assert iocs[..|iocs|] == iocs;
  }
}
