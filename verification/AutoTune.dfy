/**
 `exclusions/auto_tune.py`: candidate rules learned from false-positive verdicts, as a counter state
 machine, and how the learned values fare when `filter.py` applies them.
 */
module AutoTune {
  import opened Wrappers
  import opened Text
  import opened Urls
  import opened ExclusionFilter

  const PROMOTE_MIN_FP := 3
  const PROMOTE_MIN_RULES := 2

  // ---------------------------------------------------------------------------------------
  // From an indicator to a rule value
  // ---------------------------------------------------------------------------------------

  /** `_eligible_value`: rule type and normalized value, or `None` when the type is not eligible. */
  function EligibleValue(ioc: Ioc): Option<(string, string)> {
    var t, v := ioc.iocType, ioc.value;
    if v == "" then None
    else if t == "url" then
      var host := Lower(UrlHost(v));
      if host == "" then None else Some(("domain", host))
    else if t == "email" then
      if '@' !in v then None
      else
        var host := StripDots(Lower(Strip(AfterLast(v, '@'))));
        if host == "" then None else Some(("domain", host))
    else if IsIp(t) then Some(("ip", Strip(v)))
    else if t == "domain" then Some(("domain", Strip(v)))
    else if IsHash(t) then Some(("hash", Lower(Strip(v))))
    else None
  }

  /** From a URL the learner takes the host it was put together with, in lower case. */
  lemma LearnedFromUrl(
    scheme: Option<string>, user: Option<string>, host: string, port: Option<string>, tail: string)
    requires AreUrlParts(scheme, user, host, port, tail) && host != ""
    ensures EligibleValue(Ioc("url", UrlText(scheme, user, host, port, tail))) == Some(("domain", Lower(host)))
  {
    hide UrlHost, Lower, AreUrlParts, UrlText, AfterLast, Strip, StripDots;
    UrlHostOfParts(scheme, user, host, port, tail);
    TextNotEmpty(scheme, user, host, port, tail);
    LowerEmpty(host);
  }

  /** From an e-mail address it takes what follows the last "@", in lower case and without trailing dots. */
  lemma LearnedFromMail(user: string, host: string, dots: string)
    requires host != "" && Lacks(host + dots, '@') && host[|host| - 1] != '.' && Trim(host + dots)
    requires forall i | 0 <= i < |dots| :: dots[i] == '.'
    ensures EligibleValue(Ioc("email", user + "@" + (host + dots))) == Some(("domain", Lower(host)))
  {
    var v := user + "@" + (host + dots);
    assert v[|user|] == '@';
    MailHostOfParts(user, host + dots);
    TrimmedStrips(host + dots);
    LowerStripDots(host + dots);
    DotsAreCut(host, dots);
    LowerEmpty(host);
    hide Lower, AfterLast, Strip, StripDots, Lacks, UrlHost, Trim;
  }

  /** Addresses, domains and hashes are learned as they are, up to the ends and a hash's letter case. */
  lemma LearnedFromOthers(t: string, v: string)
    requires t != "url" && t != "email"
    ensures EligibleValue(Ioc(t, v)) ==
            if v == "" then None
            else if t == "ipv4" || t == "ipv6" then Some(("ip", Strip(v)))
            else if t == "domain" then Some(("domain", Strip(v)))
            else if t == "sha256" || t == "sha1" || t == "md5" then Some(("hash", Lower(Strip(v))))
            else None
  {
    hide Lower, AfterLast, Strip, StripDots, UrlHost;
  }

  /** The exclusion an analyst creates by approving a suggestion. */
  function ApprovedRule(iocType: string, value: string, notes: string, customer: Option<string>): Rule {
    Rule(iocType, Strip(value), notes, true, customer)
  }

  /**
   When the filter honours a learned rule: the indicator is not blank and, for URLs and e-mail
   addresses, the host the filter sees has no whitespace at its ends.
   */
  predicate Honoured(ioc: Ioc) {
    && Strip(ioc.value) != ""
    && (ioc.iocType == "url" || ioc.iocType == "email" ==> HostOf(ioc).Some? && Trim(HostOf(ioc).value))
  }

  lemma AppliedUrlHost(v: string)
    ensures UrlHost(Lower(Strip(v))) == Lower(UrlHost(Strip(v)))
    ensures Strip(Lower(UrlHost(v))) == Strip(Lower(UrlHost(Strip(v))))
  {
    LowerUrlHost(Strip(v));
    var l, r := StripSplits(v);
    var l', r' := PaddedUrlHost(l, Strip(v), r, v);
    StripOfPadded(l', UrlHost(Strip(v)), r', UrlHost(v));
    LowerStrip(UrlHost(v));
    LowerStrip(UrlHost(Strip(v)));
  }

  lemma EmailHostCore(v: string)
    ensures Strip(AfterLast(Strip(v), '@')) == Strip(AfterLast(v, '@'))
    ensures '@' in Lower(Strip(v)) <==> '@' in v
  {
    var l, r := StripSplits(v);
    AtSignSurvives(l, Strip(v), r, v);
    var l' := PaddedAfterLast(l, Strip(v), r, v, '@');
    StripOfPadded(l', AfterLast(Strip(v), '@'), r, AfterLast(v, '@'));
  }

  lemma AppliedEmailHost(v: string)
    ensures Strip(AfterLast(Lower(Strip(v)), '@')) == Lower(Strip(AfterLast(v, '@')))
    ensures '@' in Lower(Strip(v)) <==> '@' in v
  {
    hide Strip, Lower, AfterLast;
    EmailHostCore(v);
    LowerAfterLast(Strip(v), '@');
    LowerStrip(AfterLast(Strip(v), '@'));
  }

  lemma AtSignSurvives(l: string, s: string, r: string, v: string)
    requires Padded(l, s, r, v)
    ensures '@' in Lower(s) <==> '@' in v
  {
    if i :| 0 <= i < |v| && v[i] == '@' {
      assert |l| <= i < |l| + |s|;
      assert Lower(s)[i - |l|] == '@';
    }
    if i :| 0 <= i < |s| && Lower(s)[i] == '@' {
      assert v[|l| + i] == '@';
    }
  }

  lemma HostOfIsLower(ioc: Ioc)
    ensures HostOf(ioc).Some? ==> Lower(HostOf(ioc).value) == HostOf(ioc).value
  {
    var v := Lower(Strip(ioc.value));
    LowerIdempotent(Strip(ioc.value));
    if ioc.iocType == "url" {
      LowerUrlHost(v);
    } else if ioc.iocType == "email" {
      LowerAfterLast(v, '@');
      LowerStrip(AfterLast(v, '@'));
      LowerStripDots(Strip(AfterLast(v, '@')));
    }
  }

  /** A rule whose core is the core of the host matches exactly a trimmed host. */
  lemma CoreCoversHost(host: string, domain: string)
    requires domain == Strip(host) && host != ""
    ensures domain != "" && DomainCovers(domain, host) <==> Trim(host)
  {
    var l, r := StripSplits(host);
    TrimmedStrips(host);
    if domain != "" {
      PaddedEnds(l, domain, r, host);
      if EndsWith(host, "." + domain) {
        SuffixChars(host, domain);
      }
    }
  }

  /** For a learned host rule the compared domain is the core of the host the filter sees. */
  lemma LearnedDomain(ioc: Ioc, val: string)
    requires ioc.iocType == "url" || ioc.iocType == "email"
    requires EligibleValue(ioc) == Some(("domain", val)) && Strip(ioc.value) != ""
    ensures HostOf(ioc).Some? ==> Lower(Strip(Strip(val))) == Strip(HostOf(ioc).value)
    ensures HostOf(ioc).None? ==> Strip(Strip(val)) == ""
  {
    StripIdempotent(val);
    LowerStrip(val);
    if ioc.iocType == "url" {
      AppliedUrlHost(ioc.value);
      LowerIdempotent(UrlHost(ioc.value));
    } else {
      AppliedEmailHost(ioc.value);
      HostOfIsLower(ioc);
    }
  }

  predicate LearnsHost(ioc: Ioc) { ioc.iocType == "url" || ioc.iocType == "email" }

  lemma LearnedType(ioc: Ioc, ty: string, val: string)
    requires EligibleValue(ioc) == Some((ty, val))
    ensures LearnsHost(ioc) ==> ty == "domain" && IsHosted(ioc.iocType)
    ensures !LearnsHost(ioc) ==>
              if IsIp(ioc.iocType) then ty == "ip" && val == Strip(ioc.value)
              else if ioc.iocType == "domain" then ty == "domain" && val == Strip(ioc.value)
              else IsHash(ioc.iocType) && ty == "hash" && val == Lower(Strip(ioc.value))
  {
    hide Strip, Lower, UrlHost, AfterLast, StripDots;
  }

  lemma LearnedHostApplies(lib: IpLib, ioc: Ioc, val: string, notes: string, customer: Option<string>)
    requires LearnsHost(ioc) && EligibleValue(ioc) == Some(("domain", val)) && Strip(ioc.value) != ""
    ensures Matches(lib, ApprovedRule("domain", val, notes, customer), ioc) <==> Honoured(ioc)
  {
    hide Strip, Lower, HostOf, EligibleValue, DomainCovers, Trim;
    LearnedDomain(ioc, val);
    if HostOf(ioc).Some? {
      HostNotEmpty(ioc);
      CoreCoversHost(HostOf(ioc).value, Strip(HostOf(ioc).value));
    }
    LowerEmpty(Strip(Strip(val)));
  }

  lemma HostNotEmpty(ioc: Ioc)
    ensures HostOf(ioc).Some? ==> HostOf(ioc).value != ""
  {
    hide Strip, Lower, UrlHost, AfterLast, StripDots;
  }

  lemma LearnedPlainApplies(lib: IpLib, ioc: Ioc, ty: string, val: string, notes: string, customer: Option<string>)
    requires !LearnsHost(ioc) && EligibleValue(ioc) == Some((ty, val)) && Strip(ioc.value) != ""
    ensures Matches(lib, ApprovedRule(ty, val, notes, customer), ioc)
  {
    var v := Strip(ioc.value);
    LearnedType(ioc, ty, val);
    StripIdempotent(ioc.value);
    LowerStrip(v);
    LowerIdempotent(v);
    LowerEmpty(v);
    PlainHost(ioc);
    hide Strip, Lower, HostOf, EligibleValue, CidrCovers, EndsWith;
  }

  lemma PlainHost(ioc: Ioc)
    requires Strip(ioc.value) != ""
    ensures ioc.iocType == "domain" ==> HostOf(ioc) == Some(Lower(Strip(ioc.value)))
  {
    LowerEmpty(Strip(ioc.value));
    hide Strip, Lower, UrlHost, AfterLast, StripDots;
  }

  /**
   Learn, approve, apply: the approved rule matches the very indicator it was learned from exactly
   when `Honoured` holds. Lower-casing is that of ASCII letters.
   */
  lemma LearnThenApply(lib: IpLib, ioc: Ioc, ty: string, val: string, notes: string, customer: Option<string>)
    requires EligibleValue(ioc) == Some((ty, val))
    ensures Active(ApprovedRule(ty, val, notes, customer), customer)
    ensures Matches(lib, ApprovedRule(ty, val, notes, customer), ioc) <==> Honoured(ioc)
  {
    hide Strip, Lower, HostOf, EligibleValue, Trim, CidrCovers, DomainCovers;
    LearnedType(ioc, ty, val);
    if Strip(ioc.value) != "" {
      if LearnsHost(ioc) {
        LearnedHostApplies(lib, ioc, val, notes, customer);
      } else {
        LearnedPlainApplies(lib, ioc, ty, val, notes, customer);
      }
    }
  }

  /** An approved rule of one customer is never used for another. */
  lemma ApprovedRuleStaysScoped(ty: string, val: string, notes: string, name: string, customer: Option<string>)
    requires name != ""
    ensures Active(ApprovedRule(ty, val, notes, Some(name)), customer) <==> customer == Some(name)
  {}

  /** So `apply` never keeps an honoured indicator once its learned rule is among the rules. */
  lemma LearnedRuleExcludes(
    lib: IpLib, rules: seq<Rule>, iocs: seq<Ioc>, ioc: Ioc, ty: string, val: string, notes: string,
    customer: Option<string>)
    requires EligibleValue(ioc) == Some((ty, val)) && Honoured(ioc)
    requires ApprovedRule(ty, val, notes, customer) in rules
    ensures ioc !in Kept(lib, rules, customer, iocs)
  {
    LearnThenApply(lib, ioc, ty, val, notes, customer);
    assert Hit(lib, rules, customer, ioc);
    SplitIsPure(lib, rules, customer, iocs);
  }

  predicate NoSpaces(s: string) {
    forall i | 0 <= i < |s| :: !IsSpace(s[i])
  }

  lemma NoSpacesStrip(s: string)
    requires NoSpaces(s)
    ensures Strip(s) == s
  {
    TrimmedStrips(s);
  }

  lemma NoSpacesUrlHost(s: string)
    requires NoSpaces(s)
    ensures NoSpaces(UrlHost(s))
  {
    UrlHostCuts(s);
    var i, j :| 0 <= i <= j <= |s| && UrlHost(s) == s[i..j];
    hide UrlHost;
  }

  lemma NoSpacesLower(s: string)
    requires NoSpaces(s)
    ensures NoSpaces(Lower(s))
  {}

  lemma {:induction false} NoSpacesStripDots(s: string)
    requires NoSpaces(s)
    ensures NoSpaces(StripDots(s))
    decreases |s|
  {
    if s != "" && s[|s| - 1] == '.' {
      NoSpacesStripDots(s[..|s| - 1]);
    }
  }

  /** Every eligible indicator without whitespace is honoured. */
  lemma NoWhitespaceIsHonoured(ioc: Ioc)
    requires EligibleValue(ioc).Some? && NoSpaces(ioc.value)
    ensures Honoured(ioc)
  {
    var v := ioc.value;
    NoSpacesStrip(v);
    NoSpacesLower(v);
    if ioc.iocType == "url" {
      AppliedUrlHost(v);
      NoSpacesUrlHost(Lower(v));
    } else if ioc.iocType == "email" {
      AppliedEmailHost(v);
      var h := AfterLast(Lower(v), '@');
      NoSpacesStrip(h);
      NoSpacesStripDots(h);
    }
  }

  /**
   A space before the path is enough: the learned host can be approved (it has a dot and, once
   stripped, no space), but the approved rule misses its own URL.
   */
  lemma SpacedUrlIsNotHonoured(lib: IpLib, notes: string, customer: Option<string>)
    ensures EligibleValue(Ioc("url", "a.b /")) == Some(("domain", "a.b "))
    ensures ApprovedRule("domain", "a.b ", notes, customer).value == "a.b"
    ensures !Matches(lib, ApprovedRule("domain", "a.b ", notes, customer), Ioc("url", "a.b /"))
  {
    var v := "a.b /";
    SpacedUrlHost();
    SpacedText();
    hide Strip, UrlHost, Lower;
    assert HostOf(Ioc("url", v)) == Some("a.b ");
    assert IsSpace("a.b "[3]);
    assert !Honoured(Ioc("url", v));
    LearnThenApply(lib, Ioc("url", v), "domain", "a.b ", notes, customer);
  }

  lemma SpacedText()
    ensures Lower("a.b ") == "a.b " && Lower("a.b /") == "a.b /"
    ensures Strip("a.b /") == "a.b /" && Strip("a.b ") == "a.b"
  {
    TrimmedStrips("a.b /");
    TrimmedStrips("a.b");
    StripOfPadded("", "a.b", " ", "a.b ");
    assert "a.b" + " " == "a.b ";
  }

  lemma SpacedUrlHost()
    ensures UrlHost("a.b /") == "a.b "
  {
    var parts := UserPart(None) + "a.b " + PortPart(None) + "/";
    assert parts == "a.b /" && UrlText(None, None, "a.b ", None, "/") == "a.b /";
    forall i: nat ensures !SchemeAt(parts, i) {
      if i + 3 <= |parts| { SchemeChars(parts, i); }
    }
    UrlHostOfParts(None, None, "a.b ", None, "/");
  }

  // ---------------------------------------------------------------------------------------
  // Suggestions
  // ---------------------------------------------------------------------------------------

  datatype Status = Pending | Approved | Dismissed

  datatype Suggestion = Suggestion(
    fpCount: nat, seenRules: seq<string>, seenIncidents: seq<nat>,
    lastRule: string, lastSeen: int, confidence: int, status: Status)

  /** (value, type, customer): the unique key of `exclusion_suggestions`. */
  datatype Key = Key(value: string, iocType: string, customer: Option<string>)

  datatype Verdict = TP | FP | Benign | Other

  /** What the hook reads of an incident; `malicious` is `_malicious_values(enrichment)`. */
  datatype Incident = Incident(
    id: nat, verdict: Verdict, customer: Option<string>, ruleName: string, records: seq<Ioc>, malicious: set<string>)

  function RuleName(inc: Incident): string {
    if inc.ruleName == "" then "(unknown rule)" else inc.ruleName
  }

  function Confidence(fpCount: int, distinctRules: int): int {
    var raw := fpCount * 15 + distinctRules * 15;
    if raw < 100 then raw else 100
  }

  /** The TP query: some TP record has, raw and lower-cased, the same text as the rule value. */
  predicate TpGuard(tpRecords: set<string>, val: string) {
    exists raw :: raw in tpRecords && Lower(raw) == Lower(val)
  }

  /** The keys of an incident's records that survive the malicious-value guard. */
  function EligibleKeys(inc: Incident): set<Key> {
    set ioc | ioc in inc.records && EligibleValue(ioc).Some? && Lower(EligibleValue(ioc).value.1) !in inc.malicious ::
      Key(EligibleValue(ioc).value.1, EligibleValue(ioc).value.0, inc.customer)
  }

  lemma EligibleKeysAre(inc: Incident)
    ensures forall k: Key :: k in EligibleKeys(inc) <==>
              && k.customer == inc.customer
              && Lower(k.value) !in inc.malicious
              && exists ioc :: ioc in inc.records && EligibleValue(ioc) == Some((k.iocType, k.value))
  {
    hide EligibleValue, Lower;
    forall k: Key | && k.customer == inc.customer && Lower(k.value) !in inc.malicious
               && exists ioc :: ioc in inc.records && EligibleValue(ioc) == Some((k.iocType, k.value))
      ensures k in EligibleKeys(inc)
    {
      var ioc :| ioc in inc.records && EligibleValue(ioc) == Some((k.iocType, k.value));
      assert k == Key(EligibleValue(ioc).value.1, EligibleValue(ioc).value.0, inc.customer);
    }
  }

  function FreshSuggestion(): Suggestion {
    Suggestion(0, [], [], "", 0, 0, Pending)
  }

  /** One more false positive for a suggestion. */
  function Counted(s: Suggestion, inc: Incident, now: int): Suggestion {
    var rules := if RuleName(inc) in s.seenRules then s.seenRules else s.seenRules + [RuleName(inc)];
    Suggestion(s.fpCount + 1, rules, s.seenIncidents + [inc.id],
               RuleName(inc), now, Confidence(s.fpCount + 1, |rules|), s.status)
  }

  /** The effect of the hook on one key. */
  function Touched(rows: map<Key, Suggestion>, k: Key, inc: Incident, now: int): Suggestion {
    var s := if k in rows then rows[k] else FreshSuggestion();
    if s.status.Dismissed? || inc.id in s.seenIncidents then s else Counted(s, inc, now)
  }

  /** The keys one hook call works on. */
  function Targets(inc: Incident, tpRecords: set<string>): set<Key> {
    if inc.verdict.FP? || inc.verdict.Benign? then set k | k in EligibleKeys(inc) && !TpGuard(tpRecords, k.value)
    else {}
  }

  function After(rows: map<Key, Suggestion>, inc: Incident, tpRecords: set<string>, now: int): map<Key, Suggestion> {
    map k | k in rows.Keys + Targets(inc, tpRecords) ::
      if k in Targets(inc, tpRecords) then Touched(rows, k, inc, now) else rows[k]
  }

  class SuggestionTable {
    var rows: map<Key, Suggestion>

    constructor ()
      ensures rows == map[]
    {
      rows := map[];
    }

    method EligibleOf(inc: Incident) returns (eligible: set<Key>)
      ensures eligible == EligibleKeys(inc)
      ensures forall k: Key :: k in eligible <==>
                && k.customer == inc.customer
                && Lower(k.value) !in inc.malicious
                && exists ioc :: ioc in inc.records && EligibleValue(ioc) == Some((k.iocType, k.value))
    {
      eligible := {};
      for n := 0 to |inc.records|
        invariant eligible == EligibleKeys(inc.(records := inc.records[..n]))
      {
        assert inc.records[..n + 1] == inc.records[..n] + [inc.records[n]];
        var mapped := EligibleValue(inc.records[n]);
        if mapped == None {
          continue;
        }
        if Lower(mapped.value.1) in inc.malicious {
          continue;
        }
        eligible := eligible + {Key(mapped.value.1, mapped.value.0, inc.customer)};
      }
      assert inc.records[..|inc.records|] == inc.records;
      EligibleKeysAre(inc);
    }

    /** `record_fp_verdict`. */
    method RecordFpVerdict(inc: Incident, tpRecords: set<string>, now: int)
      modifies this
      ensures rows == After(old(rows), inc, tpRecords, now)
    {
      if !(inc.verdict.FP? || inc.verdict.Benign?) {
        return;
      }
      if inc.records == [] {
        assert EligibleKeys(inc) == {};
        return;
      }
      var eligible := EligibleOf(inc);
      var todo := eligible;
      while todo != {}
        invariant todo <= eligible
        invariant rows == AfterSome(old(rows), inc, tpRecords, now, eligible - todo)
      {
        var k :| k in todo;
        ghost var done := eligible - todo;
        todo := todo - {k};
        assert eligible - todo == done + {k};
        if TpGuard(tpRecords, k.value) {
          AfterSkips(old(rows), inc, tpRecords, now, done, k);
          continue;
        }
        AfterStep(old(rows), inc, tpRecords, now, done, k);
        var s := if k in rows then rows[k] else FreshSuggestion();
        if s.status.Dismissed? {
          continue;
        }
        if inc.id in s.seenIncidents {
          continue;
        }
        rows := rows[k := Counted(s, inc, now)];
      }
      AfterAll(old(rows), inc, tpRecords, now);
    }
  }

  /** The hook's effect when only the keys in `done` were worked on. */
  ghost function AfterSome(
    rows: map<Key, Suggestion>, inc: Incident, tpRecords: set<string>, now: int, done: set<Key>): map<Key, Suggestion>
  {
    map k | k in rows.Keys + done && (k in rows || !TpGuard(tpRecords, k.value)) ::
      if k in done && !TpGuard(tpRecords, k.value) then Touched(rows, k, inc, now) else rows[k]
  }

  lemma AfterSkips(rows: map<Key, Suggestion>, inc: Incident, tp: set<string>, now: int, done: set<Key>, k: Key)
    requires TpGuard(tp, k.value)
    ensures AfterSome(rows, inc, tp, now, done + {k}) == AfterSome(rows, inc, tp, now, done)
  {
    hide TpGuard, Touched;
  }

  lemma AfterStep(rows: map<Key, Suggestion>, inc: Incident, tp: set<string>, now: int, done: set<Key>, k: Key)
    requires !TpGuard(tp, k.value) && k !in done
    ensures var m := AfterSome(rows, inc, tp, now, done);
            && (k in m <==> k in rows) && (k in m ==> m[k] == rows[k])
            && AfterSome(rows, inc, tp, now, done + {k}) == m[k := Touched(rows, k, inc, now)]
  {
    hide TpGuard, Touched;
  }

  lemma AfterAll(rows: map<Key, Suggestion>, inc: Incident, tp: set<string>, now: int)
    requires inc.verdict.FP? || inc.verdict.Benign?
    ensures AfterSome(rows, inc, tp, now, EligibleKeys(inc)) == After(rows, inc, tp, now)
  {
    hide TpGuard, Touched, EligibleKeys;
  }

  // ---------------------------------------------------------------------------------------
  // What every run keeps
  // ---------------------------------------------------------------------------------------

  ghost predicate NoDuplicates<T>(s: seq<T>) {
    forall i, j | 0 <= i < j < |s| :: s[i] != s[j]
  }

  ghost predicate RowOk(s: Suggestion) {
    && s.fpCount == |s.seenIncidents|
    && NoDuplicates(s.seenIncidents) && NoDuplicates(s.seenRules)
    && |s.seenRules| <= s.fpCount
    && s.confidence == Confidence(s.fpCount, |s.seenRules|)
  }

  datatype Action =
    | Hook(inc: Incident, tpRecords: set<string>, now: int)
    | Approve(k: Key)
    | Dismiss(k: Key)

  /** Approving and dismissing write the status only; the approve route refuses approved rows. */
  function Perform(rows: map<Key, Suggestion>, a: Action): map<Key, Suggestion> {
    match a
    case Hook(inc, tpRecords, now) => After(rows, inc, tpRecords, now)
    case Approve(k) => if k in rows then rows[k := rows[k].(status := Approved)] else rows
    case Dismiss(k) => if k in rows then rows[k := rows[k].(status := Dismissed)] else rows
  }

  function PerformAll(rows: map<Key, Suggestion>, actions: seq<Action>): map<Key, Suggestion> {
    if actions == [] then rows
    else Perform(PerformAll(rows, actions[..|actions| - 1]), actions[|actions| - 1])
  }

  lemma CountedKeepsRowOk(s: Suggestion, inc: Incident, now: int)
    requires RowOk(s) && inc.id !in s.seenIncidents
    ensures RowOk(Counted(s, inc, now))
  {}

  lemma {:induction false} EveryRunKeepsRows(actions: seq<Action>, k: Key)
    requires k in PerformAll(map[], actions)
    ensures RowOk(PerformAll(map[], actions)[k])
    ensures var s := PerformAll(map[], actions)[k];
            && s.fpCount == |s.seenIncidents| && |s.seenRules| <= s.fpCount
            && s.confidence == if 15 * (s.fpCount + |s.seenRules|) < 100 then 15 * (s.fpCount + |s.seenRules|) else 100
    decreases |actions|
  {
    if actions != [] {
      var n := |actions| - 1;
      var before := PerformAll(map[], actions[..n]);
      if k in before {
        EveryRunKeepsRows(actions[..n], k);
      }
      if actions[n].Hook? {
        var s := if k in before then before[k] else FreshSuggestion();
        if actions[n].inc.id !in s.seenIncidents {
          CountedKeepsRowOk(s, actions[n].inc, actions[n].now);
        }
      }
    }
  }

  /** An incident a suggestion already counted never changes it again. */
  lemma CountedOnce(rows: map<Key, Suggestion>, inc: Incident, tpRecords: set<string>, now: int, k: Key)
    requires k in rows && inc.id in rows[k].seenIncidents
    ensures After(rows, inc, tpRecords, now)[k] == rows[k]
  {}

  /** The row of `k` is there after the hook and was not the same before. */
  predicate Changes(rows: map<Key, Suggestion>, after: map<Key, Suggestion>, k: Key) {
    k in after && (k !in rows || after[k] != rows[k])
  }

  /**
   When one hook counts for a key, in terms of what the incident brings: an FP or Benign verdict, a
   record of the same customer that maps to the key, no malicious mark, no true positive of that text,
   and a row that is missing, or neither dismissed nor counted already. All other rows stay.
   */
  lemma HookCountsIff(rows: map<Key, Suggestion>, inc: Incident, tpRecords: set<string>, now: int, k: Key)
    ensures var after := After(rows, inc, tpRecords, now);
            && (k in rows ==> k in after)
            && (Changes(rows, after, k) <==>
                  && (inc.verdict == FP || inc.verdict == Benign)
                  && k.customer == inc.customer
                  && (exists ioc :: ioc in inc.records && EligibleValue(ioc) == Some((k.iocType, k.value)))
                  && Lower(k.value) !in inc.malicious
                  && !(exists raw :: raw in tpRecords && Lower(raw) == Lower(k.value))
                  && (k in rows ==> rows[k].status != Dismissed && inc.id !in rows[k].seenIncidents))
  {
    EligibleKeysAre(inc);
    hide EligibleValue, Lower, EligibleKeys, RuleName, Confidence;
  }

  /** What counting does: one more false positive, of this incident, under this rule, at this time. */
  lemma CountingIs(rows: map<Key, Suggestion>, inc: Incident, tpRecords: set<string>, now: int, k: Key)
    requires Changes(rows, After(rows, inc, tpRecords, now), k)
    ensures var s := After(rows, inc, tpRecords, now)[k];
            var rule := if inc.ruleName == "" then "(unknown rule)" else inc.ruleName;
            var fps := if k in rows then rows[k].fpCount else 0;
            var incidents := if k in rows then rows[k].seenIncidents else [];
            var rules := if k in rows then rows[k].seenRules else [];
            && s.fpCount == fps + 1 && s.seenIncidents == incidents + [inc.id]
            && s.seenRules == rules + (if rule in rules then [] else [rule])
            && s.lastRule == rule && s.lastSeen == now
            && s.confidence ==
                 (if 15 * (s.fpCount + |s.seenRules|) < 100 then 15 * (s.fpCount + |s.seenRules|) else 100)
            && s.status == if k in rows then rows[k].status else Pending
  {
    hide Targets;
    var rules := if k in rows then rows[k].seenRules else [];
    assert rules + [] == rules;
  }

  /** Malicious values are never learned: such hooks leave a suggestion as it is, and make none. */
  lemma {:induction false} MaliciousRunKeepsRow(rows: map<Key, Suggestion>, actions: seq<Action>, k: Key)
    requires forall a | a in actions :: a.Hook? ==> Lower(k.value) in a.inc.malicious
    requires Approve(k) !in actions && Dismiss(k) !in actions
    ensures k in PerformAll(rows, actions) <==> k in rows
    ensures k in rows ==> PerformAll(rows, actions)[k] == rows[k]
    decreases |actions|
  {
    hide Lower, EligibleValue, Touched, TpGuard;
    if actions != [] {
      var n := |actions| - 1;
      MaliciousRunKeepsRow(rows, actions[..n], k);
      if actions[n].Hook? {
        EligibleKeysAre(actions[n].inc);
        hide EligibleKeys;
      }
    }
  }

  /** What a suggestion has counted stays counted. */
  lemma {:induction false} SeenGrows(rows: map<Key, Suggestion>, actions: seq<Action>, k: Key)
    requires k in rows
    ensures k in PerformAll(rows, actions)
    ensures forall id | id in rows[k].seenIncidents :: id in PerformAll(rows, actions)[k].seenIncidents
    decreases |actions|
  {
    if actions != [] {
      hide Targets, Confidence, RuleName;
      SeenGrows(rows, actions[..|actions| - 1], k);
    }
  }

  /** An approval of `k` with no later dismissal. */
  predicate Reopened(actions: seq<Action>, k: Key) {
    actions != [] &&
    var n := |actions| - 1;
    actions[n] == Approve(k) || (actions[n] != Dismiss(k) && Reopened(actions[..n], k))
  }

  /** A hook of the incident that works on `k` while `k` is reopened. */
  predicate CountedSince(actions: seq<Action>, k: Key, id: nat) {
    actions != [] &&
    var n := |actions| - 1;
    || CountedSince(actions[..n], k, id)
    || (&& Reopened(actions[..n], k)
        && actions[n].Hook? && actions[n].inc.id == id && k in Targets(actions[n].inc, actions[n].tpRecords))
  }

  /** Dismissed without having counted the incident. */
  predicate DismissedUncounted(rows: map<Key, Suggestion>, k: Key, id: nat) {
    k in rows && rows[k].status.Dismissed? && id !in rows[k].seenIncidents
  }

  /** The fate of such a row can be read off the actions. */
  lemma {:induction false} DismissedRowAfter(rows: map<Key, Suggestion>, actions: seq<Action>, k: Key, id: nat)
    requires DismissedUncounted(rows, k, id)
    ensures k in PerformAll(rows, actions)
    ensures PerformAll(rows, actions)[k].status.Dismissed? <==> !Reopened(actions, k)
    ensures id in PerformAll(rows, actions)[k].seenIncidents <==> CountedSince(actions, k, id)
    decreases |actions|
  {
    if actions != [] {
      hide Targets, Confidence, RuleName;
      DismissedRowAfter(rows, actions[..|actions| - 1], k, id);
    }
  }

  /** After its hook a key has counted the incident, unless its row was dismissed before that. */
  lemma HookCounts(rows: map<Key, Suggestion>, inc: Incident, tpRecords: set<string>, now: int, k: Key)
    requires k in Targets(inc, tpRecords)
    ensures var once := After(rows, inc, tpRecords, now);
            && k in once
            && (if DismissedUncounted(rows, k, inc.id) then once[k] == rows[k] else inc.id in once[k].seenIncidents)
  {
    hide Targets, Confidence, RuleName;
    var s := if k in rows then rows[k] else FreshSuggestion();
    if !s.status.Dismissed? && inc.id !in s.seenIncidents {
      assert Counted(s, inc, now).seenIncidents[|s.seenIncidents|] == inc.id;
    }
  }

  /** A hook changes nothing exactly when every key it works on has a row that is dismissed or has counted it. */
  lemma HookIsIdleIff(rows: map<Key, Suggestion>, inc: Incident, tpRecords: set<string>, now: int)
    ensures After(rows, inc, tpRecords, now) == rows <==>
            forall k | k in Targets(inc, tpRecords) ::
              k in rows && (rows[k].status.Dismissed? || inc.id in rows[k].seenIncidents)
  {
    hide Targets, Confidence, RuleName;
    var after := After(rows, inc, tpRecords, now);
    if k :| k in Targets(inc, tpRecords) && k !in rows {
      assert k in after;
    }
    if k :| && k in Targets(inc, tpRecords) && k in rows
            && !rows[k].status.Dismissed? && inc.id !in rows[k].seenIncidents {
      assert after[k].fpCount == rows[k].fpCount + 1;
    }
  }

  /** What decides whether a hook of incident `id` would change the row of `k`. */
  datatype Fate = Absent | Present(dismissed: bool, counted: bool)

  function FateOf(rows: map<Key, Suggestion>, k: Key, id: nat): Fate {
    if k in rows then Present(rows[k].status.Dismissed?, id in rows[k].seenIncidents) else Absent
  }

  /** The fate of `k` follows the actions alone: a hook that works on it, an approval, a dismissal. */
  function NextFate(f: Fate, a: Action, k: Key, id: nat): Fate {
    match a
    case Hook(inc, tpRecords, _) =>
      if k !in Targets(inc, tpRecords) then f
      else if f.Absent? then Present(false, inc.id == id)
      else if f.dismissed then f
      else f.(counted := f.counted || inc.id == id)
    case Approve(x) => if x == k && f.Present? then f.(dismissed := false) else f
    case Dismiss(x) => if x == k && f.Present? then f.(dismissed := true) else f
  }

  function FateAfter(f: Fate, actions: seq<Action>, k: Key, id: nat): Fate {
    if actions == [] then f
    else NextFate(FateAfter(f, actions[..|actions| - 1], k, id), actions[|actions| - 1], k, id)
  }

  lemma {:induction false} FateIsExact(rows: map<Key, Suggestion>, actions: seq<Action>, k: Key, id: nat)
    ensures FateOf(PerformAll(rows, actions), k, id) == FateAfter(FateOf(rows, k, id), actions, k, id)
    decreases |actions|
  {
    if actions != [] {
      FateIsExact(rows, actions[..|actions| - 1], k, id);
      NextFateIsExact(PerformAll(rows, actions[..|actions| - 1]), actions[|actions| - 1], k, id);
      hide NextFate, Perform, FateOf;
    }
  }

  lemma NextFateIsExact(rows: map<Key, Suggestion>, a: Action, k: Key, id: nat)
    ensures FateOf(Perform(rows, a), k, id) == NextFate(FateOf(rows, k, id), a, k, id)
  {
    hide Targets, Confidence, RuleName;
  }

  /** By the log, `k` has a row after the actions, and the row is dismissed or has counted the incident. */
  predicate Settled(rows: map<Key, Suggestion>, actions: seq<Action>, k: Key, id: nat) {
    var f := FateAfter(FateOf(rows, k, id), actions, k, id);
    f.Present? && (f.dismissed || f.counted)
  }

  /** A key the first hook did not work on: only the actions matter. */
  lemma OtherKeyAfter(
    rows: map<Key, Suggestion>, inc: Incident, tpRecords: set<string>, now: int, actions: seq<Action>, k: Key, id: nat)
    requires k !in Targets(inc, tpRecords)
    ensures var between := PerformAll(After(rows, inc, tpRecords, now), actions);
            Settled(rows, actions, k, id) <==>
            k in between && (between[k].status.Dismissed? || id in between[k].seenIncidents)
  {
    var once := After(rows, inc, tpRecords, now);
    assert FateOf(once, k, id) == FateOf(rows, k, id);
    FateIsExact(once, actions, k, id);
    hide After, Targets, PerformAll, FateAfter;
  }

  /** A key the first hook worked on: only a dismissal before the hook can leave it open. */
  lemma SameKeyAfter(
    rows: map<Key, Suggestion>, inc: Incident, tpRecords: set<string>, now: int, actions: seq<Action>, k: Key)
    requires k in Targets(inc, tpRecords)
    ensures var between := PerformAll(After(rows, inc, tpRecords, now), actions);
            && k in between
            && ((between[k].status.Dismissed? || inc.id in between[k].seenIncidents) <==>
                (DismissedUncounted(rows, k, inc.id) && Reopened(actions, k) ==> CountedSince(actions, k, inc.id)))
  {
    hide Targets, After, PerformAll, DismissedUncounted, Reopened, CountedSince;
    var once := After(rows, inc, tpRecords, now);
    HookCounts(rows, inc, tpRecords, now, k);
    SeenGrows(once, actions, k);
    if DismissedUncounted(rows, k, inc.id) {
      StaysDismissedUncounted(rows, once, k, inc.id);
      DismissedRowAfter(once, actions, k, inc.id);
    }
  }

  /**
   A replay for the same incident, after any actions. Everything a hook reads may have changed in
   between: records, enrichment, customer, verdict and the true positives. The replay changes nothing
   exactly when (1) each key that both hooks work on, if its row was dismissed before the first one
   without having counted the incident, was not approved since or has counted it since, and (2) each
   key that only the replay works on is settled by the actions.
   */
  lemma ReplayChangesNothingIff(
    rows: map<Key, Suggestion>, inc: Incident, tpRecords: set<string>, now: int, actions: seq<Action>,
    again: Incident, tpAgain: set<string>, later: int)
    requires again.id == inc.id
    ensures var between := PerformAll(After(rows, inc, tpRecords, now), actions);
            After(between, again, tpAgain, later) == between <==>
            && (forall k | k in Targets(again, tpAgain) && k in Targets(inc, tpRecords) ::
                  DismissedUncounted(rows, k, inc.id) && Reopened(actions, k) ==> CountedSince(actions, k, inc.id))
            && (forall k | k in Targets(again, tpAgain) && k !in Targets(inc, tpRecords) ::
                  Settled(rows, actions, k, inc.id))
  {
    hide Targets, After, PerformAll, DismissedUncounted, Reopened, CountedSince, Settled;
    var between := PerformAll(After(rows, inc, tpRecords, now), actions);
    forall k | k in Targets(again, tpAgain) && k in Targets(inc, tpRecords)
      ensures k in between
      ensures (between[k].status.Dismissed? || inc.id in between[k].seenIncidents) <==>
              (DismissedUncounted(rows, k, inc.id) && Reopened(actions, k) ==> CountedSince(actions, k, inc.id))
    {
      SameKeyAfter(rows, inc, tpRecords, now, actions, k);
    }
    forall k | k in Targets(again, tpAgain) && k !in Targets(inc, tpRecords)
      ensures Settled(rows, actions, k, inc.id) <==>
              k in between && (between[k].status.Dismissed? || inc.id in between[k].seenIncidents)
    {
      OtherKeyAfter(rows, inc, tpRecords, now, actions, k, inc.id);
    }
    HookIsIdleIff(between, again, tpAgain, later);
  }

  lemma StaysDismissedUncounted(rows: map<Key, Suggestion>, once: map<Key, Suggestion>, k: Key, id: nat)
    requires DismissedUncounted(rows, k, id) && k in once && once[k] == rows[k]
    ensures DismissedUncounted(once, k, id)
  {}

  lemma {:induction false} NeverReopened(actions: seq<Action>, k: Key)
    requires Approve(k) !in actions
    ensures !Reopened(actions, k)
    decreases |actions|
  {
    if actions != [] {
      NeverReopened(actions[..|actions| - 1], k);
    }
  }

  /** A replay that works on no new key changes nothing unless one of its keys was approved in between. */
  lemma ReplayChangesNothing(
    rows: map<Key, Suggestion>, inc: Incident, tpRecords: set<string>, now: int, actions: seq<Action>,
    again: Incident, tpAgain: set<string>, later: int)
    requires again.id == inc.id && Targets(again, tpAgain) <= Targets(inc, tpRecords)
    requires forall k | k in Targets(again, tpAgain) :: Approve(k) !in actions
    ensures var between := PerformAll(After(rows, inc, tpRecords, now), actions);
            After(between, again, tpAgain, later) == between
  {
    ReplayChangesNothingIff(rows, inc, tpRecords, now, actions, again, tpAgain, later);
    forall k | k in Targets(again, tpAgain) ensures !Reopened(actions, k) {
      NeverReopened(actions, k);
    }
    hide After, PerformAll, Targets, Reopened, CountedSince, Settled;
  }

  /** Until someone approves it, a dismissed suggestion stays exactly as it was. */
  lemma {:induction false} DismissedIsFrozen(rows: map<Key, Suggestion>, actions: seq<Action>, k: Key)
    requires k in rows && rows[k].status.Dismissed?
    requires Approve(k) !in actions
    ensures k in PerformAll(rows, actions) && PerformAll(rows, actions)[k] == rows[k]
    decreases |actions|
  {
    if actions != [] {
      var n := |actions| - 1;
      DismissedIsFrozen(rows, actions[..n], k);
    }
  }

  predicate IsPromotable(s: Suggestion) {
    s.status.Pending? && s.fpCount >= PROMOTE_MIN_FP && |s.seenRules| >= PROMOTE_MIN_RULES
  }

  function Distinct<T>(s: seq<T>): set<T> {
    set x | x in s
  }

  lemma {:induction false} DistinctCount<T>(s: seq<T>)
    requires NoDuplicates(s)
    ensures |Distinct(s)| == |s|
    decreases |s|
  {
    if s != [] {
      var n := |s| - 1;
      DistinctCount(s[..n]);
      assert Distinct(s) == Distinct(s[..n]) + {s[n]};
    }
  }

  /** Whatever surfaces for review rests on at least three different incidents and two different rules. */
  lemma PromotableIsCorroborated(actions: seq<Action>, k: Key)
    requires k in PerformAll(map[], actions) && IsPromotable(PerformAll(map[], actions)[k])
    ensures var s := PerformAll(map[], actions)[k];
            |Distinct(s.seenIncidents)| >= 3 && |Distinct(s.seenRules)| >= 2
  {
    EveryRunKeepsRows(actions, k);
    var s := PerformAll(map[], actions)[k];
    DistinctCount(s.seenIncidents);
    DistinctCount(s.seenRules);
  }

  /** One rule alone does saturate the confidence: exactly from six different incidents on. */
  lemma OneRuleSaturates(actions: seq<Action>, k: Key)
    requires k in PerformAll(map[], actions) && |PerformAll(map[], actions)[k].seenRules| == 1
    ensures var s := PerformAll(map[], actions)[k];
            s.confidence == 100 <==> |Distinct(s.seenIncidents)| >= 6
  {
    EveryRunKeepsRows(actions, k);
    DistinctCount(PerformAll(map[], actions)[k].seenIncidents);
    hide PerformAll;
  }

  // ---------------------------------------------------------------------------------------
  // Sample runs
  // ---------------------------------------------------------------------------------------

  const SAMPLE := Ioc("ipv4", "1.1.1.1")
  const SAMPLE_KEY := Key("1.1.1.1", "ip", None)

  /** An analyst marks an incident with the one sample record as a false positive. */
  function SampleIncident(id: nat, rule: string): Incident {
    Incident(id, FP, None, rule, [SAMPLE], {})
  }

  function SampleHook(id: nat, rule: string, tpRecords: set<string>): Action {
    Hook(SampleIncident(id, rule), tpRecords, 0)
  }

  lemma SampleIsEligible()
    ensures EligibleValue(SAMPLE) == Some(("ip", SAMPLE.value))
  {
    TrimmedStrips(SAMPLE.value);
    assert !IsSpace('1');
  }

  lemma SampleTargets(id: nat, rule: string, tpRecords: set<string>)
    ensures EligibleKeys(SampleIncident(id, rule)) == {SAMPLE_KEY}
    ensures Targets(SampleIncident(id, rule), tpRecords) ==
            if TpGuard(tpRecords, SAMPLE.value) then {} else {SAMPLE_KEY}
  {
    SampleIsEligible();
    hide EligibleValue, TpGuard;
    assert [SAMPLE][0] in [SAMPLE];
  }

  /** A sample hook counts for the one sample row. */
  lemma SampleStep(rows: map<Key, Suggestion>, id: nat, rule: string)
    ensures After(rows, SampleIncident(id, rule), {}, 0) ==
            rows[SAMPLE_KEY := Touched(rows, SAMPLE_KEY, SampleIncident(id, rule), 0)]
  {
    SampleTargets(id, rule, {});
    hide Targets, Touched;
  }

  /** `n` false positives in `n` incidents under one and the same rule. */
  function OneRuleRun(n: nat): seq<Action> {
    if n == 0 then [] else OneRuleRun(n - 1) + [SampleHook(n - 1, "r", {})]
  }

  /** The sample row after `n` false positives under the rule "r". */
  ghost predicate CountsOneRule(rows: map<Key, Suggestion>, n: nat) {
    if n == 0 then SAMPLE_KEY !in rows
    else
      && SAMPLE_KEY in rows
      && var s := rows[SAMPLE_KEY];
         && s.status.Pending? && s.fpCount == n && s.seenRules == ["r"]
         && (forall id | id in s.seenIncidents :: id < n)
         && s.confidence == Confidence(n, 1)
  }

  lemma OneMoreOfRule(rows: map<Key, Suggestion>, n: nat)
    requires CountsOneRule(rows, n)
    ensures CountsOneRule(After(rows, SampleIncident(n, "r"), {}, 0), n + 1)
  {
    hide After;
    SampleStep(rows, n, "r");
    SampleFields(n, "r");
    hide SampleIncident;
  }

  /** Such runs exist for every count: the confidence of the row is 100 exactly from six incidents on. */
  lemma {:induction false} OneRuleRunCounts(n: nat)
    ensures CountsOneRule(PerformAll(map[], OneRuleRun(n)), n)
    ensures n >= 1 ==> (PerformAll(map[], OneRuleRun(n))[SAMPLE_KEY].confidence == 100 <==> n >= 6)
    decreases n
  {
    hide After, SampleIncident;
    if n > 0 {
      OneRuleRunCounts(n - 1);
      OneMoreOfRule(PerformAll(map[], OneRuleRun(n - 1)), n - 1);
      PerformOneMore(map[], OneRuleRun(n - 1), SampleHook(n - 1, "r", {}));
    }
  }

  lemma SampleFields(id: nat, rule: string)
    requires rule != ""
    ensures SampleIncident(id, rule).id == id && RuleName(SampleIncident(id, rule)) == rule
  {}

  lemma PerformOneMore(rows: map<Key, Suggestion>, actions: seq<Action>, a: Action)
    ensures PerformAll(rows, actions + [a]) == Perform(PerformAll(rows, actions), a)
    ensures PerformAll(rows, [a]) == Perform(rows, a)
  {
    assert (actions + [a])[..|actions|] == actions;
    assert [a][..0] == [];
    hide Perform;
  }

  /** A row dismissed before the hook and approved after it is changed by the replay. */
  lemma LaterReplayCounts()
    ensures var rows := PerformAll(map[], [SampleHook(0, "r", {}), Dismiss(SAMPLE_KEY)]);
            var between := PerformAll(After(rows, SampleIncident(1, "r"), {}, 0), [Approve(SAMPLE_KEY)]);
            After(between, SampleIncident(1, "r"), {}, 0) != between
  {
    var hook, reopen := SampleHook(0, "r", {}), [Approve(SAMPLE_KEY)];
    var rows := PerformAll(map[], [hook, Dismiss(SAMPLE_KEY)]);
    assert [hook] + [Dismiss(SAMPLE_KEY)] == [hook, Dismiss(SAMPLE_KEY)];
    PerformOneMore(map[], [], hook);
    PerformOneMore(map[], [hook], Dismiss(SAMPLE_KEY));
    OneMoreOfRule(map[], 0);
    SampleTargets(1, "r", {});
    NothingIsTp(SAMPLE.value);
    OnlyReopened(1);
    hide PerformAll, After, Targets, Reopened, CountedSince;
    assert DismissedUncounted(rows, SAMPLE_KEY, 1);
    ReplayChangesNothingIff(rows, SampleIncident(1, "r"), {}, 0, reopen, SampleIncident(1, "r"), {}, 0);
  }

  /** A true positive withdrawn in between: the first hook was guarded, the replay counts. */
  lemma WithdrawnTpReplayCounts()
    ensures var first := After(map[], SampleIncident(1, "r"), {SAMPLE.value}, 0);
            first == map[] && After(first, SampleIncident(1, "r"), {}, 0) != first
  {
    var inc := SampleIncident(1, "r");
    SampleTargets(1, "r", {SAMPLE.value});
    SampleTargets(1, "r", {});
    NothingIsTp(SAMPLE.value);
    assert TpGuard({SAMPLE.value}, SAMPLE.value) by {
      assert SAMPLE.value in {SAMPLE.value} && Lower(SAMPLE.value) == Lower(SAMPLE.value);
    }
    hide Targets, TpGuard, SampleIncident;
    HookIsIdleIff(map[], inc, {SAMPLE.value}, 0);
    HookIsIdleIff(map[], inc, {}, 0);
    hide After;
  }

  lemma OnlyReopened(id: nat)
    ensures Reopened([Approve(SAMPLE_KEY)], SAMPLE_KEY) && !CountedSince([Approve(SAMPLE_KEY)], SAMPLE_KEY, id)
  {
    assert [Approve(SAMPLE_KEY)][..0] == [];
  }

  lemma NothingIsTp(val: string)
    ensures !TpGuard({}, val)
  {}

  // ---------------------------------------------------------------------------------------
  // The true-positive guard
  // ---------------------------------------------------------------------------------------

  /** The guard retires nothing: hooks, all guarded for `k`, leave an existing suggestion exactly as it is. */
  lemma {:induction false} GuardedRunKeepsRow(rows: map<Key, Suggestion>, actions: seq<Action>, k: Key)
    requires k in rows
    requires forall a | a in actions :: a.Hook? ==> TpGuard(a.tpRecords, k.value)
    requires Approve(k) !in actions && Dismiss(k) !in actions
    ensures k in PerformAll(rows, actions) && PerformAll(rows, actions)[k] == rows[k]
    decreases |actions|
  {
    hide TpGuard, Touched, EligibleKeys;
    if actions != [] {
      GuardedRunKeepsRow(rows, actions[..|actions| - 1], k);
    }
  }

  /** A run in which a suggestion is still offered for review after its value was seen in a true positive. */
  lemma PromotableSurvivesTp()
    ensures var fps := [SampleHook(1, "r", {}), SampleHook(2, "s", {}), SampleHook(3, "r", {})];
            var guarded := SampleHook(4, "r", {SAMPLE.value});
            && TpGuard(guarded.tpRecords, SAMPLE_KEY.value)
            && SAMPLE_KEY in PerformAll(map[], fps + [guarded])
            && IsPromotable(PerformAll(map[], fps + [guarded])[SAMPLE_KEY])
  {
    var fps := [SampleHook(1, "r", {}), SampleHook(2, "s", {}), SampleHook(3, "r", {})];
    var guarded := SampleHook(4, "r", {SAMPLE.value});
    ThreeFalsePositives();
    hide PerformAll, IsPromotable, EligibleKeys;
    assert [guarded][..0] == [];
    GuardedRunKeepsRow(PerformAll(map[], fps), [guarded], SAMPLE_KEY);
    PerformOneMore(map[], fps, guarded);
  }

  lemma ThreeFalsePositives()
    ensures var fps := [SampleHook(1, "r", {}), SampleHook(2, "s", {}), SampleHook(3, "r", {})];
            SAMPLE_KEY in PerformAll(map[], fps) && IsPromotable(PerformAll(map[], fps)[SAMPLE_KEY])
  {
    hide After, PerformAll;
    var a, b, c := SampleHook(1, "r", {}), SampleHook(2, "s", {}), SampleHook(3, "r", {});
    assert [a] + [b] == [a, b] && [a, b] + [c] == [a, b, c];
    PerformOneMore(map[], [], a);
    PerformOneMore(map[], [a], b);
    PerformOneMore(map[], [a, b], c);
    SampleStep(map[], 1, "r");
    SampleStep(PerformAll(map[], [a]), 2, "s");
    SampleStep(PerformAll(map[], [a, b]), 3, "r");
    assert "r"[0] != "s"[0];
  }

  /** When the guard recognises the indicator's own record of an earlier TP incident. */
  predicate GuardSeesOwnRecord(ioc: Ioc) {
    if ioc.iocType == "email" then false
    else if ioc.iocType == "url" then BareHost(ioc.value)
    else Trim(ioc.value)
  }

  lemma {:induction false} StripDotsShrinks(s: string)
    ensures |StripDots(s)| <= |s|
    decreases |s|
  {
    if s != "" && s[|s| - 1] == '.' { StripDotsShrinks(s[..|s| - 1]); }
  }

  /** The guard compares raw texts: it catches an indicator's own record exactly in these cases. */
  lemma GuardIsRaw(ioc: Ioc, ty: string, val: string)
    requires EligibleValue(ioc) == Some((ty, val))
    ensures TpGuard({ioc.value}, val) <==> GuardSeesOwnRecord(ioc)
  {
    var v := ioc.value;
    var l, r := StripSplits(v);
    TrimmedStrips(v);
    assert TpGuard({v}, val) <==> Lower(v) == Lower(val);
    if ioc.iocType == "email" {
      StripDotsShrinks(Lower(Strip(AfterLast(v, '@'))));
      var l', r' := StripSplits(AfterLast(v, '@'));
    } else if ioc.iocType == "url" {
      UrlHostCuts(v);
      LowerIdempotent(UrlHost(v));
    } else {
      LowerIdempotent(Strip(v));
    }
  }
}
