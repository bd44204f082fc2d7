/**
 What the string cutting of `Text.UrlHost` finds in a URL that is put together from its parts, and
 likewise for e-mail addresses.
 */
module Urls {
  import opened Wrappers
  import opened Text

  /** A suffix is what is left when something is cut from the front. */
  lemma EndsWithIff(s: string, t: string)
    ensures EndsWith(s, t) <==> exists front: string :: s == front + t
  {
    if EndsWith(s, t) {
      assert s == s[..|s| - |t|] + t;
    }
    if front: string :| s == front + t {
      assert s[|s| - |t|..] == t;
    }
  }

  lemma BeforeOfSum(a: string, b: string, c: char)
    requires Lacks(a, c)
    ensures Before(a + b, c) == a + Before(b, c)
  {
    var n := Find(b, c);
    FirstUnique(a + b, c, |a| + n);
    assert (a + b)[..|a| + n] == a + b[..n];
  }

  lemma BeforeItself(b: string, c: char)
    ensures b == "" || b[0] == c ==> Before(b, c) == ""
    ensures b != "" && b[0] != c ==> Before(b, c) != "" && Before(b, c)[0] == b[0]
  {
    if b == "" || b[0] == c {
      FirstUnique(b, c, 0);
    }
  }

  /** Path, query and fragment, whatever they hold, are cut from behind the authority. */
  lemma TailIsCut(a: string, tail: string)
    requires Lacks(a, '/') && Lacks(a, '?') && Lacks(a, '#')
    requires tail == "" || tail[0] == '/' || tail[0] == '?' || tail[0] == '#'
    ensures Before(Before(Before(a + tail, '/'), '?'), '#') == a
  {
    hide Before, Lacks;
    var t1 := Before(tail, '/');
    BeforeOfSum(a, tail, '/');
    BeforeItself(tail, '/');
    var t2 := Before(t1, '?');
    BeforeOfSum(a, t1, '?');
    BeforeItself(t1, '?');
    BeforeOfSum(a, t2, '#');
    BeforeItself(t2, '#');
    assert a + "" == a;
  }

  lemma AfterSchemeOfSum(scheme: string, rest: string)
    requires Lacks(scheme, ':')
    ensures AfterScheme(scheme + "://" + rest) == rest
  {
    var s := scheme + "://" + rest;
    forall i: nat | i < |scheme| ensures !SchemeAt(s, i) {
      if i + 3 <= |s| { SchemeChars(s, i); }
    }
    assert s[|scheme|..|scheme| + 3] == "://";
    SchemeUnique(s, |scheme|);
  }

  lemma NoSchemeToCut(s: string)
    requires forall i: nat :: !SchemeAt(s, i)
    ensures AfterScheme(s) == s
  {
    SchemeUnique(s, |s|);
  }

  lemma LacksSum(a: string, b: string, c: char)
    ensures Lacks(a + b, c) <==> Lacks(a, c) && Lacks(b, c)
  {
    if Lacks(a + b, c) {
      forall i | 0 <= i < |a| ensures a[i] != c { assert (a + b)[i] == a[i]; }
      forall i | 0 <= i < |b| ensures b[i] != c { assert (a + b)[|a| + i] == b[i]; }
    }
  }

  lemma NothingBefore(a: string, c: char)
    requires Lacks(a, c)
    ensures Before(a, c) == a && AfterFirst(a, c) == a
  {
    FirstUnique(a, c, |a|);
  }

  lemma AfterFirstOfSum(a: string, b: string, c: char)
    requires Lacks(a, c)
    ensures AfterFirst(a + [c] + b, c) == b
  {
    FirstUnique(a + [c] + b, c, |a|);
  }

  /** `user@` and `:port` are cut from around the host. */
  lemma AuthorityHost(user: Option<string>, host: string, port: Option<string>)
    requires user.Some? ==> Lacks(user.value, '@')
    requires Lacks(host, '@') && Lacks(host, ':') && (port.Some? ==> Lacks(port.value, '@'))
    ensures Before(AfterFirst(UserPart(user) + host + PortPart(port), '@'), ':') == host
  {
    hide Before, AfterFirst, Lacks;
    var rest := host + PortPart(port);
    PortLacks(port, '@');
    LacksSum(host, PortPart(port), '@');
    if user.Some? {
      AfterFirstOfSum(user.value, rest, '@');
      assert UserPart(user) + host + PortPart(port) == user.value + ['@'] + rest;
    } else {
      NothingBefore(rest, '@');
      assert UserPart(user) + host + PortPart(port) == rest;
    }
    BeforeOfSum(host, PortPart(port), ':');
    BeforeItself(PortPart(port), ':');
    assert host + "" == host;
  }

  lemma PortLacks(port: Option<string>, c: char)
    requires c != ':' && (port.Some? ==> Lacks(port.value, c))
    ensures Lacks(PortPart(port), c)
  {}

  lemma UserLacks(user: Option<string>, c: char)
    requires c != '@' && (user.Some? ==> Lacks(user.value, c))
    ensures Lacks(UserPart(user), c)
  {}

  lemma AuthorityLacks(user: Option<string>, host: string, port: Option<string>, c: char)
    requires c != '@' && c != ':' && (user.Some? ==> Lacks(user.value, c))
    requires Lacks(host, c) && (port.Some? ==> Lacks(port.value, c))
    ensures Lacks(UserPart(user) + host + PortPart(port), c)
  {
    hide Lacks, UserPart, PortPart;
    UserLacks(user, c);
    PortLacks(port, c);
    LacksSum(UserPart(user), host, c);
    LacksSum(UserPart(user) + host, PortPart(port), c);
  }

  function UserPart(user: Option<string>): string { if user.Some? then user.value + "@" else "" }
  function PortPart(port: Option<string>): string { if port.Some? then ":" + port.value else "" }
  function SchemePart(scheme: Option<string>): string { if scheme.Some? then scheme.value + "://" else "" }

  /**
   The scheme has no colon, nothing up to the port has a delimiter in it, the tail starts with one, and
   without a scheme the text holds no "://".
   */
  ghost predicate AreUrlParts(
    scheme: Option<string>, user: Option<string>, host: string, port: Option<string>, tail: string)
  {
    && (scheme.Some? ==> Lacks(scheme.value, ':'))
    && (user.Some? ==>
          Lacks(user.value, '/') && Lacks(user.value, '?') && Lacks(user.value, '#') && Lacks(user.value, '@'))
    && BareHost(host) && (port.Some? ==> BareHost(port.value))
    && (tail == "" || tail[0] == '/' || tail[0] == '?' || tail[0] == '#')
    && (scheme.None? ==> forall i: nat :: !SchemeAt(UserPart(user) + host + PortPart(port) + tail, i))
  }

  function UrlText(
    scheme: Option<string>, user: Option<string>, host: string, port: Option<string>, tail: string): string
  {
    SchemePart(scheme) + UserPart(user) + host + PortPart(port) + tail
  }

  /**
   What the parser finds in a URL put together from scheme, user part, host, port and whatever follows,
   each of the optional parts present or not: the host.
   */
  lemma UrlHostOfParts(scheme: Option<string>, user: Option<string>, host: string, port: Option<string>, tail: string)
    requires AreUrlParts(scheme, user, host, port, tail)
    ensures UrlHost(UrlText(scheme, user, host, port, tail)) == host
  {
    hide Lacks, UserPart, PortPart, AfterScheme, Before, AfterFirst;
    var authority := UserPart(user) + host + PortPart(port);
    var url := SchemePart(scheme) + UserPart(user) + host + PortPart(port) + tail;
    if scheme.Some? {
      AfterSchemeOfSum(scheme.value, authority + tail);
      assert url == scheme.value + "://" + (authority + tail);
    } else {
      assert url == authority + tail;
      NoSchemeToCut(url);
    }
    AuthorityLacks(user, host, port, '/');
    AuthorityLacks(user, host, port, '?');
    AuthorityLacks(user, host, port, '#');
    TailIsCut(authority, tail);
    AuthorityHost(user, host, port);
  }

  /** The domain of an e-mail address is what follows the last "@". */
  lemma MailHostOfParts(user: string, host: string)
    requires Lacks(host, '@')
    ensures AfterLast(user + "@" + host, '@') == host
  {
    var v := user + "@" + host;
    LastUnique(v, '@', |user|);
    assert v[|user| + 1..] == host;
  }
}
