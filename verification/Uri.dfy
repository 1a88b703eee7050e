/** URIs: taking them apart and putting them together. A C string is the characters before its NUL. */
module Uri {
  import opened Basics

  datatype Field = Missing | Given(text: string)

  /** apr_uri_t; the port is an unsigned 16-bit number. */
  datatype Uri = Uri(scheme: Field, hostinfo: Field, user: Field, password: Field, hostname: Field,
                     portStr: Field, port: nat, path: Field, query: Field, fragment: Field)

  const NO_URI: Uri := Uri(Missing, Missing, Missing, Missing, Missing, Missing, 0, Missing, Missing, Missing)

  /** A parsed URI, or the fields that were filled before the general error. */
  datatype Parsed = Success(uri: Uri) | General(uri: Uri)

  // ---------- schemes ----------

  const SCHEMES: seq<(string, nat)> :=
    [("http", 80), ("ftp", 21), ("https", 443), ("gopher", 70), ("ldap", 389), ("nntp", 119), ("snews", 563),
     ("imap", 143), ("pop", 110), ("sip", 5060), ("rtsp", 554), ("wais", 210), ("z39.50r", 210), ("z39.50s", 210),
     ("prospero", 191), ("nfs", 2049), ("tip", 3372), ("acap", 674), ("telnet", 23), ("ssh", 22)]

  function Lower(c: char): char {
    if 'A' <= c <= 'Z' then c + ' ' else c
  }

  /** strcasecmp says that they are equal. */
  predicate SameIgnoringCase(a: string, b: string) {
    |a| == |b| && forall i :: 0 <= i < |a| ==> Lower(a[i]) == Lower(b[i])
  }

  function PortIn(schemes: seq<(string, nat)>, scheme: string): nat
    decreases |schemes|, scheme
  {
    if |schemes| == 0 then 0
    else if SameIgnoringCase(scheme, schemes[0].0) then schemes[0].1 else PortIn(schemes[1..], scheme)
  }

  function DefaultPort(scheme: Field): nat {
    if scheme.Missing? then 0 else PortIn(SCHEMES, scheme.text)
  }

  /** apr_uri_port_of_scheme: the first entry of that name decides, and 0 is for no scheme and an unknown one. */
  method PortOfScheme(scheme: Field) returns (port: nat)
    ensures port == DefaultPort(scheme)
  {
    if scheme.Given? {
      port := SearchSchemes(SCHEMES, scheme.text);
    } else {
      port := 0;
    }
  }

  method SearchSchemes(schemes: seq<(string, nat)>, scheme: string) returns (port: nat)
    ensures port == PortIn(schemes, scheme)
    ensures (exists i :: 0 <= i < |schemes| && FirstOfName(schemes, scheme, i) && port == schemes[i].1)
            || (port == 0 && forall i :: 0 <= i < |schemes| ==> !SameIgnoringCase(scheme, schemes[i].0))
  {
    assert schemes[0..] == schemes;
    for i := 0 to |schemes|
      invariant PortIn(schemes, scheme) == PortIn(schemes[i..], scheme)
      invariant forall j :: 0 <= j < i ==> !SameIgnoringCase(scheme, schemes[j].0)
    {
      if SameIgnoringCase(scheme, schemes[i].0) {
        assert FirstOfName(schemes, scheme, i);
        return schemes[i].1;
      }
      assert schemes[i..][1..] == schemes[i + 1..];
    }
    port := 0;
  }

  predicate FirstOfName(schemes: seq<(string, nat)>, scheme: string, i: int) {
    0 <= i < |schemes| && SameIgnoringCase(scheme, schemes[i].0) &&
    forall j :: 0 <= j < i ==> !SameIgnoringCase(scheme, schemes[j].0)
  }

  // ---------- strtol ----------

  const LONG_MAX: int := 0x7fff_ffff_ffff_ffff

  predicate IsSpace(c: char) {
    c == ' ' || '\t' <= c <= '\r'
  }

  function SkipSpace(s: string): string {
    if |s| > 0 && IsSpace(s[0]) then SkipSpace(s[1..]) else s
  }

  /** The value of the leading digits, with the digits before them. */
  function DigitsValue(s: string, acc: nat): nat {
    if |s| > 0 && IsDigit(s[0]) then DigitsValue(s[1..], acc * 10 + (s[0] - '0') as nat) else acc
  }

  function Unsigned(s: string): string {
    var t := SkipSpace(s);
    if |t| > 0 && (t[0] == '+' || t[0] == '-') then t[1..] else t
  }

  /** strtol takes the whole text as a decimal number. */
  predicate IsNumber(s: string) {
    AllDigits(Unsigned(s))
  }

  /** The 16 bits that are kept of strtol's number, which stops at the limits of a long. */
  function PortValue(s: string): nat {
    var t, v := SkipSpace(s), DigitsValue(Unsigned(s), 0);
    if |t| > 0 && t[0] == '-' then (if v > LONG_MAX + 1 then 0 else (0x1_0000 - v % 0x1_0000) % 0x1_0000)
    else if v > LONG_MAX then LONG_MAX % 0x1_0000 else v % 0x1_0000
  }

  lemma {:induction false} DigitsOnly(s: string, acc: nat)
    requires forall i :: 0 <= i < |s| ==> IsDigit(s[i])
    ensures |s| > 0 ==> DigitsValue(s, acc) == DigitsValue(s[..|s| - 1], acc) * 10 + Value([s[|s| - 1]])
    decreases |s|
  {
    if |s| > 0 {
      var d := s[|s| - 1];
      assert [d][..0] == [] && Value([d]) == d as int - '0' as int;
      if |s| == 1 {
        assert s[1..] == [] && s[..0] == [];
      } else {
        DigitsOnly(s[1..], acc * 10 + (s[0] - '0') as nat);
        assert s[1..][..|s[1..]| - 1] == s[..|s| - 1][1..];
      }
    }
  }

  lemma {:induction false} DigitsAreValue(s: string)
    requires forall i :: 0 <= i < |s| ==> IsDigit(s[i])
    ensures DigitsValue(s, 0) == Value(s)
  {
    if |s| > 0 {
      DigitsOnly(s, 0);
      DigitsAreValue(s[..|s| - 1]);
      assert [s[|s| - 1]][..0] == [];
    }
  }

  /** A number in decimal digits is read as it is, up to the limits of a long, and its low 16 bits are the port. */
  lemma PortOfDecimal(n: nat)
    ensures IsNumber(Decimal(n)) && PortValue(Decimal(n)) == Min(n, LONG_MAX) % 0x1_0000
    ensures IsNumber("-" + Decimal(n)) && PortValue("-" + Decimal(n)) == -Min(n, LONG_MAX + 1) % 0x1_0000
  {
    hide Decimal, Value, DigitsValue, IsNumber, PortValue, AllDigits;
    var s := Decimal(n);
    ValueOfDecimal(n);
    AllAreDigits(s);
    DigitsAreValue(s);
    PlainPort(s);
    MinusPort(s);
  }

  lemma AllAreDigits(s: string)
    requires AllDigits(s)
    ensures forall i :: 0 <= i < |s| ==> IsDigit(s[i])
  {
  }

  lemma PlainPort(s: string)
    requires AllDigits(s)
    ensures IsNumber(s) && PortValue(s) == Min(DigitsValue(s, 0), LONG_MAX) % 0x1_0000
  {
    SignedDigits(s);
    hide SkipSpace, Unsigned, DigitsValue;
  }

  lemma MinusPort(s: string)
    requires AllDigits(s)
    ensures IsNumber("-" + s) && PortValue("-" + s) == -Min(DigitsValue(s, 0), LONG_MAX + 1) % 0x1_0000
  {
    SignedDigits(s);
    hide SkipSpace, Unsigned;
    NegativeMod(DigitsValue(s, 0));
    NegativeMod(LONG_MAX + 1);
    hide DigitsValue;
  }

  lemma SignedDigits(s: string)
    requires AllDigits(s)
    ensures SkipSpace(s) == s && SkipSpace("-" + s) == "-" + s && s[0] != '-'
    ensures Unsigned(s) == s && Unsigned("-" + s) == s
  {
    assert IsDigit(s[0]) && ("-" + s)[1..] == s;
  }

  lemma NegativeMod(n: int)
    ensures -n % 0x1_0000 == (0x1_0000 - n % 0x1_0000) % 0x1_0000
  {
  }

  // ---------- scanning ----------

  function SpanFrom(s: string, delims: string, from: nat): (k: nat)
    requires from <= |s|
    ensures from <= k <= |s| && (forall i :: from <= i < k ==> s[i] !in delims) && (k < |s| ==> s[k] in delims)
    decreases |s| - from
  {
    if from == |s| || s[from] in delims then from else SpanFrom(s, delims, from + 1)
  }

  /** The first position of one of the delimiters, or the length. */
  function Span(s: string, delims: string): (k: nat)
    ensures k <= |s| && (forall i :: 0 <= i < k ==> s[i] !in delims) && (k < |s| ==> s[k] in delims)
  {
    SpanFrom(s, delims, 0)
  }

  /** while no delimiter is met, or the end */
  method Scan(s: string, delims: string) returns (k: nat)
    ensures k == Span(s, delims)
  {
    k := 0;
    while k < |s| && s[k] !in delims
      invariant k <= |s| && Span(s, delims) == SpanFrom(s, delims, k)
    {
      k := k + 1;
    }
  }

  function LastBefore(s: string, c: char, n: nat): (k: int)
    requires n <= |s|
    ensures -1 <= k < n && (k >= 0 ==> s[k] == c) && forall i :: k < i < n ==> s[i] != c
  {
    if n == 0 then -1 else if s[n - 1] == c then n - 1 else LastBefore(s, c, n - 1)
  }

  /** The last position of the character, or -1. */
  function LastOf(s: string, c: char): (k: int)
    ensures -1 <= k < |s| && (k >= 0 ==> s[k] == c) && forall i :: k < i < |s| ==> s[i] != c
  {
    LastBefore(s, c, |s|)
  }

  // ---------- what parsing gives ----------

  /** Path, query and fragment. */
  function WithPath(s: string, u: Uri): Uri {
    var k := Span(s, "?#");
    var v := if k > 0 then u.(path := Given(s[..k])) else u;
    if k == |s| then v else WithTail(s[k], s[k + 1..], v)
  }

  /** What follows the path: a query up to a hash, and a fragment, or only this. */
  function WithTail(c: char, rest: string, u: Uri): Uri {
    if c != '?' then u.(fragment := Given(rest))
    else
      var j := Span(rest, "#");
      if j < |rest| then u.(query := Given(rest[..j]), fragment := Given(rest[j + 1..])) else u.(query := Given(rest))
  }

  datatype Host = Host(name: string, port: Field) | BadHost

  /** The name between brackets or up to the first colon, and the text of the port. */
  function SplitHost(h: string): Host {
    if |h| > 0 && h[0] == '[' then
      var r := Span(h, "]");
      if r == |h| then BadHost
      else if r + 1 < |h| && h[r + 1] == ':' then Host(h[1..r], Given(h[r + 2..]))
      else Host(h[1..|h| - 1], Missing)
    else
      var k := Span(h, ":");
      if k == |h| then Host(h, Missing) else Host(h[..k], Given(h[k + 1..]))
  }

  /** Host and port; an empty port is the default one, and another must be a number. */
  function WithHost(h: string, u: Uri): Parsed {
    match SplitHost(h)
    case BadHost => General(u)
    case Host(name, Missing) => Success(u.(hostname := Given(name)))
    case Host(name, Given(port)) =>
      var v := u.(hostname := Given(name), portStr := Given(port));
      if port == "" then Success(v.(port := DefaultPort(u.scheme)))
      else if IsNumber(port) then Success(v.(port := PortValue(port))) else General(v.(port := PortValue(port)))
  }

  function WithUser(user: string, u: Uri): Uri {
    var k := Span(user, ":");
    if k < |user| then u.(user := Given(user[..k]), password := Given(user[k + 1..])) else u.(user := Given(user))
  }

  /** User information up to the last at sign, and the host. */
  function WithAuthority(a: string, u: Uri): Parsed {
    WithHost(HostPart(a), WithUserInfo(a, u))
  }

  function HostPart(a: string): string {
    var k := LastOf(a, '@');
    if k >= 0 then a[k + 1..] else a
  }

  function WithUserInfo(a: string, u: Uri): Uri {
    var k, v := LastOf(a, '@'), u.(hostinfo := Given(a));
    if k >= 0 then WithUser(a[..k], v) else v
  }

  function AfterAuthority(s: string, u: Uri): Parsed {
    var k := Span(s, "/?#");
    match WithAuthority(s[..k], u)
    case General(v) => General(v)
    case Success(v) => Success(WithPath(s[k..], v))
  }

  function Parse(s: string): Parsed {
    if |s| > 0 && s[0] == '/' then
      if |s| > 1 && s[1] == '/' && !(|s| > 2 && s[2] == '/') then AfterAuthority(s[2..], NO_URI)
      else Success(WithPath(s, NO_URI))
    else
      var k := Span(s, ":/?#");
      if k == 0 || k + 2 >= |s| || s[k..k + 3] != "://" then Success(WithPath(s, NO_URI))
      else AfterAuthority(s[k + 3..], NO_URI.(scheme := Given(s[..k])))
  }

  // ---------- unparsing ----------

  datatype Flags = Flags(omitSitePart: bool, omitUser: bool, omitPassword: bool, revealPassword: bool,
    omitPathInfo: bool, omitQuery: bool)

  const REVEAL: Flags := Flags(false, false, false, true, false, false)

  function Or(f: Field, other: string): string {
    if f.Given? then f.text else other
  }

  function UserText(u: Uri, flags: Flags): string {
    var user, password := u.user.Given? && !flags.omitUser, u.password.Given? && !flags.omitPassword;
    (if user then u.user.text else "") + (if password then ":" else "")
    + (if password then (if flags.revealPassword then u.password.text else "XXXXXXXX") else "")
    + (if user || password then "@" else "")
  }

  predicate IsDefaultPort(u: Uri) {
    u.portStr.Missing? || u.port == 0 || u.port == DefaultPort(u.scheme)
  }

  function HostText(u: Uri): string
    requires u.hostname.Given?
  {
    var name := u.hostname.text;
    (if ':' in name then "[" + name + "]" else name) + (if IsDefaultPort(u) then "" else ":" + Or(u.portStr, ""))
  }

  function SiteText(u: Uri, flags: Flags): string {
    if u.hostname.Missing? then UserText(u, flags)
    else Opening(u) + UserText(u, flags) + HostText(u)
  }

  function PathText(u: Uri, flags: Flags): string {
    Or(u.path, "") + TailText(u, flags)
  }

  function TailText(u: Uri, flags: Flags): string {
    (if u.query.Given? && !flags.omitQuery then "?" + u.query.text else "")
    + (if u.fragment.Given? && !flags.omitQuery then "#" + u.fragment.text else "")
  }

  /** apr_uri_unparse */
  function Unparse(u: Uri, flags: Flags): string {
    (if flags.omitSitePart then "" else SiteText(u, flags)) + (if flags.omitPathInfo then "" else PathText(u, flags))
  }

  /** Unless it is to be revealed, the password leaves no trace but that there is one. */
  lemma PasswordIsHidden(u: Uri, password: string, flags: Flags)
    requires u.password.Given? && !flags.revealPassword
    ensures Unparse(u.(password := Given(password)), flags) == Unparse(u, flags)
  {
  }

  /** u without the components that the flags leave out, and with a hidden password */
  function Stripped(u: Uri, flags: Flags): Uri {
    var site := if flags.omitSitePart
      then u.(scheme := Missing, hostname := Missing, user := Missing, password := Missing)
                else u.(user := if flags.omitUser then Missing else u.user,
                        password := if flags.omitPassword || u.password.Missing? then Missing
                                    else if flags.revealPassword then u.password else Given("XXXXXXXX"));
    if flags.omitPathInfo then site.(path := Missing, query := Missing, fragment := Missing)
    else if flags.omitQuery then site.(query := Missing, fragment := Missing)
    else site
  }

  /** Every combination of flags writes what is left once the components are dropped that it names. */
  lemma FlagsDropComponents(u: Uri, flags: Flags)
    ensures Unparse(u, flags) == Unparse(Stripped(u, flags), REVEAL)
  {
    var v := Stripped(u, flags);
    if flags.omitSitePart {
      assert SiteText(v, REVEAL) == "";
    } else {
      SiteStripped(u, flags);
    }
    hide SiteText;
  }

  lemma SiteStripped(u: Uri, flags: Flags)
    requires !flags.omitSitePart
    ensures SiteText(u, flags) == SiteText(Stripped(u, flags), REVEAL)
  {
    var v := Stripped(u, flags);
    assert UserText(u, flags) == UserText(v, REVEAL);
    assert u.hostname.Given? ==> HostText(u) == HostText(v);
    hide UserText, HostText;
  }

  // ---------- round trip ----------

  lemma TailRoundTrip(c: char, rest: string, u: Uri)
    requires (c == '?' || c == '#') && u.query.Missing? && u.fragment.Missing?
    ensures TailText(WithTail(c, rest, u), REVEAL) == [c] + rest && WithTail(c, rest, u).path == u.path
  {
    if c == '?' {
      var j := Span(rest, "#");
      if j < |rest| {
        assert rest == rest[..j] + ("#" + rest[j + 1..]);
        Appending("?", rest[..j], "#" + rest[j + 1..]);
      }
    }
  }

  lemma PathRoundTrip(s: string, u: Uri)
    requires u.path.Missing? && u.query.Missing? && u.fragment.Missing?
    ensures PathText(WithPath(s, u), REVEAL) == s
  {
    var k := Span(s, "?#");
    var v := if k > 0 then u.(path := Given(s[..k])) else u;
    assert Or(v.path, "") == s[..k];
    if k < |s| {
      TailRoundTrip(s[k], s[k + 1..], v);
      assert s == s[..k] + ([s[k]] + s[k + 1..]);
      hide WithTail, TailText;
    }
  }

  lemma UserRoundTrip(user: string, u: Uri)
    requires u.user.Missing? && u.password.Missing?
    ensures UserText(WithUser(user, u), REVEAL) == user + "@"
  {
    var k := Span(user, ":");
    if k < |user| {
      assert user == user[..k] + [':'] + user[k + 1..];
    }
  }

  /** The brackets hold a colon, and a port or the end follows them. */
  predicate BracketsKept(h: string) {
    |h| > 0 && h[0] == '[' && SplitHost(h).Host? ==>
      ':' in SplitHost(h).name && (SplitHost(h).port.Given? || h[|h| - 1] == ']')
  }

  /** The host comes back exactly when its brackets are kept and its port, if any, is not taken for the default. */
  lemma HostRoundTrip(h: string, u: Uri)
    requires u.portStr.Missing? && WithHost(h, u).Success?
    ensures WithHost(h, u).uri.hostname.Given?
    ensures HostText(WithHost(h, u).uri) == h <==>
            BracketsKept(h) && (SplitHost(h).port.Missing? || !IsDefaultPort(WithHost(h, u).uri))
  {
    var v := WithHost(h, u).uri;
    var host := SplitHost(h);
    hide DefaultPort, IsNumber, PortValue;
    if |h| > 0 && h[0] == '[' {
      BracketedHost(h, v);
    } else {
      var k := Span(h, ":");
      assert ':' !in host.name;
      if k < |h| {
        assert h == h[..k] + ":" + h[k + 1..];
      }
    }
  }

  lemma BracketedHost(h: string, v: Uri)
    requires |h| > 0 && h[0] == '[' && SplitHost(h).Host?
    requires v.hostname == Given(SplitHost(h).name) && v.portStr == SplitHost(h).port
    ensures HostText(v) == h <==> BracketsKept(h) && (SplitHost(h).port.Missing? || !IsDefaultPort(v))
  {
    var r, host := Span(h, "]"), SplitHost(h);
    var port := if IsDefaultPort(v) then "" else ":" + Or(v.portStr, "");
    assert v.portStr.Missing? ==> IsDefaultPort(v);
    hide IsDefaultPort;
    if host.port.Given? {
      assert h == "[" + host.name + "]" + (":" + host.port.text);
    } else {
      assert |h| >= 2 by {
        assert h[r] == ']';
      }
      assert h == "[" + host.name + [h[|h| - 1]];
      assert ("[" + host.name + "]")[|h| - 1] == ']';
    }
  }

  /** What WithHost leaves alone. */
  lemma HostKeeps(h: string, u: Uri)
    requires WithHost(h, u).Success?
    ensures var v := WithHost(h, u).uri;
            && v.hostname.Given? && v.scheme == u.scheme && v.hostinfo == u.hostinfo && v.user == u.user &&
              v.password == u.password
            && v.path == u.path && v.query == u.query && v.fragment == u.fragment
            && (u.portStr.Missing? ==> (v.portStr.Given? <==> SplitHost(h).port.Given?))
  {
    hide SplitHost, DefaultPort, IsNumber, PortValue;
  }

  lemma Cancel(a: string, b: string, c: string)
    ensures a + b == a + c <==> b == c
    ensures b + a == c + a <==> b == c
  {
    if a + b == a + c {
      assert |b| == |c|;
      assert b == (a + b)[|a|..] && c == (a + c)[|a|..];
    }
    if b + a == c + a {
      assert |b| == |c|;
      assert b == (b + a)[..|b|] && c == (c + a)[..|c|];
    }
  }

  /** The host text survives: its brackets are kept, and its port is absent or not taken for the default. */
  predicate HostReturns(h: string, u: Uri) {
    BracketsKept(h) && (SplitHost(h).Host? && SplitHost(h).port.Given? ==> !IsDefaultPort(u))
  }

  /** What is between the double slash and the path comes back exactly when its host does. */
  lemma AuthorityRoundTrip(a: string, u: Uri)
    requires u.portStr.Missing? && u.user.Missing? && u.password.Missing? && WithAuthority(a, u).Success?
    ensures var v := WithAuthority(a, u).uri;
            && v.hostname.Given? && v.scheme == u.scheme && v.path == u.path && v.query == u.query &&
              v.fragment == u.fragment
            && (UserText(v, REVEAL) + HostText(v) == a <==> HostReturns(HostPart(a), v))
  {
    hide *;
    AuthorityParts(a, u);
    var before, h := WithUserInfo(a, u), HostPart(a);
    HostKeeps(h, before);
    HostRoundTrip(h, before);
    AcceptedHost(h, before);
    var v := WithAuthority(a, u).uri;
    SameUser(v, before);
    ReturnsIs(h, v);
    Cancel(UserText(before, REVEAL), HostText(v), h);
  }

  lemma SameUser(u: Uri, v: Uri)
    requires u.user == v.user && u.password == v.password
    ensures UserText(u, REVEAL) == UserText(v, REVEAL)
  {
  }

  lemma ReturnsIs(h: string, u: Uri)
    ensures HostReturns(h, u) <==>
            BracketsKept(h) && (SplitHost(h).Host? && SplitHost(h).port.Given? ==> !IsDefaultPort(u))
  {
    hide SplitHost, BracketsKept, IsDefaultPort;
  }

  /** An authority is its user information and its host. */
  lemma AuthorityParts(a: string, u: Uri)
    requires u.user.Missing? && u.password.Missing?
    ensures WithAuthority(a, u) == WithHost(HostPart(a), WithUserInfo(a, u))
    ensures a == UserText(WithUserInfo(a, u), REVEAL) + HostPart(a)
    ensures var v := WithUserInfo(a, u);
            v.portStr == u.portStr && v.scheme == u.scheme && v.path == u.path && v.query == u.query &&
              v.fragment == u.fragment
  {
    hide WithHost;
    var k := LastOf(a, '@');
    if k >= 0 {
      UserRoundTrip(a[..k], u.(hostinfo := Given(a)));
      hide UserText, WithUser;
      assert a == a[..k] + "@" + a[k + 1..];
    }
  }

  lemma AcceptedHost(h: string, u: Uri)
    requires WithHost(h, u).Success?
    ensures SplitHost(h).Host?
  {
  }

  /** The scheme and the double slash, and the authority behind them, when the text has one. */
  function AuthorityAt(s: string): int {
    if |s| > 0 && s[0] == '/' then
      if |s| > 1 && s[1] == '/' && !(|s| > 2 && s[2] == '/') then 2 else -1
    else
      var k := Span(s, ":/?#");
      if k == 0 || k + 2 >= |s| || s[k..k + 3] != "://" then -1 else k + 3
  }

  function AuthorityOf(s: string): string
    requires 0 <= AuthorityAt(s) <= |s|
  {
    s[AuthorityAt(s)..][..Span(s[AuthorityAt(s)..], "/?#")]
  }

  /**
   Unparsing with the password revealed gives back the text that was parsed exactly when there is no authority,
   or its host survives: a port, if there is one, is not 0 and not the scheme's own, and brackets hold a colon
   and stand before the port or at the end.
   */
  lemma RoundTrip(s: string)
    requires Parse(s).Success?
    ensures AuthorityAt(s) <= |s|
    ensures Unparse(Parse(s).uri, REVEAL) == s <==>
            AuthorityAt(s) < 0 || HostReturns(HostPart(AuthorityOf(s)), Parse(s).uri)
  {
    hide *;
    ParseCases(s);
    if AuthorityAt(s) < 0 {
      PathOnly(s);
    } else {
      AfterRoundTrip(s, AuthorityAt(s), SchemeOf(s));
    }
  }

  /** Without any condition, the text is made of what stands before the authority, the whole authority, and the path. */
  lemma PartsMakeTheText(s: string)
    requires Parse(s).Success?
    ensures var u := Parse(s).uri;
            if u.hostinfo.Given? then s == Opening(u) + (u.hostinfo.text + PathText(u, REVEAL))
            else s == PathText(u, REVEAL)
    ensures Parse(s).uri.hostinfo.Given? <==> AuthorityAt(s) >= 0
  {
    hide *;
    ParseCases(s);
    NoneYet(NO_URI);
    if AuthorityAt(s) < 0 {
      PathRoundTrip(s, NO_URI);
      PathLeaves(s, NO_URI);
    } else {
      var before, t := SchemeOf(s), s[AuthorityAt(s)..];
      var k := Span(t, "/?#");
      AfterParts(t, before);
      NoneYet(before);
      HostinfoIs(t[..k], before);
      var v := WithAuthority(t[..k], before).uri;
      PathRoundTrip(t[k..], v);
      PathLeaves(t[k..], v);
      SameOpening(Parse(s).uri, before);
      ThreeParts(s, AuthorityAt(s), k);
    }
  }

  lemma HostinfoIs(a: string, u: Uri)
    requires WithAuthority(a, u).Success?
    ensures var v := WithAuthority(a, u).uri;
            && v.hostinfo == Given(a) && v.scheme == u.scheme
            && v.path == u.path && v.query == u.query && v.fragment == u.fragment
  {
    HostKeeps(HostPart(a), WithUserInfo(a, u));
    hide WithHost, HostPart;
  }

  lemma PathLeaves(s: string, u: Uri)
    ensures WithPath(s, u).hostinfo == u.hostinfo && WithPath(s, u).scheme == u.scheme
  {
  }

  /** A host text without a closing bracket, or with a port that is no number */
  predicate BadHostText(h: string) {
    SplitHost(h).BadHost? ||
      (SplitHost(h).port.Given? && SplitHost(h).port.text != "" && !IsNumber(SplitHost(h).port.text))
  }

  /** Parsing fails exactly on such a host; one that opens with a bracket needs another that closes it. */
  lemma RefusedIffBadHost(s: string)
    ensures AuthorityAt(s) <= |s|
    ensures Parse(s).General? <==> AuthorityAt(s) >= 0 && BadHostText(HostPart(AuthorityOf(s)))
    ensures forall h :: SplitHost(h).BadHost? <==> |h| > 0 && h[0] == '[' && ']' !in h
  {
    ParseCases(s);
    if AuthorityAt(s) >= 0 {
      RefusedHost(HostPart(AuthorityOf(s)), WithUserInfo(AuthorityOf(s), SchemeOf(s)));
    }
    hide Parse, HostPart, WithUserInfo, AuthorityAt, AuthorityOf, SchemeOf, BadHostText, WithHost, WithPath;
  }

  lemma RefusedHost(h: string, u: Uri)
    ensures WithHost(h, u).General? <==> BadHostText(h)
  {
    hide SplitHost, IsNumber, PortValue, DefaultPort;
  }

  /** The scheme's own port is lost. */
  lemma DefaultPortIsLost()
    ensures var s := "http" + "://" + "h:80";
            Parse(s).Success? && Unparse(Parse(s).uri, REVEAL) == "http" + "://" + "h"
  {
    var h := "h:80";
    SpanIs(h, ":", 1);
    assert h[..1] == "h" && h[2..] == "80";
    assert SplitHost(h) == Host("h", Given("80"));
    EightyIsHttp();
    hide SplitHost, Parse, Unparse, IsNumber, PortValue, DefaultPort, Span;
    HostIsLost("http", h, "h");
  }

  /** Brackets without a colon between them are lost. */
  lemma BracketsAreLost()
    ensures var s := "http" + "://" + "[h]";
            Parse(s).Success? && Unparse(Parse(s).uri, REVEAL) == "http" + "://" + "h"
  {
    var h := "[h]";
    SpanIs(h, "]", 2);
    assert h[1..2] == "h";
    assert SplitHost(h) == Host("h", Missing);
    hide SplitHost, Parse, Unparse, Span;
    HostIsLost("http", h, "h");
  }

  lemma HostIsLost(scheme: string, h: string, name: string)
    requires scheme != "" && forall i :: 0 <= i < |scheme| ==> scheme[i] !in ":/?#"
    requires forall i :: 0 <= i < |h| ==> h[i] !in "/?#" && h[i] != '@'
    requires SplitHost(h).Host? && SplitHost(h).name == name && ':' !in name
    requires var port := SplitHost(h).port;
             port.Given? ==> IsNumber(port.text) && PortValue(port.text) == DefaultPort(Given(scheme))
    ensures Parse(scheme + "://" + h).Success?
    ensures Unparse(Parse(scheme + "://" + h).uri, REVEAL) == scheme + "://" + name
  {
    ParseSchemeAndHost(scheme, h);
    var v := WithHost(h, NO_URI.(scheme := Given(scheme), hostinfo := Given(h))).uri;
    hide SplitHost, IsNumber, PortValue, DefaultPort, Parse;
    assert IsDefaultPort(v) && v.hostname == Given(name) && v.scheme == Given(scheme);
    assert HostText(v) == name && UserText(v, REVEAL) == "" && PathText(v, REVEAL) == "";
  }

  lemma EightyIsHttp()
    ensures IsNumber("80") && PortValue("80") == 80 && DefaultPort(Given("http")) == 80
  {
    assert SkipSpace("80") == "80" && "80"[1..] == "0" && "0"[1..] == "";
    assert DigitsValue("80", 0) == DigitsValue("0", 8) == 80;
    assert SameIgnoringCase("http", SCHEMES[0].0);
  }

  /** A text of a scheme and a host only */
  lemma ParseSchemeAndHost(scheme: string, h: string)
    requires scheme != "" && forall i :: 0 <= i < |scheme| ==> scheme[i] !in ":/?#"
    requires forall i :: 0 <= i < |h| ==> h[i] !in "/?#" && h[i] != '@'
    ensures Parse(scheme + "://" + h) == WithHost(h, NO_URI.(scheme := Given(scheme), hostinfo := Given(h)))
  {
    var s, u := scheme + "://" + h, NO_URI.(scheme := Given(scheme));
    SpanIs(s, ":/?#", |scheme|);
    SpanIs(h, "/?#", |h|);
    assert s[..|scheme|] == scheme && s[|scheme|..|scheme| + 3] == "://" && s[|scheme| + 3..] == h;
    assert LastOf(h, '@') == -1;
    assert h[..|h|] == h && h[|h|..] == "";
    assert WithAuthority(h, u) == WithHost(h, u.(hostinfo := Given(h)));
    hide WithHost, Span, LastOf;
  }

  lemma SpanIs(s: string, delims: string, k: nat)
    requires k <= |s| && (forall i :: 0 <= i < k ==> s[i] !in delims) && (k < |s| ==> s[k] in delims)
    ensures Span(s, delims) == k
  {
  }

  function SchemeOf(s: string): Uri {
    if |s| > 0 && s[0] == '/' then NO_URI else NO_URI.(scheme := Given(s[..Span(s, ":/?#")]))
  }

  lemma ParseCases(s: string)
    ensures AuthorityAt(s) <= |s|
    ensures AuthorityAt(s) < 0 ==> Parse(s) == Success(WithPath(s, NO_URI))
    ensures AuthorityAt(s) >= 0 ==> Parse(s) == AfterAuthority(s[AuthorityAt(s)..], SchemeOf(s))
    ensures AuthorityAt(s) >= 0 ==>
              s[..AuthorityAt(s)] == Opening(SchemeOf(s)) && SchemeOf(s) == NO_URI.(scheme := SchemeOf(s).scheme)
    ensures AuthorityAt(s) >= 0 ==> AuthorityOf(s) == s[AuthorityAt(s)..][..Span(s[AuthorityAt(s)..], "/?#")]
  {
    hide WithPath, AfterAuthority;
    if |s| > 0 && s[0] == '/' {
    } else {
      var k := Span(s, ":/?#");
      assert k + 2 < |s| && s[k..k + 3] == "://" ==> s[..k + 3] == s[..k] + "://";
    }
  }

  /** What stands before the authority. */
  function Opening(u: Uri): string {
    if u.scheme.Given? then u.scheme.text + "://" else "//"
  }

  lemma PathOnly(s: string)
    ensures Unparse(WithPath(s, NO_URI), REVEAL) == s
  {
    PathRoundTrip(s, NO_URI);
    var u := WithPath(s, NO_URI);
    assert u.hostname.Missing? && u.user.Missing? && u.password.Missing?;
    hide WithPath, PathText;
    assert SiteText(u, REVEAL) == "";
    assert "" + PathText(u, REVEAL) == PathText(u, REVEAL);
  }

  lemma PathKeeps(s: string, u: Uri)
    ensures var v := WithPath(s, u);
            && v.scheme == u.scheme && v.user == u.user && v.password == u.password && v.hostname == u.hostname
            && v.portStr == u.portStr && v.port == u.port
  {
  }

  lemma AfterRoundTrip(s: string, at: nat, before: Uri)
    requires at <= |s| && AfterAuthority(s[at..], before).Success?
    requires before == NO_URI.(scheme := before.scheme) && s[..at] == Opening(before)
    ensures var u := AfterAuthority(s[at..], before).uri;
            Unparse(u, REVEAL) == s <==> HostReturns(HostPart(s[at..][..Span(s[at..], "/?#")]), u)
  {
    hide *;
    AfterParts(s[at..], before);
    NoneYet(before);
    var t, k := s[at..], Span(s[at..], "/?#");
    ThreeParts(s, at, k);
    AuthorityRoundTrip(t[..k], before);
    Joins(s[..at], t[..k], t[k..], WithAuthority(t[..k], before).uri, before);
    assert s == s[..at] + (t[..k] + t[k..]);
  }

  lemma NoneYet(u: Uri)
    requires u == NO_URI.(scheme := u.scheme)
    ensures u.hostinfo.Missing? && u.user.Missing? && u.password.Missing? && u.portStr.Missing? && u.path.Missing? &&
            u.query.Missing? &&
            u.fragment.Missing?
  {
  }

  lemma ThreeParts(s: string, at: nat, k: nat)
    requires at <= |s| && k <= |s[at..]|
    ensures s == s[..at] + (s[at..][..k] + s[at..][k..])
  {
  }

  /** The parts stand in a row, so the whole is right when the authority is. */
  lemma Joins(opening: string, a: string, rest: string, v: Uri, before: Uri)
    requires v.hostname.Given? && v.scheme == before.scheme && opening == Opening(before)
    requires v.path.Missing? && v.query.Missing? && v.fragment.Missing?
    requires UserText(v, REVEAL) + HostText(v) == a <==> HostReturns(HostPart(a), v)
    ensures Unparse(WithPath(rest, v), REVEAL) == opening + (a + rest) <==> HostReturns(HostPart(a), WithPath(rest, v))
  {
    hide *;
    var u := WithPath(rest, v);
    PathRoundTrip(rest, v);
    PathKeeps(rest, v);
    SameHost(u, v, HostPart(a));
    SameOpening(v, before);
    SiteOf(u, opening);
    var site := UserText(u, REVEAL) + HostText(u);
    Appending(opening, site, rest);
    Cancel(opening, site + rest, a + rest);
    Cancel(rest, site, a);
  }

  lemma SameOpening(u: Uri, v: Uri)
    requires u.scheme == v.scheme
    ensures Opening(u) == Opening(v)
  {
  }

  lemma Appending(a: string, b: string, c: string)
    ensures a + b + c == a + (b + c)
  {
  }

  lemma AfterParts(t: string, before: Uri)
    requires AfterAuthority(t, before).Success?
    ensures var k := Span(t, "/?#");
            WithAuthority(t[..k], before).Success? &&
              AfterAuthority(t, before).uri == WithPath(t[k..], WithAuthority(t[..k], before).uri)
  {
    hide WithAuthority, WithPath;
  }

  lemma SiteOf(u: Uri, opening: string)
    requires u.hostname.Given? && Opening(u) == opening
    ensures Unparse(u, REVEAL) == opening + (UserText(u, REVEAL) + HostText(u)) + PathText(u, REVEAL)
  {
    hide UserText, HostText, PathText, Opening;
    assert opening + UserText(u, REVEAL) + HostText(u) == opening + (UserText(u, REVEAL) + HostText(u));
  }

  lemma SameHost(u: Uri, v: Uri, h: string)
    requires u.scheme == v.scheme && u.user == v.user && u.password == v.password && u.hostname == v.hostname &&
             v.hostname.Given?
    requires u.portStr == v.portStr && u.port == v.port
    ensures UserText(u, REVEAL) == UserText(v, REVEAL) && HostText(u) == HostText(v) && Opening(u) == Opening(v)
    ensures HostReturns(h, u) <==> HostReturns(h, v)
  {
    hide SplitHost, BracketsKept, DefaultPort;
    assert IsDefaultPort(u) == IsDefaultPort(v);
  }

  // ---------- the components ----------

  predicate Without(f: Field, delims: string) {
    f.Given? ==> forall i :: 0 <= i < |f.text| ==> f.text[i] !in delims
  }

  /** No component holds a delimiter that would end it. */
  predicate Separated(u: Uri) {
    && Without(u.scheme, ":/?#") && (u.scheme.Given? ==> u.scheme.text != "")
    && Without(u.hostinfo, "/?#") && Without(u.user, ":") && Without(u.hostname, "@") && Without(u.portStr, "@")
    && Without(u.path, "?#") && Without(u.query, "#") && (u.path.Given? ==> u.path.text != "")
    && (u.hostname.Given? && u.portStr.Given? && ':' in u.hostname.text ==> ']' !in u.hostname.text)
    && (u.portStr.Given? && u.portStr.text != "" ==> IsNumber(u.portStr.text) && u.port == PortValue(u.portStr.text))
    && (u.portStr == Given("") ==> u.port == DefaultPort(u.scheme))
  }

  lemma ComponentsAreSeparated(s: string)
    requires Parse(s).Success?
    ensures Separated(Parse(s).uri)
  {
    ParseCases(s);
    if AuthorityAt(s) < 0 {
      PathSeparated(s, NO_URI);
    } else {
      SchemeSeparated(s);
      hide Parse, SchemeOf, Separated, AuthorityAt;
      var before, t := SchemeOf(s), s[AuthorityAt(s)..];
      NoneYet(before);
      AfterParts(t, before);
      var k := Span(t, "/?#");
      AuthoritySeparated(t[..k], before);
      PathSeparated(t[k..], WithAuthority(t[..k], before).uri);
    }
  }

  lemma SchemeSeparated(s: string)
    requires AuthorityAt(s) >= 0
    ensures AuthorityAt(s) <= |s|
    ensures SchemeOf(s) == NO_URI.(scheme := SchemeOf(s).scheme) && Separated(SchemeOf(s))
  {
    ParseCases(s);
    hide IsNumber, DefaultPort, PortValue;
  }

  lemma PathSeparated(s: string, u: Uri)
    requires Separated(u) && u.path.Missing? && u.query.Missing? && u.fragment.Missing?
    ensures Separated(WithPath(s, u))
  {
    PathApart(s, u);
    PathKeeps(s, u);
    assert WithPath(s, u).hostinfo == u.hostinfo;
    hide IsNumber, DefaultPort, PortValue, WithPath, Without;
  }

  lemma PathApart(s: string, u: Uri)
    requires u.path.Missing? && u.query.Missing? && u.fragment.Missing?
    ensures var v := WithPath(s, u);
            Without(v.path, "?#") && Without(v.query, "#") && (v.path.Given? ==> v.path.text != "")
  {
  }

  lemma AuthoritySeparated(a: string, u: Uri)
    requires Separated(u) && WithAuthority(a, u).Success? && u.portStr.Missing? && u.hostname.Missing? &&
             u.user.Missing?
    requires forall i :: 0 <= i < |a| ==> a[i] !in "/?#"
    ensures Separated(WithAuthority(a, u).uri)
    ensures var v := WithAuthority(a, u).uri; v.path == u.path && v.query == u.query && v.fragment == u.fragment
  {
    hide *;
    HostHasNoAt(a);
    UserInfoSeparated(a, u);
    AuthorityIs(a, u);
    HostSeparated(HostPart(a), WithUserInfo(a, u));
  }

  lemma AuthorityIs(a: string, u: Uri)
    ensures WithAuthority(a, u) == WithHost(HostPart(a), WithUserInfo(a, u))
  {
    hide WithHost, HostPart, WithUserInfo;
  }

  lemma HostHasNoAt(a: string)
    ensures forall i :: 0 <= i < |HostPart(a)| ==> HostPart(a)[i] != '@'
  {
    var k := LastOf(a, '@');
    if k >= 0 {
      var h := a[k + 1..];
      assert forall i :: 0 <= i < |h| ==> h[i] == a[i + k + 1];
    }
    hide LastOf;
  }

  lemma UserInfoSeparated(a: string, u: Uri)
    requires Separated(u) && u.portStr.Missing? && u.hostname.Missing? && u.user.Missing?
    requires forall i :: 0 <= i < |a| ==> a[i] !in "/?#"
    ensures var v := WithUserInfo(a, u);
            && Separated(v) && v.portStr.Missing? && v.hostname.Missing?
            && v.path == u.path && v.query == u.query && v.fragment == u.fragment
  {
    hide IsNumber, DefaultPort, PortValue;
  }

  lemma HostSeparated(h: string, u: Uri)
    requires Separated(u) && WithHost(h, u).Success? && u.portStr.Missing? && u.hostname.Missing?
    requires forall i :: 0 <= i < |h| ==> h[i] != '@'
    ensures Separated(WithHost(h, u).uri)
    ensures var v := WithHost(h, u).uri; v.path == u.path && v.query == u.query && v.fragment == u.fragment
  {
    AcceptedHost(h, u);
    SplitSeparated(h);
    HostKeeps(h, u);
    HostFields(h, u);
    hide IsNumber, DefaultPort, PortValue, SplitHost, Span, Without, WithHost;
  }

  lemma HostFields(h: string, u: Uri)
    requires WithHost(h, u).Success? && SplitHost(h).Host? && u.portStr.Missing?
    ensures var v, host := WithHost(h, u).uri, SplitHost(h);
            && v.hostname == Given(host.name) && v.portStr == host.port
            && (host.port.Given? && host.port.text != "" ==>
              IsNumber(host.port.text) && v.port == PortValue(host.port.text))
            && (host.port == Given("") ==> v.port == DefaultPort(u.scheme))
  {
    hide SplitHost, IsNumber, PortValue, DefaultPort;
  }

  lemma SplitSeparated(h: string)
    requires SplitHost(h).Host? && forall i :: 0 <= i < |h| ==> h[i] != '@'
    ensures var host := SplitHost(h);
            && Without(Given(host.name), "@") && Without(host.port, "@")
            && (host.port.Given? && ':' in host.name ==> ']' !in host.name)
  {
  }

  // ---------- the parser ----------

  /** apr_uri_parse */
  method ParseUri(uri: string) returns (r: Parsed)
    ensures r == Parse(uri)
  {
    hide AfterAuthority, WithPath;
    if |uri| > 0 && uri[0] == '/' {
      if |uri| > 1 && uri[1] == '/' && !(|uri| > 2 && uri[2] == '/') {
        r := DealWithAuthority(uri[2..], NO_URI);
        return;
      }
      var u := DealWithPath(uri, NO_URI);
      return Success(u);
    }
    var k := Scan(uri, ":/?#");
    if k == 0 || !(k + 2 < |uri| && uri[k] == ':' && uri[k + 1] == '/' && uri[k + 2] == '/') {
      assert k + 2 < |uri| ==> uri[k..k + 3] == [uri[k], uri[k + 1], uri[k + 2]];
      var u := DealWithPath(uri, NO_URI);
      return Success(u);
    }
    assert uri[k..k + 3] == "://";
    r := DealWithAuthority(uri[k + 3..], NO_URI.(scheme := Given(uri[..k])));
  }

  /** The label deal_with_path */
  method DealWithPath(uri: string, u: Uri) returns (v: Uri)
    ensures v == WithPath(uri, u)
  {
    v := u;
    var k := Scan(uri, "?#");
    if k > 0 {
      v := v.(path := Given(uri[..k]));
    }
    if k == |uri| {
      return;
    }
    var rest := uri[k + 1..];
    if uri[k] == '?' {
      var j := Scan(rest, "#");
      if j < |rest| {
        v := v.(fragment := Given(rest[j + 1..]));
        v := v.(query := Given(rest[..j]));
      } else {
        v := v.(query := Given(rest));
      }
      return;
    }
    v := v.(fragment := Given(rest));
  }

  /** The label deal_with_authority: s begins behind the double slash. */
  method DealWithAuthority(s: string, u: Uri) returns (r: Parsed)
    ensures r == AfterAuthority(s, u)
  {
    hide *;
    var k := Scan(s, "/?#");
    var hostinfo := s[..k];
    AfterIs(s, u);
    var v := u.(hostinfo := Given(hostinfo));
    var at := |hostinfo| - 1;
    while at >= 0 && hostinfo[at] != '@'
      invariant -1 <= at < |hostinfo| && forall i :: at < i < |hostinfo| ==> hostinfo[i] != '@'
    {
      at := at - 1;
    }
    UserInfoIs(hostinfo, u, at);
    var host := hostinfo;
    if at >= 0 {
      v := DealWithUser(hostinfo[..at], v);
      host := hostinfo[at + 1..];
    }
    r := DealWithHost(host, v);
    if r.Success? {
      var w := DealWithPath(s[k..], r.uri);
      r := Success(w);
    }
  }

  lemma AfterIs(s: string, u: Uri)
    ensures var k := Span(s, "/?#"); var r := WithHost(HostPart(s[..k]), WithUserInfo(s[..k], u));
            AfterAuthority(s, u) == if r.Success? then Success(WithPath(s[k..], r.uri)) else r
  {
    hide WithHost, WithUserInfo, HostPart, WithPath;
  }

  lemma UserInfoIs(a: string, u: Uri, at: int)
    requires -1 <= at < |a| && (at >= 0 ==> a[at] == '@') && forall i :: at < i < |a| ==> a[i] != '@'
    ensures HostPart(a) == if at >= 0 then a[at + 1..] else a
    ensures WithUserInfo(a, u) ==
            if at >= 0 then WithUser(a[..at], u.(hostinfo := Given(a))) else u.(hostinfo := Given(a))
  {
    hide WithUser;
    assert LastOf(a, '@') == at;
  }

  method DealWithUser(user: string, u: Uri) returns (v: Uri)
    ensures v == WithUser(user, u)
  {
    var k := Scan(user, ":");
    if k < |user| {
      v := u.(user := Given(user[..k]), password := Given(user[k + 1..]));
    } else {
      v := u.(user := Given(user));
    }
  }

  /** The label deal_with_host */
  method DealWithHost(h: string, u: Uri) returns (r: Parsed)
    ensures r == WithHost(h, u)
  {
    hide IsNumber, PortValue;
    var name, port: Field := h, Missing;
    if |h| > 0 && h[0] == '[' {
      var rsb := Scan(h, "]");
      if rsb == |h| {
        return General(u);
      }
      if rsb + 1 < |h| && h[rsb + 1] == ':' {
        name, port := h[1..rsb], Given(h[rsb + 2..]);
      } else {
        name := h[1..|h| - 1];
      }
    } else {
      var colon := Scan(h, ":");
      if colon < |h| {
        name, port := h[..colon], Given(h[colon + 1..]);
      }
    }
    assert SplitHost(h) == Host(name, port);
    hide SplitHost, DefaultPort;
    var v := u.(hostname := Given(name));
    if port.Missing? {
      return Success(v);
    }
    v := v.(portStr := port);
    if port.text != "" {
      v := v.(port := PortValue(port.text));
      return if IsNumber(port.text) then Success(v) else General(v);
    }
    var default := PortOfScheme(u.scheme);
    v := v.(port := default);
    r := Success(v);
  }
}
