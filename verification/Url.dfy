/** URLs: the parser, the setters and the composer of url.cpp. */
module Urls {
  import opened Text
  import opened Bytes
  import Numbers
  import Ipv4Address
  import Percent = PercentEncoding
  import opened Query

  datatype UrlParts = UrlParts(
    scheme: string, user: string, password: string, host: string, port: Uint16,
    path: string, params: seq<Parameter>, fragment: string)

  const NO_PARTS := UrlParts("", "", "", "", 0, "", [], "")

  /** getNetworkSchemeDefaultPort, 0 for an unknown scheme. */
  function SchemePort(scheme: string): Uint16 {
    if scheme == "http" then 80
    else if scheme == "https" then 443
    else if scheme == "ftp" then 20
    else if scheme == "ssh" then 22
    else if scheme == "smtp" then 25
    else if scheme == "imap" then 143
    else if scheme == "pop" then 995
    else 0
  }

  predicate LineTerminator(c: char) {
    c == '\n' || c == '\r'
  }

  /** regex_search for .*:\/\/.+:.*@.+\/ : a "://", then something, ':', '@', something and '/', all on one line. */
  predicate UserInfo(s: string) {
    exists a, b, c, d :: 0 <= a && a + 4 <= b < c && c + 2 <= d < |s| && UserInfoAt(s, a, b, c, d)
  }

  predicate UserInfoAt(s: string, a: nat, b: nat, c: nat, d: nat)
    requires a + 4 <= b < c && c + 2 <= d < |s|
  {
    && OccursAt(s, "://", a) && s[b] == ':' && s[c] == '@' && s[d] == '/'
    && forall i :: a + 3 <= i < d ==> !LineTerminator(s[i])
  }

  /** m_port += c, in 16 bits. */
  function AddToPort(port: Uint16, c: char): Uint16 {
    (port + c as int) % 0x1_0000
  }

  function PortSum(port: Uint16, digits: string): Uint16
    decreases |digits|
  {
    if digits == "" then port else PortSum(AddToPort(port, digits[0]), digits[1..])
  }

  // What each part of the text contributes, from the one parsed last to the one parsed first.

  function QueryPart(u: UrlParts, text: string): (r: UrlParts)
    ensures r.scheme == u.scheme && r.user == u.user && r.password == u.password && r.host == u.host
    ensures r.port == u.port && r.path == u.path
  {
    if text == "" then u
    else u.(params := ParametersOf(text), fragment := if text[0] == '#' && |text| > 1 then text[1..] else u.fragment)
  }

  function PathPart(u: UrlParts, text: string): (r: UrlParts)
    ensures r.scheme == u.scheme && r.user == u.user && r.password == u.password && r.host == u.host && r.port == u.port
  {
    var k := Find(text, {'?'});
    var v := u.(path := u.path + text[..k]);
    if k < |text| then QueryPart(v, text[k + 1..]) else v
  }

  function PortPart(u: UrlParts, text: string): (r: UrlParts)
    ensures r.scheme == u.scheme && r.user == u.user && r.password == u.password && r.host == u.host
  {
    var k := Find(text, {'/'});
    var v := u.(port := PortSum(u.port, text[..k]));
    if k < |text| then PathPart(v, text[k + 1..]) else v
  }

  function HostPart(u: UrlParts, text: string): (r: UrlParts)
    ensures r.scheme == u.scheme && r.user == u.user && r.password == u.password
  {
    var k := Find(text, {':', '/'});
    var v := u.(host := u.host + text[..k]);
    if k == |text| then v
    else if text[k] == ':' then PortPart(v, text[k + 1..])
    else PathPart(v, text[k + 1..])
  }

  function PasswordPart(u: UrlParts, text: string): (r: UrlParts)
    ensures r.scheme == u.scheme && r.user == u.user
  {
    var k := Find(text, {'@'});
    var v := u.(password := u.password + text[..k]);
    if k < |text| then HostPart(v, text[k + 1..]) else v
  }

  function UserPart(u: UrlParts, text: string): (r: UrlParts)
    ensures r.scheme == u.scheme
  {
    var k := Find(text, {':', '@'});
    var v := u.(user := u.user + text[..k]);
    if k == |text| then v
    else if text[k] == ':' then PasswordPart(v, text[k + 1..])
    else HostPart(v, text[k + 1..])
  }

  /** The scheme ends at the first ':'; that character and the two behind it are skipped. */
  function SchemePart(u: UrlParts, text: string, userInfo: bool): UrlParts {
    var k := Find(text, {':'});
    var v := u.(scheme := u.scheme + text[..k]);
    if |text| < k + 3 then v else AfterScheme(v, text[k + 3..], userInfo)
  }

  function AfterScheme(u: UrlParts, text: string, userInfo: bool): UrlParts {
    if userInfo then UserPart(u, text) else HostPart(u, text)
  }

  /** A scheme brings its port along, when it has one, in network byte order. */
  function WithScheme(u: UrlParts, scheme: string): UrlParts {
    u.(scheme := scheme, port := if SchemePort(scheme) != 0 then Swap16(SchemePort(scheme)) else u.port)
  }

  /** Defaults: the path "/" and the port of the scheme. */
  function Completed(u: UrlParts): UrlParts {
    WithScheme(u.(path := if u.path == "" then "/" else u.path), u.scheme)
  }

  /** What Url(const std::string&) reads from a text. */
  function ParsedUrl(s: string): UrlParts {
    Completed(RawUrl(s))
  }

  function RawUrl(s: string): UrlParts {
    if Contains(s, "://") then SchemePart(NO_PARTS, s, UserInfo(s)) else AfterScheme(NO_PARTS, s, UserInfo(s))
  }

  function UserText(u: UrlParts): string {
    if u.user == "" then ""
    else u.user + (if u.password == "" then "" else ":" + u.password) + "@"
  }

  function QueryText(u: UrlParts): string {
    if u.params == [] then "" else "?" + Print(u.params)
  }

  /** What composeUrl() prints for a URL with a scheme, a host and no fragment. */
  function ComposedUrl(u: UrlParts): string {
    Head(u) + u.path + QueryText(u)
  }

  function Head(u: UrlParts): string {
    u.scheme + "://" + UserText(u) + u.host + "/"
  }

  function SchemeText(u: UrlParts): string {
    if u.scheme == "" then "" else u.scheme + ":"
  }

  function HostText(u: UrlParts, hostIps: seq<Ipv4Address.Ipv4>): string {
    if u.host != "" || hostIps == [] then u.host else Ipv4Address.Print(hostIps[0])
  }

  function PortText(u: UrlParts, includePort: bool): string {
    if u.port != 0 && includePort then ":" + Numbers.Decimal(u.port) else ""
  }

  function AuthorityText(u: UrlParts, hostIps: seq<Ipv4Address.Ipv4>, includePort: bool): string {
    if u.host == "" && hostIps == [] then ""
    else "//" + UserText(u) + HostText(u, hostIps) + PortText(u, includePort) + "/"
  }

  function FragmentText(u: UrlParts): string {
    if u.fragment == "" then "" else "#" + u.fragment
  }

  /** What composeUrl prints in general. */
  function FullText(u: UrlParts, hostIps: seq<Ipv4Address.Ipv4>, includePort: bool): string {
    SchemeText(u) + AuthorityText(u, hostIps, includePort) + u.path + QueryText(u) + FragmentText(u)
  }

  predicate Letter(c: char) {
    'A' <= c <= 'Z' || 'a' <= c <= 'z'
  }

  predicate HostChar(c: char) {
    Letter(c) || '0' <= c <= '9' || c == '-' || c == '.'
  }

  predicate SchemeChar(c: char) {
    HostChar(c) || c == '+'
  }

  /** What setScheme lets pass. */
  predicate ValidScheme(s: string) {
    s != "" && Letter(s[0]) && forall i :: 0 <= i < |s| ==> SchemeChar(s[i])
  }

  /** What setAuthority lets pass. */
  predicate ValidHost(s: string) {
    && 0 < |s| <= 253 && s[0] != '-' && s[|s| - 1] != '-'
    && forall i :: 0 <= i < |s| ==> HostChar(s[i])
  }

  /** The characters that the setters let pass. */
  lemma SchemeAlphabet(c: char)
    ensures SchemeChar(c) <==> c == '+' || HostChar(c)
    ensures HostChar(c) <==>
      c in "-." || c in "0123456789" || c in "ABCDEFGHIJKLMNOPQRSTUVWXYZ" || c in "abcdefghijklmnopqrstuvwxyz"
  {
    LetterAlphabet(c);
    DigitAlphabet(c);
    hide Letter;
  }

  lemma LetterAlphabet(c: char)
    ensures Letter(c) <==> c in "ABCDEFGHIJKLMNOPQRSTUVWXYZ" || c in "abcdefghijklmnopqrstuvwxyz"
  {
  }

  lemma DigitAlphabet(c: char)
    ensures '0' <= c <= '9' <==> c in "0123456789"
  {
  }

  // One character of the parser loop.

  lemma FindHead(c: char, text: string, stop: set<char>)
    ensures Find([c] + text, stop) == if c in stop then 0 else 1 + Find(text, stop)
  {
    assert ([c] + text)[1..] == text;
  }

  lemma QueryEmpty(u: UrlParts)
    ensures PathPart(u, "") == PortPart(u, "") == HostPart(u, "") == u
    ensures PasswordPart(u, "") == UserPart(u, "") == SchemePart(u, "", true) == SchemePart(u, "", false) == u
  {
    assert forall t: string :: t + "" == t;
  }

  lemma SchemeStep(u: UrlParts, c: char, text: string, userInfo: bool)
    ensures SchemePart(u, [c] + text, userInfo) ==
      if c != ':' then SchemePart(u.(scheme := u.scheme + [c]), text, userInfo)
      else if |text| < 2 then u
      else AfterScheme(u, text[2..], userInfo)
  {
    hide AfterScheme;
    var k := Find(text, {':'});
    FindHead(c, text, {':'});
    assert ([c] + text)[..k + 1] == [c] + text[..k];
    assert u.scheme + ([c] + text[..k]) == u.scheme + [c] + text[..k];
    assert k + 3 <= |text| ==> ([c] + text)[k + 4..] == text[k + 3..];
    assert 2 <= |text| ==> ([c] + text)[3..] == text[2..];
    assert u.scheme + ([c] + text)[..0] == u.scheme;
  }

  lemma UserStep(u: UrlParts, c: char, text: string)
    ensures UserPart(u, [c] + text) ==
      if c == ':' then PasswordPart(u, text)
      else if c == '@' then HostPart(u, text)
      else UserPart(u.(user := u.user + [c]), text)
  {
    hide PasswordPart, HostPart;
    var k := Find(text, {':', '@'});
    FindHead(c, text, {':', '@'});
    assert ([c] + text)[..k + 1] == [c] + text[..k];
    assert u.user + ([c] + text[..k]) == u.user + [c] + text[..k];
    assert k < |text| ==> ([c] + text)[k + 2..] == text[k + 1..];
    assert ([c] + text)[1..] == text && u.user + ([c] + text)[..0] == u.user;
  }

  lemma PasswordStep(u: UrlParts, c: char, text: string)
    ensures PasswordPart(u, [c] + text) ==
      if c == '@' then HostPart(u, text) else PasswordPart(u.(password := u.password + [c]), text)
  {
    hide HostPart;
    var k := Find(text, {'@'});
    FindHead(c, text, {'@'});
    assert ([c] + text)[..k + 1] == [c] + text[..k];
    assert u.password + ([c] + text[..k]) == u.password + [c] + text[..k];
    assert k < |text| ==> ([c] + text)[k + 2..] == text[k + 1..];
    assert ([c] + text)[1..] == text && u.password + ([c] + text)[..0] == u.password;
  }

  lemma HostStep(u: UrlParts, c: char, text: string)
    ensures HostPart(u, [c] + text) ==
      if c == ':' then PortPart(u, text)
      else if c == '/' then PathPart(u, text)
      else HostPart(u.(host := u.host + [c]), text)
  {
    hide PortPart, PathPart;
    var k := Find(text, {':', '/'});
    FindHead(c, text, {':', '/'});
    assert ([c] + text)[..k + 1] == [c] + text[..k];
    assert u.host + ([c] + text[..k]) == u.host + [c] + text[..k];
    assert k < |text| ==> ([c] + text)[k + 2..] == text[k + 1..];
    assert ([c] + text)[1..] == text && u.host + ([c] + text)[..0] == u.host;
  }

  lemma PortStep(u: UrlParts, c: char, text: string)
    ensures PortPart(u, [c] + text) ==
      if c == '/' then PathPart(u, text) else PortPart(u.(port := AddToPort(u.port, c)), text)
  {
    hide PathPart;
    var k := Find(text, {'/'});
    FindHead(c, text, {'/'});
    assert ([c] + text)[..k + 1] == [c] + text[..k] && ([c] + text[..k])[1..] == text[..k];
    assert k < |text| ==> ([c] + text)[k + 2..] == text[k + 1..];
    assert ([c] + text)[1..] == text;
  }

  lemma PathStep(u: UrlParts, c: char, text: string)
    ensures PathPart(u, [c] + text) ==
      if c == '?' then QueryPart(u, text) else PathPart(u.(path := u.path + [c]), text)
  {
    hide QueryPart;
    var k := Find(text, {'?'});
    FindHead(c, text, {'?'});
    assert ([c] + text)[..k + 1] == [c] + text[..k];
    assert u.path + ([c] + text[..k]) == u.path + [c] + text[..k];
    assert k < |text| ==> ([c] + text)[k + 2..] == text[k + 1..];
    assert ([c] + text)[1..] == text && u.path + ([c] + text)[..0] == u.path;
  }

  /** The parser's flags. */
  datatype Flags = Flags(
    schemeParsed: bool, userNameParsed: bool, userPasswordParsed: bool, hostParsed: bool,
    portParsed: bool, pathParsed: bool, queryParsed: bool, fragmentParsed: bool)

  /** The combinations of flags that occur. */
  ghost predicate Consistent(f: Flags) {
    && (!f.schemeParsed || !f.userNameParsed ==> f.userPasswordParsed && !f.hostParsed)
    && (!f.userPasswordParsed ==> f.userNameParsed && !f.hostParsed)
    && (!f.hostParsed ==> f.portParsed && !f.pathParsed)
    && (!f.portParsed ==> !f.pathParsed)
    && (!f.pathParsed ==> f.queryParsed && f.fragmentParsed)
  }

  /** What is still to be read from `text`, by the first flag that is not set. */
  ghost function Rest(f: Flags, u: UrlParts, text: string): UrlParts {
    if !f.schemeParsed then SchemePart(u, text, !f.userNameParsed)
    else if !f.userNameParsed then UserPart(u, text)
    else if !f.userPasswordParsed then PasswordPart(u, text)
    else if !f.hostParsed then HostPart(u, text)
    else if !f.portParsed then PortPart(u, text)
    else if !f.pathParsed then PathPart(u, text)
    else if !f.queryParsed then QueryPart(u, text)
    else if !f.fragmentParsed then u.(fragment := if text == "" then u.fragment else text)
    else u
  }

  lemma QueryStep(u: UrlParts, c: char, text: string)
    ensures QueryPart(u, [c] + text) == (var v := u.(params := ParametersOf([c] + text));
      if c == '#' && text != "" then v.(fragment := text) else v)
  {
    assert ([c] + text)[1..] == text;
  }

  lemma RestEmpty(f: Flags, u: UrlParts)
    ensures Rest(f, u, "") == u
  {
    QueryEmpty(u);
  }

  /** The parser's next state after one character, by the first flag that is not set; the loop ends in
      the query and in the fragment, whose text is taken as a whole. */
  ghost predicate StepsTo(f: Flags, u: UrlParts, text: string, f': Flags, u': UrlParts, text': string) {
    Consistent(f) ==> Consistent(f') && Rest(f', u', text') == Rest(f, u, text)
  }

  lemma SchemeRest(f: Flags, u: UrlParts, c: char, text: string)
    requires !f.schemeParsed
    ensures c == ':' ==>
      StepsTo(f, u, [c] + text, f.(schemeParsed := true), u, if |text| < 2 then "" else text[2..])
    ensures c != ':' ==> StepsTo(f, u, [c] + text, f, u.(scheme := u.scheme + [c]), text)
  {
    SchemeStep(u, c, text, !f.userNameParsed);
    QueryEmpty(u);
  }

  lemma UserRest(f: Flags, u: UrlParts, c: char, text: string)
    requires f.schemeParsed && !f.userNameParsed
    ensures c == ':' ==>
      StepsTo(f, u, [c] + text, f.(userNameParsed := true, userPasswordParsed := false), u, text)
    ensures c == '@' ==> StepsTo(f, u, [c] + text, f.(userNameParsed := true), u, text)
    ensures c != ':' && c != '@' ==> StepsTo(f, u, [c] + text, f, u.(user := u.user + [c]), text)
  {
    UserStep(u, c, text);
  }

  lemma PasswordRest(f: Flags, u: UrlParts, c: char, text: string)
    requires f.schemeParsed && f.userNameParsed && !f.userPasswordParsed
    ensures c == '@' ==> StepsTo(f, u, [c] + text, f.(userPasswordParsed := true), u, text)
    ensures c != '@' ==> StepsTo(f, u, [c] + text, f, u.(password := u.password + [c]), text)
  {
    PasswordStep(u, c, text);
  }

  lemma HostRest(f: Flags, u: UrlParts, c: char, text: string)
    requires f.schemeParsed && f.userNameParsed && f.userPasswordParsed && !f.hostParsed
    ensures c == ':' ==> StepsTo(f, u, [c] + text, f.(portParsed := false, hostParsed := true), u, text)
    ensures c == '/' ==> StepsTo(f, u, [c] + text, f.(hostParsed := true), u, text)
    ensures c != ':' && c != '/' ==> StepsTo(f, u, [c] + text, f, u.(host := u.host + [c]), text)
  {
    HostStep(u, c, text);
  }

  lemma PortRest(f: Flags, u: UrlParts, c: char, text: string)
    requires f.schemeParsed && f.userNameParsed && f.userPasswordParsed && f.hostParsed && !f.portParsed
    ensures c == '/' ==> StepsTo(f, u, [c] + text, f.(portParsed := true), u, text)
    ensures c != '/' ==> StepsTo(f, u, [c] + text, f, u.(port := AddToPort(u.port, c)), text)
  {
    PortStep(u, c, text);
  }

  lemma PathRest(f: Flags, u: UrlParts, c: char, text: string)
    requires f.schemeParsed && f.userNameParsed && f.userPasswordParsed && f.hostParsed && f.portParsed
    requires !f.pathParsed
    ensures c == '?' ==> StepsTo(f, u, [c] + text, f.(pathParsed := true, queryParsed := false), u, text)
    ensures c != '?' ==> StepsTo(f, u, [c] + text, f, u.(path := u.path + [c]), text)
  {
    PathStep(u, c, text);
  }

  lemma QueryRest(f: Flags, u: UrlParts, c: char, text: string)
    requires f.schemeParsed && f.userNameParsed && f.userPasswordParsed && f.hostParsed && f.portParsed
    requires f.pathParsed && !f.queryParsed
    ensures var v := u.(params := ParametersOf([c] + text));
      if c == '#'
      then StepsTo(f, u, [c] + text, f.(queryParsed := true, fragmentParsed := false), v, text)
      else Rest(f, u, [c] + text) == v
  {
    QueryStep(u, c, text);
  }

  lemma FragmentRest(f: Flags, u: UrlParts, c: char, text: string)
    requires f.schemeParsed && f.userNameParsed && f.userPasswordParsed && f.hostParsed && f.portParsed
    requires f.pathParsed && f.queryParsed
    ensures !f.fragmentParsed ==> Rest(f, u, [c] + text) == u.(fragment := [c] + text)
    ensures f.fragmentParsed ==> StepsTo(f, u, [c] + text, f, u, text)
  {
  }

  /** The part of a text that an index at or behind its end leaves. */
  function From(s: string, index: nat): string {
    if index <= |s| then s[index..] else ""
  }

  lemma FromNext(s: string, index: nat)
    requires index < |s|
    ensures From(s, index) == s[index..] == [s[index]] + s[index + 1..] && From(s, index + 1) == s[index + 1..]
    ensures From(s, index + 3) == if |s[index + 1..]| < 2 then "" else s[index + 1..][2..]
  {
  }

  lemma FromEnd(s: string, index: nat)
    requires index >= |s|
    ensures From(s, index) == ""
  {
  }

  /** One round of the parser loop in front of the query. */
  method ScanCharacter(url: string, index: nat, f: Flags, u: UrlParts) returns (f': Flags, u': UrlParts, next: nat)
    requires index < |url| && !(f.schemeParsed && f.userNameParsed && f.userPasswordParsed && f.hostParsed
      && f.portParsed && f.pathParsed)
    ensures StepsTo(f, u, From(url, index), f', u', From(url, next)) && index < next
  {
    hide StepsTo, From;
    var c := url[index];
    ghost var text := url[index + 1..];
    FromNext(url, index);
    f', u', next := f, u, index + 1;
    if !f.schemeParsed {
      SchemeRest(f, u, c, text);
      if c == ':' {
        f', next := f.(schemeParsed := true), index + 3;
      } else {
        u' := u.(scheme := u.scheme + [c]);
      }
    } else if !f.userNameParsed {
      UserRest(f, u, c, text);
      if c == ':' {
        f' := f.(userNameParsed := true, userPasswordParsed := false);
      } else if c == '@' {
        f' := f.(userNameParsed := true);
      } else {
        u' := u.(user := u.user + [c]);
      }
    } else if !f.userPasswordParsed {
      PasswordRest(f, u, c, text);
      if c == '@' {
        f' := f.(userPasswordParsed := true);
      } else {
        u' := u.(password := u.password + [c]);
      }
    } else if !f.hostParsed {
      HostRest(f, u, c, text);
      if c == ':' {
        f' := f.(portParsed := false, hostParsed := true);
      } else if c == '/' {
        f' := f.(hostParsed := true);
      } else {
        u' := u.(host := u.host + [c]);
      }
    } else if !f.portParsed {
      PortRest(f, u, c, text);
      if c == '/' {
        f' := f.(portParsed := true);
      } else {
        u' := u.(port := AddToPort(u.port, c));
      }
    } else {
      PathRest(f, u, c, text);
      if c == '?' {
        f' := f.(pathParsed := true, queryParsed := false);
      } else {
        u' := u.(path := u.path + [c]);
      }
    }
  }

  lemma ScanStart(url: string)
    ensures var f := Flags(!Contains(url, "://"), !UserInfo(url), true, false, true, false, true, true);
      Consistent(f) && Rest(f, NO_PARTS, url) == RawUrl(url)
    ensures From(url, 0) == url
  {
  }

  /** The parser loop, before the defaults are filled in. */
  method Scan(url: string) returns (u: UrlParts)
    ensures u == RawUrl(url)
  {
    u := NO_PARTS;
    var f := Flags(!Contains(url, "://"), !UserInfo(url), true, false, true, false, true, true);
    var index := 0;
    ghost var left := url;
    hide Rest, RawUrl, Consistent, From, UserInfo, Contains;
    ScanStart(url);
    while index < |url|
      invariant left == From(url, index)
      invariant Consistent(f) && Rest(f, u, left) == RawUrl(url)
      decreases |url| - index
    {
      if !(f.schemeParsed && f.userNameParsed && f.userPasswordParsed && f.hostParsed && f.portParsed && f.pathParsed) {
        f, u, index := ScanCharacter(url, index, f, u);
        left := From(url, index);
        continue;
      }
      var c := url[index];
      ghost var text := url[index + 1..];
      FromNext(url, index);
      if !f.queryParsed {
        QueryRest(f, u, c, text);
        var params := new Params.Parse(url[index..]);
        u := u.(params := params.m_params);
        if c == '#' {
          f := f.(queryParsed := true, fragmentParsed := false);
          index, left := index + 1, text;
          continue;
        }
        left := "";
        break;
      }
      FragmentRest(f, u, c, text);
      if !f.fragmentParsed {
        u := u.(fragment := url[index..]);
        left := "";
        break;
      }
      index, left := index + 1, text;
    }
    if left != "" {
      FromEnd(url, index);
    }
    RestEmpty(f, u);
  }

  class Url {
    var m_scheme: string
    var m_user_name: string
    var m_user_password: string
    var m_host: string
    var m_path: string
    var m_fragment: string
    var m_params: Params
    var m_host_ip: seq<Ipv4Address.Ipv4>
    var m_port: Uint16
    var m_valid: bool

    function Parts(): UrlParts
      reads this, m_params
    {
      UrlParts(m_scheme, m_user_name, m_user_password, m_host, m_port, m_path, m_params.m_params, m_fragment)
    }

    /** Url(const std::string&). */
    constructor (url: string)
      ensures Parts() == ParsedUrl(url) && m_valid && m_host_ip == []
      ensures fresh(m_params)
    {
      var u := Scan(url);
      m_scheme, m_user_name, m_user_password, m_host := u.scheme, u.user, u.password, u.host;
      m_path := if u.path == "" then "/" else u.path;
      var params := new Params();
      params.m_params := u.params;
      m_params, m_fragment := params, u.fragment;
      m_port := if SchemePort(u.scheme) != 0 then Swap16(SchemePort(u.scheme)) else u.port;
      m_host_ip, m_valid := [], true;
    }

    /** setScheme. */
    method SetScheme(scheme: string) returns (thrown: bool)
      modifies this
      ensures thrown <==> scheme == "" || !Letter(scheme[0]) || exists c :: c in scheme && !SchemeChar(c)
      ensures thrown <==> !ValidScheme(scheme)
      ensures Parts() == if thrown then old(Parts()) else WithScheme(old(Parts()), scheme)
      ensures m_params == old(m_params) && m_host_ip == old(m_host_ip) && m_valid == old(m_valid)
    {
      if scheme == "" || !Letter(scheme[0]) {
        return true;
      }
      if exists i :: 0 <= i < |scheme| && !SchemeChar(scheme[i]) {
        return true;
      }
      m_scheme := scheme;
      var port := SchemePort(scheme);
      if port != 0 {
        m_port := Swap16(port);
      }
      return false;
    }

    /** setAuthority; the source reads the first and the last character of the host. */
    method SetAuthority(host: string, user: string, password: string) returns (thrown: bool)
      requires host != ""
      modifies this
      ensures thrown <==>
        |host| > 253 || host[0] == '-' || host[|host| - 1] == '-' || (exists c :: c in host && !HostChar(c))
      ensures thrown <==> !ValidHost(host)
      ensures Parts() ==
        if thrown then old(Parts()) else old(Parts()).(host := host, user := user, password := password)
      ensures m_params == old(m_params) && m_host_ip == old(m_host_ip) && m_valid == old(m_valid)
    {
      if |host| > 253 {
        return true;
      }
      if exists i :: 0 <= i < |host| && !HostChar(host[i]) {
        return true;
      }
      if host[0] == '-' || host[|host| - 1] == '-' {
        return true;
      }
      m_host, m_user_name, m_user_password := host, user, password;
      return false;
    }

    /** query. */
    method Query() returns (query: string)
      ensures query == Print(m_params.m_params)
    {
      query := "";
      var ps := m_params.m_params;
      for i := 0 to |ps|
        invariant query == Terminated(ps[..i])
      {
        assert ps[..i + 1][..i] == ps[..i];
        query := query + ps[i].name;
        query := query + "=";
        query := query + ps[i].value;
        query := query + "&";
        assert query == Terminated(ps[..i]) + Pair(ps[i]) + "&";
      }
      assert ps[..|ps|] == ps;
      if ps != [] {
        assert ps == ps[..|ps| - 1] + [ps[|ps| - 1]];
        TerminatedPrint(ps[..|ps| - 1], ps[|ps| - 1]);
      }
      if query != "" {
        query := query[..|query| - 1];
      }
    }

    /** The authority in composeUrl. */
    method ComposeAuthority(includePort: bool) returns (text: string)
      requires m_host != "" || m_host_ip != []
      ensures text == AuthorityText(Parts(), m_host_ip, includePort)
    {
      ghost var u := Parts();
      text := "//";
      if m_user_name != "" {
        text := text + m_user_name;
        if m_user_password != "" {
          text := text + ":";
          text := text + m_user_password;
        }
        text := text + "@";
      }
      assert text == "//" + UserText(u);
      if m_host != "" {
        text := text + m_host;
      } else {
        text := text + Ipv4Address.Print(m_host_ip[0]);
      }
      ghost var withHost := text;
      assert withHost == "//" + UserText(u) + HostText(u, m_host_ip);
      if m_port != 0 && includePort {
        text := text + ":";
        text := text + Numbers.Decimal(m_port);
      }
      assert text == withHost + PortText(u, includePort);
      text := text + "/";
    }

    /** The query in composeUrl. */
    method ComposeQuery() returns (text: string)
      ensures text == QueryText(Parts())
    {
      text := "";
      if m_params.m_params != [] {
        text := text + "?";
        var query := Query();
        text := text + query;
      }
    }

    /** The scheme and the fragment in composeUrl. */
    method ComposeScheme() returns (text: string)
      ensures text == SchemeText(Parts())
    {
      text := "";
      if m_scheme != "" {
        text := text + m_scheme;
        text := text + ":";
      }
    }

    method ComposeFragment() returns (text: string)
      ensures text == FragmentText(Parts())
    {
      text := "";
      if m_fragment != "" {
        text := text + "#";
        text := text + m_fragment;
      }
    }

    /** composeUrl. Its last loop searches the fragment from the beginning on every pass, and looks up and
        replaces the character of the whole text at the position found: that throws, or goes on for ever. */
    method ComposeUrl(includePort: bool) returns (r: Result<string>)
      requires !PassesForever(FullText(Parts(), m_host_ip, includePort), m_fragment)
      ensures r == if Percent.NoneReservedIn(m_fragment) then Ok(FullText(Parts(), m_host_ip, includePort)) else Thrown
    {
      var uri := ComposeText(includePort);
      PassesForeverIff(uri, m_fragment);
      var last := EncodePasses(uri, 1);
      r := if last.Done? then Ok(uri) else Thrown;
    }

    /** The last loop, cut off after so many passes; where it ends at all, it ends in the first one. */
    method EncodePasses(text: string, passes: nat) returns (last: Pass)
      ensures last == AfterPasses(text, m_fragment, passes)
    {
      var uri := text;
      for pass := 0 to passes
        invariant AfterPasses(text, m_fragment, passes) == AfterPasses(uri, m_fragment, passes - pass)
      {
        var charToEncode := Percent.FindFirstOf(m_fragment, 0);
        assert m_fragment[0..charToEncode] == m_fragment[..charToEncode];
        Percent.FirstReservedUnique(m_fragment, charToEncode);
        if charToEncode == |m_fragment| {
          return Done;
        }
        if charToEncode >= |uri| || !Percent.Reserved(uri[charToEncode]) {
          return Threw;  // out of at(), of the text or of the table
        }
        var code := Percent.TableAt(uri[charToEncode]);
        uri := uri[..charToEncode] + code + uri[charToEncode + 1..];
      }
      last := Again(uri);
    }

    /** The text in front of the last loop. */
    method ComposeText(includePort: bool) returns (uri: string)
      ensures uri == FullText(Parts(), m_host_ip, includePort)
    {
      uri := ComposeScheme();
      if m_host != "" || m_host_ip != [] {
        var authority := ComposeAuthority(includePort);
        uri := uri + authority;
      } else {
        assert uri == uri + AuthorityText(Parts(), m_host_ip, includePort);
      }
      uri := uri + m_path;
      var queryText := ComposeQuery();
      uri := uri + queryText;
      var fragmentText := ComposeFragment();
      uri := uri + fragmentText;
    }
  }

  /** A pass of the last loop of composeUrl ends it, throws out of at(), or leaves a longer text. */
  datatype Pass = Done | Threw | Again(uri: string)

  function OnePass(uri: string, fragment: string): Pass {
    var i := Percent.FirstReserved(fragment);
    if i == |fragment| then Done
    else if i < |uri| && Percent.Reserved(uri[i]) then Again(uri[..i] + Percent.Code(uri[i]) + uri[i + 1..])
    else Threw
  }

  function AfterPasses(uri: string, fragment: string, n: nat): Pass
    decreases n
  {
    if n == 0 then Again(uri)
    else
      match OnePass(uri, fragment)
      case Again(next) => AfterPasses(next, fragment, n - 1)
      case end => end
  }

  /** The first reserved character of the fragment stands at a position where the text has one as well. */
  predicate PassesForever(uri: string, fragment: string) {
    var i := Percent.FirstReserved(fragment);
    i < |fragment| && i < |uri| && Percent.Reserved(uri[i])
  }

  /** A pass leaves such a text behind. */
  lemma PassRepeats(uri: string, fragment: string)
    requires PassesForever(uri, fragment)
    ensures OnePass(uri, fragment).Again? && PassesForever(OnePass(uri, fragment).uri, fragment)
  {
    var i := Percent.FirstReserved(fragment);
    assert OnePass(uri, fragment).uri[i] == Percent.Code(uri[i])[0] == '%';
  }

  lemma {:induction false} PassesGoOn(uri: string, fragment: string, n: nat)
    requires PassesForever(uri, fragment)
    ensures AfterPasses(uri, fragment, n).Again?
    decreases n
  {
    if n > 0 {
      PassRepeats(uri, fragment);
      PassesGoOn(OnePass(uri, fragment).uri, fragment, n - 1);
    }
  }

  /** The loop never ends exactly on these texts; on the others its first pass ends it or throws. */
  lemma PassesForeverIff(uri: string, fragment: string)
    ensures (forall n: nat :: AfterPasses(uri, fragment, n).Again?) <==> PassesForever(uri, fragment)
    ensures !PassesForever(uri, fragment) ==>
      AfterPasses(uri, fragment, 1) == if Percent.NoneReservedIn(fragment) then Done else Threw
  {
    if PassesForever(uri, fragment) {
      forall n: nat ensures AfterPasses(uri, fragment, n).Again? {
        PassesGoOn(uri, fragment, n);
      }
    } else {
      var i := Percent.FirstReserved(fragment);
      assert fragment[..|fragment|] == fragment;
      assert !AfterPasses(uri, fragment, 1).Again?;
    }
  }

  /** What such passes leave: the first one replaces the character by its code, each other one writes another 25
      behind the '%'. */
  function Twentyfives(n: nat): string {
    if n == 0 then "" else "25" + Twentyfives(n - 1)
  }

  lemma PassesGrow(uri: string, fragment: string, n: nat)
    requires PassesForever(uri, fragment)
    ensures var i := Percent.FirstReserved(fragment);
      AfterPasses(uri, fragment, n + 1) ==
        Again(uri[..i] + ("%" + (Twentyfives(n) + (Percent.Code(uri[i])[1..] + uri[i + 1..]))))
  {
    var i := Percent.FirstReserved(fragment);
    var a, r := uri[..i], Percent.Code(uri[i])[1..] + uri[i + 1..];
    Percent.CodeDecodes(uri[i]);
    assert OnePass(uri, fragment) == Again(a + ("%" + r));
    PassesOnPercent(a, r, fragment, n);
  }

  lemma {:induction false} PassesOnPercent(a: string, r: string, fragment: string, n: nat)
    requires |a| == Percent.FirstReserved(fragment) < |fragment|
    ensures AfterPasses(a + ("%" + r), fragment, n) == Again(a + ("%" + (Twentyfives(n) + r)))
    decreases n
  {
    hide Percent.FirstReserved, OnePass;
    if n == 0 {
      assert "" + r == r;
    } else {
      PassOnPercent(a, r, fragment);
      PassesOnPercent(a, "25" + r, fragment, n - 1);
      TwentyfivesAppend(n - 1);
      Associative(Twentyfives(n - 1), "25", r);
    }
  }

  lemma PassOnPercent(a: string, r: string, fragment: string)
    requires |a| == Percent.FirstReserved(fragment) < |fragment|
    ensures OnePass(a + ("%" + r), fragment) == Again(a + ("%" + ("25" + r)))
  {
    PercentCode();
    PercentBetween(a, r);
    hide Percent.Reserved, Percent.Code, Percent.FirstReserved;
    Associative(a, "%25", r);
    Associative("%", "25", r);
    assert "%25" == "%" + "25";
  }

  lemma PercentBetween(a: string, r: string)
    ensures var uri := a + ("%" + r); uri[|a|] == '%' && uri[..|a|] == a && uri[|a| + 1..] == r
  {
  }

  lemma PercentCode()
    ensures Percent.Reserved('%') && Percent.Code('%') == "%25"
  {
    Percent.TableCoversReserved('%');
  }

  lemma {:induction false} TwentyfivesAppend(n: nat)
    ensures Twentyfives(n) + "25" == Twentyfives(n + 1)
  {
    if n > 0 {
      TwentyfivesAppend(n - 1);
      Associative("25", Twentyfives(n - 1), "25");
    } else {
      assert Twentyfives(1) == "25" + Twentyfives(0);
    }
  }

  lemma FullTextIsComposedUrl(u: UrlParts, hostIps: seq<Ipv4Address.Ipv4>)
    requires u.scheme != "" && u.host != ""
    ensures FullText(u, hostIps, false) == ComposedUrl(u) + FragmentText(u)
  {
    assert "//" + UserText(u) + u.host + "" == "//" + UserText(u) + u.host;
    assert u.scheme + ":" + ("//" + UserText(u) + u.host + "/") == Head(u);
  }

  /** Without a host the first address stands in its place; without either there is no authority. */
  lemma HostOrAddress(u: UrlParts, hostIps: seq<Ipv4Address.Ipv4>, includePort: bool)
    ensures u.host == "" && hostIps != [] ==>
      FullText(u, hostIps, includePort) == FullText(u.(host := Ipv4Address.Print(hostIps[0])), [], includePort)
    ensures u.host != "" ==> FullText(u, hostIps, includePort) == FullText(u, [], includePort)
    ensures u.host == "" && hostIps == [] ==>
      FullText(u, hostIps, includePort) == SchemeText(u) + u.path + QueryText(u) + FragmentText(u)
  {
    var text := SchemeText(u);
    assert text + "" == text;
    if hostIps != [] {
      var v := u.(host := Ipv4Address.Print(hostIps[0]));
      assert '.' in Ipv4Address.Print(hostIps[0]);
      assert QueryText(u) == QueryText(v) && UserText(u) == UserText(v);
      assert PortText(u, includePort) == PortText(v, includePort);
    }
    hide QueryText, UserText, PortText, Ipv4Address.Print;
  }

  /** A port is printed exactly when there is one and it is asked for. */
  lemma PortOnDemand(u: UrlParts, hostIps: seq<Ipv4Address.Ipv4>)
    ensures FullText(u, hostIps, false) == FullText(u.(port := 0), hostIps, false)
      == FullText(u.(port := 0), hostIps, true)
  {
    var w := u.(port := 0);
    assert QueryText(u) == QueryText(w) && UserText(u) == UserText(w);
    hide QueryText, UserText, Ipv4Address.Print;
  }

  // Printing and parsing again.

  /** What every parsed URL satisfies. */
  predicate Shaped(u: UrlParts) {
    && '?' !in u.path && AllClean(u.params)
    && ':' !in u.user && '@' !in u.user && '@' !in u.password
  }

  lemma PathPartShaped(u: UrlParts, text: string)
    requires Shaped(u)
    ensures Shaped(PathPart(u, text))
  {
    var k := Find(text, {'?'});
    if k < |text| {
      ParsedIsClean(text[k + 1..]);
    }
  }

  lemma HostPartShaped(u: UrlParts, text: string)
    requires Shaped(u)
    ensures Shaped(HostPart(u, text))
  {
    hide PathPart, PortSum;
    var k := Find(text, {':', '/'});
    var v := u.(host := u.host + text[..k]);
    assert Shaped(v);
    if k < |text| {
      var rest := text[k + 1..];
      PathPartShaped(v, rest);
      var j := Find(rest, {'/'});
      if j < |rest| {
        var w := v.(port := PortSum(v.port, rest[..j]));
        assert Shaped(w);
        PathPartShaped(w, rest[j + 1..]);
      }
    }
  }

  lemma UserPartShaped(u: UrlParts, text: string)
    requires Shaped(u)
    ensures Shaped(UserPart(u, text))
  {
    var k := Find(text, {':', '@'});
    var v := u.(user := u.user + text[..k]);
    assert Shaped(v);
    if k < |text| {
      var rest := text[k + 1..];
      HostPartShaped(v, rest);
      var j := Find(rest, {'@'});
      var w := v.(password := v.password + rest[..j]);
      assert Shaped(w);
      if j < |rest| {
        HostPartShaped(w, rest[j + 1..]);
      }
    }
  }

  lemma AfterSchemeShaped(u: UrlParts, text: string, userInfo: bool)
    requires Shaped(u)
    ensures Shaped(AfterScheme(u, text, userInfo))
  {
    UserPartShaped(u, text);
    HostPartShaped(u, text);
  }

  lemma ParsedShape(s: string)
    ensures Shaped(ParsedUrl(s)) && ParsedUrl(s).path != ""
  {
    hide AfterScheme;
    var k := Find(s, {':'});
    var v := NO_PARTS.(scheme := NO_PARTS.scheme + s[..k]);
    if k + 3 <= |s| {
      AfterSchemeShaped(v, s[k + 3..], UserInfo(s));
    }
    AfterSchemeShaped(NO_PARTS, s, UserInfo(s));
  }

  /** Cutting `a`, which holds no stop character, off the text behind it. */
  lemma Cut(a: string, c: char, b: string, stop: set<char>)
    requires c in stop && forall i :: 0 <= i < |a| ==> a[i] !in stop
    ensures var text := a + [c] + b;
      Find(text, stop) == |a| && text[|a|] == c && text[..|a|] == a && text[|a| + 1..] == b
  {
    FindUnique(a + [c] + b, stop, |a|);
  }

  function AfterHost(u: UrlParts): string {
    u.path + QueryText(u)
  }

  function AfterUser(u: UrlParts): string {
    u.host + "/" + AfterHost(u)
  }

  lemma ComposedCut(u: UrlParts)
    ensures ComposedUrl(u) == u.scheme + ":" + ("//" + (UserText(u) + AfterUser(u)))
  {
    var user, query := UserText(u), QueryText(u);
    hide UserText, QueryText;
    assert user + AfterUser(u) == user + u.host + "/" + u.path + query;
    assert u.scheme + "://" == u.scheme + ":" + "//";
  }

  lemma SchemeOfComposed(u: UrlParts)
    requires ValidScheme(u.scheme)
    ensures var text := UserText(u) + AfterUser(u);
      RawUrl(ComposedUrl(u)) == AfterScheme(NO_PARTS.(scheme := u.scheme), text, UserInfo(ComposedUrl(u)))
  {
    hide AfterScheme, UserText, AfterUser, ComposedUrl, UserInfo;
    var s, rest := ComposedUrl(u), UserText(u) + AfterUser(u);
    ComposedCut(u);
    assert forall i :: 0 <= i < |u.scheme| ==> SchemeChar(u.scheme[i]);
    hide SchemeChar, ValidScheme;
    Cut(u.scheme, ':', "//" + rest, {':'});
    hide Find;
    assert s[|u.scheme|..] == "://" + rest;
    assert OccursAt(s, "://", |u.scheme|);
    assert s[|u.scheme| + 3..] == rest;
    assert NO_PARTS.scheme + u.scheme == u.scheme;
  }

  lemma HostOfComposed(v: UrlParts, u: UrlParts)
    requires ValidHost(u.host) && v.host == ""
    ensures HostPart(v, AfterUser(u)) == PathPart(v.(host := u.host), AfterHost(u))
  {
    assert forall i :: 0 <= i < |u.host| ==> HostChar(u.host[i]);
    Cut(u.host, '/', AfterHost(u), {':', '/'});
    assert "" + u.host == u.host;
  }

  predicate StartsWithHash(ps: seq<Parameter>) {
    ps != [] && ps[0].name != "" && ps[0].name[0] == '#'
  }

  lemma PathOfComposed(v: UrlParts, u: UrlParts)
    requires v.path == "" && v.params == [] && v.fragment == ""
    requires '?' !in u.path && AllClean(u.params)
    ensures PathPart(v, AfterHost(u)) == v.(path := u.path, params := u.params, fragment :=
      if StartsWithHash(u.params) then Print(u.params)[1..] else "")
  {
    hide Print, ParametersOf, AllClean;
    assert "" + u.path == u.path;
    if u.params == [] {
      assert AfterHost(u) == u.path;
      FindUnique(u.path, {'?'}, |u.path|);
      assert u.path[..|u.path|] == u.path;
    } else {
      var query := Print(u.params);
      Associative(u.path, "?", query);
      Cut(u.path, '?', query, {'?'});
      ParsePrint(u.params);
      PrintStart(u.params);
      assert PathPart(v, AfterHost(u)) == QueryPart(v.(path := u.path), query);
    }
  }

  lemma PrintStart(ps: seq<Parameter>)
    requires ps != []
    ensures Print(ps) != "" && (Print(ps)[0] == if ps[0].name == "" then '=' else ps[0].name[0])
    ensures ps[0].name != "" ==> |Print(ps)| > 1
  {
    var pair := Pair(ps[0]);
    assert pair[0] == if ps[0].name == "" then '=' else ps[0].name[0];
    assert pair <= Print(ps);
  }

  lemma UserCut(u: UrlParts, rest: string)
    requires u.user != ""
    ensures UserText(u) + rest ==
      if u.password == "" then u.user + "@" + rest else u.user + ":" + (u.password + "@" + rest)
  {
  }

  lemma UserOfComposed(v: UrlParts, u: UrlParts, rest: string)
    requires v.user == "" && v.password == "" && u.user != ""
    requires ':' !in u.user && '@' !in u.user && '@' !in u.password
    ensures UserPart(v, UserText(u) + rest) == HostPart(v.(user := u.user, password := u.password), rest)
  {
    hide HostPart, UserText, Find;
    assert "" + u.user == u.user && "" + u.password == u.password;
    UserCut(u, rest);
    if u.password == "" {
      Cut(u.user, '@', rest, {':', '@'});
    } else {
      Cut(u.user, ':', u.password + "@" + rest, {':', '@'});
      Cut(u.password, '@', rest, {'@'});
    }
  }

  /** The port a URL of this scheme gets, in network byte order. */
  function DefaultPort(scheme: string): Uint16 {
    WithScheme(NO_PARTS, scheme).port
  }

  /** The ports as they stand in memory, which is how they go on the wire; any other scheme leaves the port alone. */
  lemma PortsOfSchemes(u: UrlParts, scheme: string)
    ensures var port := Memory16(WithScheme(u, scheme).port);
      match scheme
      case "http" => port == [0, 80]
      case "https" => port == [1, 187]
      case "ftp" => port == [0, 20]
      case "ssh" => port == [0, 22]
      case "smtp" => port == [0, 25]
      case "imap" => port == [0, 143]
      case "pop" => port == [3, 227]
      case _ => WithScheme(u, scheme) == u.(scheme := scheme)
  {
  }

  lemma PortBytes(port: Uint16)
    ensures Swap16(port) == 443 <==> Memory16(port) == [1, 187]
  {
  }

  /** A parsed URL has the port of its scheme: setting that scheme changes no part. */
  lemma ParsedPort(s: string)
    ensures var u := ParsedUrl(s);
      WithScheme(u, u.scheme) == u
      && (u.scheme == "http" ==> Memory16(u.port) == [0, 80])
      && (u.scheme == "https" ==> Memory16(u.port) == [1, 187])
  {
    PortsOfSchemes(RawUrl(s), RawUrl(s).scheme);
    hide RawUrl;
  }

  /** The parts that survive. The last line is the parser's own test on the composed text. */
  predicate Recoverable(u: UrlParts) {
    && u.path != "" && Shaped(u)
    && !StartsWithHash(u.params)
    && (u.user == "" ==> u.password == "")
    && (UserInfo(ComposedUrl(u)) <==> u.user != "")
  }

  lemma RecoverableIsParsed(u: UrlParts)
    requires ValidScheme(u.scheme) && ValidHost(u.host) && u.fragment == "" && u.port == DefaultPort(u.scheme)
    requires Recoverable(u)
    ensures ParsedUrl(ComposedUrl(u)) == u
  {
    PathIsParsed(u);
  }

  /** An empty path is read as "/", any other as it is. */
  lemma PathIsParsed(u: UrlParts)
    requires ValidScheme(u.scheme) && ValidHost(u.host) && u.fragment == "" && u.port == DefaultPort(u.scheme)
    requires Shaped(u) && !StartsWithHash(u.params) && (u.user == "" ==> u.password == "")
    requires UserInfo(ComposedUrl(u)) <==> u.user != ""
    ensures ParsedUrl(ComposedUrl(u)) == if u.path == "" then u.(path := "/") else u
  {
    var v := NO_PARTS.(scheme := u.scheme);
    var w := v.(user := u.user, password := u.password);
    SchemeOfComposed(u);
    if u.user == "" {
      assert w == v && UserText(u) + AfterUser(u) == AfterUser(u);
    } else {
      UserOfComposed(v, u, AfterUser(u));
    }
    HostOfComposed(w, u);
    PathOfComposed(w.(host := u.host), u);
  }

  /** A user name is read exactly when the parser's test succeeds. */
  lemma UserReadIff(u: UrlParts)
    requires ValidScheme(u.scheme) && u.host != "" && HostChar(u.host[0])
    ensures ParsedUrl(ComposedUrl(u)).user != "" ==> UserInfo(ComposedUrl(u))
    ensures ParsedUrl(ComposedUrl(u)).password != "" ==> UserInfo(ComposedUrl(u))
    ensures UserInfo(ComposedUrl(u)) && u.user == "" ==> ParsedUrl(ComposedUrl(u)).user != ""
  {
    SchemeOfComposed(u);
    UserNotEmpty(NO_PARTS.(scheme := u.scheme), u);
  }

  lemma UserNotEmpty(v: UrlParts, u: UrlParts)
    requires u.host != "" && HostChar(u.host[0]) && v.user == "" && v.password == ""
    ensures (var r := HostPart(v, UserText(u) + AfterUser(u)); r.user == "" && r.password == "")
    ensures u.user == "" ==> UserPart(v, UserText(u) + AfterUser(u)).user != ""
  {
    var text := UserText(u) + AfterUser(u);
    if u.user == "" {
      assert text[0] == u.host[0] && HostChar(u.host[0]);
      assert UserPart(v, text).user == "" + text[..Find(text, {':', '@'})];
    }
  }

  /** Only a query that starts with '#' yields a fragment. */
  lemma FragmentRead(u: UrlParts)
    requires ValidScheme(u.scheme) && ValidHost(u.host) && Shaped(u)
    requires UserInfo(ComposedUrl(u)) <==> u.user != ""
    ensures Print(u.params) != "" || u.params == []
    ensures ParsedUrl(ComposedUrl(u)).fragment == if StartsWithHash(u.params) then Print(u.params)[1..] else ""
  {
    var v := NO_PARTS.(scheme := u.scheme);
    var w := if u.user == "" then v else v.(user := u.user, password := u.password);
    SchemeOfComposed(u);
    if u.user == "" {
      assert UserText(u) + AfterUser(u) == AfterUser(u);
    } else {
      UserOfComposed(v, u, AfterUser(u));
    }
    HostOfComposed(w, u);
    PathOfComposed(w.(host := u.host), u);
    if u.params != [] {
      PrintStart(u.params);
    }
  }

  lemma ParsedIsRecoverable(u: UrlParts)
    requires ValidScheme(u.scheme) && ValidHost(u.host) && u.fragment == ""
    ensures ParsedUrl(ComposedUrl(u)) == u ==> Recoverable(u)
  {
    hide ParsedUrl, Shaped, UserInfo, ComposedUrl;
    if ParsedUrl(ComposedUrl(u)) == u {
      ParsedShape(ComposedUrl(u));
      UserReadIff(u);
      FragmentRead(u);
      if StartsWithHash(u.params) {
        PrintStart(u.params);
      }
    }
  }

  /** Composing and parsing give back every part exactly for the recoverable URLs. */
  lemma ParseComposeIff(u: UrlParts)
    requires ValidScheme(u.scheme) && ValidHost(u.host) && u.fragment == "" && u.port == DefaultPort(u.scheme)
    ensures ParsedUrl(ComposedUrl(u)) == u <==> Recoverable(u)
  {
    hide ParsedUrl, ComposedUrl, Recoverable;
    ParsedIsRecoverable(u);
    if Recoverable(u) {
      RecoverableIsParsed(u);
    }
  }

  lemma PatternMatches(scheme: string, middle: string, rest: string, b: nat, c: nat)
    requires 0 < b < c && c + 1 < |middle| && middle[b] == ':' && middle[c] == '@' && OneLine(middle)
    ensures UserInfo(scheme + "://" + middle + "/" + rest)
  {
    var s, a := scheme + "://" + middle + "/" + rest, |scheme|;
    assert forall i :: 0 <= i < |middle| ==> s[a + 3 + i] == middle[i];
    assert forall i :: a + 3 <= i < a + 3 + |middle| ==> s[i] == middle[i - a - 3];
    assert UserInfoAt(s, a, a + 3 + b, a + 3 + c, a + 3 + |middle|);
  }

  /** The pattern, on text whose parts hold none of its characters: the user and the host must not be empty, the
      password may be, and all of them stand on one line. */
  lemma UserInfoIff(scheme: string, user: string, password: string, host: string)
    requires PlainPart(scheme) && PlainPart(user) && PlainPart(password) && PlainPart(host)
    ensures UserInfo(scheme + "://" + user + ":" + password + "@" + host + "/") <==>
      user != "" && host != "" && forall c :: c in user + password + host ==> c != '\n' && c != '\r'
  {
    var middle := user + ":" + password + "@" + host;
    var s, n := scheme + "://" + middle + "/", |scheme| + 3;
    assert s == scheme + "://" + user + ":" + password + "@" + host + "/";
    if user != "" && host != "" && forall c :: c in user + password + host ==> c != '\n' && c != '\r' {
      assert forall i :: 0 <= i < |middle| ==> middle[i] in ":@" || middle[i] in user + password + host;
      PatternMatches(scheme, middle, "", |user|, |user| + 1 + |password|);
      assert s + "" == s;
    }
    if a, b, c, d :| 0 <= a && a + 4 <= b < c && c + 2 <= d < |s| && UserInfoAt(s, a, b, c, d) {
      SpecialPlaces(scheme, user, password, host);
      OccursChar(s, "://", a, 0);
      OccursChar(s, "://", a, 1);
      assert a == |scheme| && b == n + |user| && c == b + 1 + |password| && d == |s| - 1;
      forall x | x in user + password + host ensures x != '\n' && x != '\r' {
        var i := PlaceOf(scheme, user, password, host, x);
      }
    }
  }

  lemma PlaceOf(scheme: string, user: string, password: string, host: string, x: char) returns (i: nat)
    requires x in user + password + host
    ensures var s := scheme + "://" + (user + ":" + password + "@" + host) + "/";
      |scheme| + 3 <= i < |s| - 1 && s[i] == x
  {
    var n := |scheme| + 3;
    if k :| 0 <= k < |user| && user[k] == x {
      i := n + k;
    } else if k :| 0 <= k < |password| && password[k] == x {
      i := n + |user| + 1 + k;
    } else {
      var k :| 0 <= k < |host| && host[k] == x;
      i := n + |user| + 1 + |password| + 1 + k;
    }
  }

  /** Where the characters of the pattern stand. */
  lemma SpecialPlaces(scheme: string, user: string, password: string, host: string)
    requires PlainPart(scheme) && PlainPart(user) && PlainPart(password) && PlainPart(host)
    ensures var s, n := scheme + "://" + (user + ":" + password + "@" + host) + "/", |scheme| + 3;
      forall i :: 0 <= i < |s| ==>
        (s[i] == ':' <==> i == |scheme| || i == n + |user|) && (s[i] == '@' <==> i == n + |user| + 1 + |password|)
        && (s[i] == '/' <==> i == n - 2 || i == n - 1 || i == |s| - 1)
  {
    var s, n := scheme + "://" + (user + ":" + password + "@" + host) + "/", |scheme| + 3;
    var m := n + |user| + 1;
    forall i | 0 <= i < |s|
      ensures (s[i] == ':' <==> i == |scheme| || i == n + |user|) && (s[i] == '@' <==> i == m + |password|)
        && (s[i] == '/' <==> i == n - 2 || i == n - 1 || i == |s| - 1)
    {
      assert s[i] == if i < n - 3 then scheme[i] else if i < n then "://"[i - n + 3]
        else if i < n + |user| then user[i - n] else if i < m then ':'
        else if i < m + |password| then password[i - m] else if i == m + |password| then '@'
        else if i < |s| - 1 then host[i - m - |password| - 1] else '/';
    }
  }

  predicate PlainPart(s: string) {
    forall i :: 0 <= i < |s| ==> s[i] != ':' && s[i] != '@' && s[i] != '/'
  }

  lemma UserInfoLine(user: string, password: string, host: string)
    requires OneLine(user) && OneLine(password) && ValidHost(host)
    ensures OneLine(user + ":" + password + "@" + host)
  {
    assert forall i :: 0 <= i < |host| ==> HostChar(host[i]);
  }

  /** Text without '@' has no user name; a user name and a password on one line are found. */
  lemma UserInfoOfComposed(u: UrlParts)
    requires ValidScheme(u.scheme) && ValidHost(u.host)
    ensures u.user == "" && '@' !in AfterHost(u) ==> !UserInfo(ComposedUrl(u))
    ensures u.user != "" && u.password != "" && OneLine(u.user) && OneLine(u.password) ==> UserInfo(ComposedUrl(u))
  {
    if u.user == "" && '@' !in AfterHost(u) {
      NoAt(u);
    }
    if u.user != "" && u.password != "" && OneLine(u.user) && OneLine(u.password) {
      var middle := u.user + ":" + u.password + "@" + u.host;
      UserInfoLine(u.user, u.password, u.host);
      PatternMatches(u.scheme, middle, AfterHost(u), |u.user|, |u.user| + 1 + |u.password|);
      WithUserInfo(u);
    }
  }

  /** A user without a password is lost when nothing behind the host holds a ':': the pattern wants one. */
  lemma UserWithoutPasswordIsLost(u: UrlParts)
    requires ValidScheme(u.scheme) && ValidHost(u.host)
    requires u.user != "" && u.password == "" && ':' !in u.user && ':' !in AfterHost(u)
    ensures !UserInfo(ComposedUrl(u)) && ParsedUrl(ComposedUrl(u)).user == ""
    ensures ParsedUrl(ComposedUrl(u)) != u
  {
    NoColon(u);
    UserReadIff(u);
  }

  lemma NoColon(u: UrlParts)
    requires ValidScheme(u.scheme) && ValidHost(u.host)
    requires u.user != "" && u.password == "" && ':' !in u.user && ':' !in AfterHost(u)
    ensures !UserInfo(ComposedUrl(u))
  {
    ComposedCut(u);
    NoColonInParts(u);
    assert UserText(u) == u.user + "" + "@";
    hide ComposedUrl, ValidScheme, ValidHost, AfterHost, UserText;
    NotInConcat(u.user + "", "@", ':');
    NotInConcat(u.host, "/", ':');
    NotInConcat(u.host + "/", AfterHost(u), ':');
    assert AfterUser(u) == u.host + "/" + AfterHost(u);
    hide AfterUser;
    NotInConcat(UserText(u), AfterUser(u), ':');
    NotInConcat("//", UserText(u) + AfterUser(u), ':');
    OneColon(u.scheme, "//" + (UserText(u) + AfterUser(u)));
  }

  lemma NoColonInParts(u: UrlParts)
    requires ValidScheme(u.scheme) && ValidHost(u.host)
    ensures ':' !in u.scheme && ':' !in u.host
  {
    assert forall i :: 0 <= i < |u.scheme| ==> SchemeChar(u.scheme[i]);
    assert forall i :: 0 <= i < |u.host| ==> HostChar(u.host[i]);
  }

  lemma OneColon(a: string, b: string)
    requires ':' !in a && ':' !in b
    ensures !UserInfo(a + ":" + b)
  {
    var s := a + ":" + b;
    forall i | 0 <= i < |s| ensures s[i] == ':' <==> i == |a| {
      assert s[i] == if i < |a| then a[i] else if i == |a| then ':' else b[i - |a| - 1];
    }
    if UserInfo(s) {
      var i, j, k, l :| 0 <= i && i + 4 <= j < k && k + 2 <= l < |s| && UserInfoAt(s, i, j, k, l);
      OccursChar(s, "://", i, 0);
    }
  }

  lemma WithUserInfo(u: UrlParts)
    requires u.user != "" && u.password != ""
    ensures ComposedUrl(u) ==
      u.scheme + "://" + (u.user + ":" + u.password + "@" + u.host) + "/" + AfterHost(u)
  {
  }

  predicate OneLine(s: string) {
    forall i :: 0 <= i < |s| ==> !LineTerminator(s[i])
  }

  lemma NoAt(u: UrlParts)
    requires ValidScheme(u.scheme) && ValidHost(u.host) && u.user == "" && '@' !in AfterHost(u)
    ensures '@' !in ComposedUrl(u)
  {
    var s := ComposedUrl(u);
    assert s == u.scheme + "://" + u.host + "/" + AfterHost(u);
    assert forall i :: 0 <= i < |u.scheme| ==> SchemeChar(u.scheme[i]);
    assert forall i :: 0 <= i < |u.host| ==> HostChar(u.host[i]);
  }

  /** The usual cases: with both a user name and a password, or with neither and no '@' anywhere. */
  lemma ParseCompose(u: UrlParts)
    requires ValidScheme(u.scheme) && ValidHost(u.host) && u.fragment == "" && u.port == DefaultPort(u.scheme)
    requires u.path != "" && Shaped(u)
    requires !StartsWithHash(u.params)
    requires (u.user != "" && u.password != "" && OneLine(u.user) && OneLine(u.password))
          || (u.user == "" && u.password == "" && '@' !in AfterHost(u))
    ensures ParsedUrl(ComposedUrl(u)) == u
  {
    UserInfoOfComposed(u);
    RecoverableIsParsed(u);
  }

  /** A printed URL whose last part, path or parameter, has swallowed the fragment. */
  function Swallowed(u: UrlParts): UrlParts {
    var tail := "#" + u.fragment;
    if u.params == [] then u.(path := u.path + tail, fragment := "")
    else
      var n := |u.params| - 1;
      u.(params := u.params[..n] + [u.params[n].(value := u.params[n].value + tail)], fragment := "")
  }

  lemma {:induction false} PrintLonger(ps: seq<Parameter>, p: Parameter, tail: string)
    ensures Print(ps + [p.(value := p.value + tail)]) == Print(ps + [p]) + tail
  {
    var q := p.(value := p.value + tail);
    assert Pair(q) == Pair(p) + tail;
    if ps != [] {
      PrintAppend(ps, p);
      PrintAppend(ps, q);
      assert Print(ps) + "&" + (Pair(p) + tail) == Print(ps) + "&" + Pair(p) + tail;
    }
  }

  lemma SwallowedText(u: UrlParts)
    requires u.scheme != "" && u.host != "" && u.fragment != ""
    ensures FullText(u, [], false) == ComposedUrl(Swallowed(u))
  {
    var v, tail := Swallowed(u), "#" + u.fragment;
    FullTextIsComposedUrl(u, []);
    if u.params == [] {
      TailMoves(Head(u), u.path, tail);
    } else {
      var n := |u.params| - 1;
      assert u.params[..n] + [u.params[n]] == u.params;
      PrintLonger(u.params[..n], u.params[n], tail);
      QueryTail(u, v, tail);
      TailMoves(Head(u) + u.path, QueryText(u), tail);
    }
  }

  lemma TailMoves(a: string, b: string, tail: string)
    ensures a + (b + tail) + "" == a + b + "" + tail == a + b + tail
  {
  }

  lemma QueryTail(u: UrlParts, v: UrlParts, tail: string)
    requires u.params != [] && v.params != [] && Print(v.params) == Print(u.params) + tail
    ensures QueryText(v) == QueryText(u) + tail
  {
  }

  /** No URL with a fragment survives: the query, or else the path, swallows it. */
  lemma FragmentIsLost(u: UrlParts)
    requires ValidScheme(u.scheme) && ValidHost(u.host)
    requires u.fragment != "" && Percent.NoneReservedIn(u.fragment)
    ensures ParsedUrl(FullText(u, [], false)) != u
  {
    hide ParsedUrl, ComposedUrl, FullText, UserInfo;
    var v := Swallowed(u);
    SwallowedText(u);
    if ParsedUrl(ComposedUrl(v)) == u {
      ParsedShape(ComposedUrl(v));
      assert forall c :: c in u.fragment ==> !Percent.Reserved(c);
      assert Shaped(v);
      UserReadIff(v);
      FragmentRead(v);
      if StartsWithHash(v.params) {
        PrintHasEquals(v.params);
      }
    }
  }

  lemma PrintHasEquals(ps: seq<Parameter>)
    requires ps != [] && ps[0].name != ""
    ensures Print(ps) != "" && '=' in Print(ps)[1..]
  {
    var k := |ps[0].name|;
    assert Pair(ps[0])[k] == '=' && Pair(ps[0]) <= Print(ps);
    assert Print(ps)[1..][k - 1] == '=';
  }
}
