/** The port of a URL in url.cpp: the codes of its characters are added up, and a known scheme overrides it. */
module UrlPorts {
  import opened Text
  import opened Bytes
  import opened Numbers
  import opened Query
  import opened Urls

  /** The sum of the codes. */
  function Codes(digits: string): nat {
    if digits == "" then 0 else digits[0] as int + Codes(digits[1..])
  }

  lemma {:induction false} PortIsSumOfCodes(port: Uint16, digits: string)
    ensures PortSum(port, digits) == (port + Codes(digits)) % 0x1_0000
    decreases |digits|
  {
    if digits != "" {
      var next := AddToPort(port, digits[0]);
      PortIsSumOfCodes(next, digits[1..]);
      SumWraps(port + digits[0] as int, Codes(digits[1..]));
    }
  }

  lemma SumWraps(a: nat, b: nat)
    ensures (a % 0x1_0000 + b) % 0x1_0000 == (a + b) % 0x1_0000
  {
  }

  /** Value and codes of the last digits of a numeral. */
  lemma DigitMore(s: string)
    requires s != "" && IsNumeral(s, 10)
    ensures '0' <= s[|s| - 1] <= '9'
    ensures Value(s, 10) == 10 * Value(s[..|s| - 1], 10) + (s[|s| - 1] as int - 48)
    ensures Codes(s) == Codes(s[..|s| - 1]) + s[|s| - 1] as int
    ensures |s| > 1 ==> IsNumeral(s[..|s| - 1], 10)
  {
    assert DigitValue(s[|s| - 1]) < 10;
    CodesAppend(s[..|s| - 1], s[|s| - 1]);
    assert s == s[..|s| - 1] + [s[|s| - 1]];
  }

  lemma {:induction false} CodesAppend(s: string, c: char)
    ensures Codes(s + [c]) == Codes(s) + c as int
  {
    if s != "" {
      CodesAppend(s[1..], c);
      assert (s + [c])[1..] == s[1..] + [c];
    } else {
      assert (s + [c])[1..] == "";
    }
  }

  lemma {:induction false} CodesAndValue(s: string)
    requires IsNumeral(s, 10)
    ensures 48 * |s| <= Codes(s) <= 57 * |s|
    ensures (Value(s, 10) + 48 * |s| - Codes(s)) % 9 == 0
  {
    DigitMore(s);
    var init := s[..|s| - 1];
    if |s| > 1 {
      CodesAndValue(init);
    } else {
      assert init == "" && Value("", 10) == 0 && Codes("") == 0;
    }
    hide Value, Codes, IsNumeral;
    NineStep(Value(init, 10), Codes(init), |init|);
  }

  lemma NineStep(v: nat, codes: nat, n: nat)
    requires (v + 48 * n - codes) % 9 == 0
    ensures (10 * v - 48 + 48 * (n + 1) - codes) % 9 == 0
  {
    assert 10 * v - 48 + 48 * (n + 1) - codes == v + 48 * n - codes + 9 * v;
  }

  /** So a port number is read as itself exactly from 150 to 159. */
  lemma PortIsReadIff(port: Uint16)
    ensures PortSum(0, Decimal(port)) == port <==> 150 <= port <= 159
  {
    var s := Decimal(port);
    DecimalValue(port);
    PortIsSumOfCodes(0, s);
    DecimalLength(port);
    CodesAndValue(s);
    if |s| == 3 {
      ThreeDigitCodes(port);
    }
    hide PortSum, Codes, Decimal, Value;
    OnlyThreeDigits(|s|, port, Codes(s));
    if |s| == 3 {
      FifteenAndMore(port);
    }
  }

  lemma FifteenAndMore(n: nat)
    requires 100 <= n < 1000
    ensures 144 + n / 100 + n / 10 % 10 + n % 10 == n <==> 150 <= n <= 159
  {
    var a, b, c := n / 100, n / 10 % 10, n % 10;
    assert n == 100 * a + 10 * b + c;
  }

  lemma OnlyThreeDigits(n: nat, v: nat, codes: nat)
    requires 1 <= n <= 5 && codes <= 57 * n && (v + 48 * n - codes) % 9 == 0
    ensures codes % 0x1_0000 == codes && (v == codes ==> n == 3)
  {
    assert v == codes ==> 48 * n % 9 == 0;
  }

  lemma DecimalLength(n: nat)
    requires n < 0x1_0000
    ensures 1 <= |Decimal(n)| <= 5
    ensures |Decimal(n)| == 1 <==> n < 10
    ensures |Decimal(n)| <= 2 <==> n < 100
    ensures |Decimal(n)| <= 3 <==> n < 1000
    ensures |Decimal(n)| <= 4 <==> n < 10000
  {
    DecimalShorter(n);
    DecimalShorter(n / 10);
    DecimalShorter(n / 100);
    DecimalShorter(n / 1000);
    DecimalShorter(n / 10000);
    hide Decimal;
    assert n / 10 / 10 == n / 100 && n / 100 / 10 == n / 1000 && n / 1000 / 10 == n / 10000;
  }

  lemma DecimalShorter(n: nat)
    ensures |Decimal(n)| == if n < 10 then 1 else |Decimal(n / 10)| + 1
  {
  }

  lemma ThreeDigitCodes(n: nat)
    requires 100 <= n < 1000
    ensures Codes(Decimal(n)) == 144 + n / 100 + n / 10 % 10 + n % 10
  {
    CodesOfDecimal(n);
    CodesOfDecimal(n / 10);
    CodesOfDecimal(n / 100);
    hide Codes, Decimal;
    assert n / 10 / 10 == n / 100;
  }

  lemma CodesOfDecimal(n: nat)
    ensures Codes(Decimal(n)) == (if n < 10 then 0 else Codes(Decimal(n / 10))) + 48 + n % 10
  {
    var last := ('0' as int + n % 10) as char;
    if n < 10 {
      assert Decimal(n) == [last] && [last][1..] == "";
    } else {
      CodesAppend(Decimal(n / 10), last);
    }
  }

  /** A URL printed with its port has it in the place of the end of the host. */
  function Ported(u: UrlParts): UrlParts {
    u.(host := u.host + ":" + Decimal(u.port))
  }

  lemma FullTextIsPorted(u: UrlParts)
    requires u.scheme != "" && u.host != "" && u.port != 0 && u.fragment == ""
    ensures FullText(u, [], true) == ComposedUrl(Ported(u))
  {
    var user, port := UserText(u), ":" + Decimal(u.port);
    hide UserText, QueryText, Decimal;
    assert AuthorityText(u, [], true) == "//" + user + u.host + port + "/";
    assert u.host + ":" + Decimal(u.port) == u.host + port;
    PortMoves(u.scheme, user, u.host, port);
    assert FullText(u, [], true) == Head(Ported(u)) + u.path + QueryText(u) + "";
  }

  lemma PortMoves(scheme: string, user: string, host: string, port: string)
    ensures scheme + ":" + ("//" + user + host + port + "/") == scheme + "://" + user + (host + port) + "/"
  {
    assert scheme + ":" + "//" == scheme + "://";
  }

  lemma HostOfPorted(v: UrlParts, u: UrlParts)
    requires ValidHost(u.host) && v.host == "" && v.port == 0
    ensures HostPart(v, AfterUser(Ported(u))) ==
      PathPart(v.(host := u.host, port := PortSum(0, Decimal(u.port))), AfterHost(u))
  {
    var digits, rest := Decimal(u.port), AfterHost(u);
    assert forall i :: 0 <= i < |u.host| ==> HostChar(u.host[i]);
    forall i | 0 <= i < |digits| ensures digits[i] != '/' {
      assert DigitValue(digits[i]) < 10;
    }
    PortedTail(u);
    hide Decimal, PathPart, AfterHost, AfterUser, PortSum, Find, HostChar;
    Cut(u.host, ':', digits + "/" + rest, {':', '/'});
    Cut(digits, '/', rest, {'/'});
    assert "" + u.host == u.host;
  }

  lemma PortedTail(u: UrlParts)
    ensures AfterUser(Ported(u)) == u.host + ":" + (Decimal(u.port) + "/" + AfterHost(u))
  {
    var digits, rest := Decimal(u.port), AfterHost(u);
    assert AfterHost(Ported(u)) == rest;
    hide Decimal, AfterHost;
  }

  /** The port that a printed one is read as. */
  function ReadPort(u: UrlParts): Uint16 {
    WithScheme(u.(port := PortSum(0, Decimal(u.port))), u.scheme).port
  }

  /** What is read of a URL printed with its port. */
  lemma PortedIsRead(u: UrlParts)
    requires ValidScheme(u.scheme) && ValidHost(u.host) && u.fragment == "" && u.port != 0 && Shaped(u) && u.path != ""
    requires u.user == "" ==> u.password == ""
    requires UserInfo(ComposedUrl(Ported(u))) <==> u.user != ""
    ensures ParsedUrl(ComposedUrl(Ported(u))) ==
      u.(port := ReadPort(u), fragment := if StartsWithHash(u.params) then Print(u.params)[1..] else "")
  {
    var p, v := Ported(u), NO_PARTS.(scheme := u.scheme);
    var w := if u.user == "" then v else v.(user := u.user, password := u.password);
    SchemeOfComposed(p);
    if u.user == "" {
      assert UserText(p) + AfterUser(p) == AfterUser(p);
    } else {
      UserOfComposed(v, p, AfterUser(p));
    }
    HostOfPorted(w, u);
    PathOfComposed(w.(host := u.host, port := PortSum(0, Decimal(u.port))), u);
    hide ComposedUrl, UserInfo, PortSum, Decimal, Print, PathPart, HostPart, UserPart, SchemePort;
  }

  /** The parts that survive with the port in the text: as without it, and the port is that of the scheme, or with
      an unknown scheme the sum of its own codes. */
  predicate RecoverableWithPort(u: UrlParts) {
    && u.path != "" && Shaped(u) && !StartsWithHash(u.params)
    && (u.user == "" ==> u.password == "")
    && (UserInfo(FullText(u, [], true)) <==> u.user != "")
    && u.port == ReadPort(u)
  }

  /** Composing with the port and parsing give back every part exactly for these. */
  lemma ParseComposeWithPortIff(u: UrlParts)
    requires ValidScheme(u.scheme) && ValidHost(u.host) && u.fragment == "" && u.port != 0
    ensures ParsedUrl(FullText(u, [], true)) == u <==> RecoverableWithPort(u)
  {
    var p := Ported(u);
    FullTextIsPorted(u);
    HostBegins(u);
    UserReadIff(p);
    ParsedShape(ComposedUrl(p));
    hide ParsedUrl, FullText, UserInfo, ComposedUrl, Shaped, ReadPort;
    if u.path != "" && Shaped(u) && (u.user == "" ==> u.password == "")
      && (UserInfo(ComposedUrl(p)) <==> u.user != "")
    {
      PortedIsRead(u);
      if StartsWithHash(u.params) {
        PrintStart(u.params);
      }
    }
  }

  lemma HostBegins(u: UrlParts)
    requires ValidHost(u.host)
    ensures var h := Ported(u).host; h != "" && h[0] == u.host[0] && HostChar(h[0])
  {
  }

  /** So with an unknown scheme the port is lost, except for ten of them. */
  lemma PortIsLostIff(u: UrlParts)
    requires SchemePort(u.scheme) == 0
    ensures ReadPort(u) == u.port <==> 150 <= u.port <= 159
  {
    PortIsReadIff(u.port);
  }
}
