/** One input for each expectation that the code does not meet; the conditions under which it does are stated beside
    the code's models. */
module Counterexamples {
  import opened Text
  import opened Bytes
  import Numbers
  import Ipv4Address
  import Percent = PercentEncoding
  import Headers
  import Urls
  import UrlPorts
  import RequestComposer
  import Chunked = ChunkedCoding
  import Files = OutputFiles
  import Requests = RequestBases
  import Names = DnsNames
  import Queries = DnsQuery
  import Replies = DnsReply
  import Scheduler

  // Percent-encoding.

  lemma DecodeUrlLosesText()
    ensures Percent.Encode("a") == "a" && Percent.Percents("a") == ""
  {
    assert "a"[1..] == "";
  }

  lemma SecondEncodingChanges()
    ensures Percent.Encode(" ") == "%20" && Percent.Encode("%20") == "%2520"
  {
    assert " "[1..] == "" && "%20"[1..] == "20" && "20"[1..] == "0" && "0"[1..] == "";
    assert Percent.Code(' ') == "%20" && Percent.Code('%') == "%25";
    assert Percent.Code('2') == "2" && Percent.Code('0') == "0";
    assert Percent.Encode("0") == "0" && Percent.Encode("20") == "20";
  }

  // Byte order.

  lemma NetworkOrderOfOne()
    ensures Swap32(NetworkOrder32(1)) == 0
  {
    assert Memory32(1) == [1, 0, 0, 0];
  }

  // IPv4.

  lemma FourParts(a: string)
    requires Numbers.IsNumeral(a, 10) && |a| <= 3
    ensures Ipv4Address.Accepted(a + ".0.0.0") && Split(a + ".0.0.0", '.')[0] == a
  {
    SplitInFour(a);
    hide Split;
    assert Numbers.IsNumeral("0", 10);
  }

  lemma SplitInFour(a: string)
    requires Numbers.IsNumeral(a, 10)
    ensures Split(a + ".0.0.0", '.') == [a, "0", "0", "0"]
  {
    forall i | 0 <= i < |a| ensures a[i] != '.' {
      assert Numbers.DigitValue(a[i]) < 10;
    }
    SplitPiece("0", '.');
    SplitFirst("0", "0", '.');
    SplitFirst("0", "0.0", '.');
    SplitFirst(a, "0.0.0", '.');
    hide Split;
    assert "0" + ['.'] + "0" == "0.0" && "0" + ['.'] + "0.0" == "0.0.0" && a + ['.'] + "0.0.0" == a + ".0.0.0";
  }

  lemma LeadingZeroIsLost()
    ensures Ipv4Address.Accepted("00.0.0.0")
    ensures Ipv4Address.Print(Ipv4Address.Parsed("00.0.0.0").value) != "00.0.0.0"
  {
    FourParts("00");
    assert "00" + ".0.0.0" == "00.0.0.0";
    Ipv4Address.PrintParseIff("00.0.0.0");
  }

  lemma OctetWrapsAround()
    ensures Ipv4Address.Accepted("256.0.0.0")
    ensures Ipv4Address.Print(Ipv4Address.Parsed("256.0.0.0").value) != "256.0.0.0"
  {
    FourParts("256");
    assert "256" + ".0.0.0" == "256.0.0.0";
    assert "256"[..2] == "25" && "25"[..1] == "2" && "2"[..0] == "";
    assert Numbers.Value("2", 10) == 2 && Numbers.Value("25", 10) == 25 && Numbers.Value("256", 10) == 256;
    Ipv4Address.PrintParseIff("256.0.0.0");
  }

  // URLs.

  function Http(user: string, path: string, fragment: string): Urls.UrlParts {
    Urls.UrlParts("http", user, "", "h", Urls.DefaultPort("http"), path, [], fragment)
  }

  lemma HttpIsShaped(user: string, path: string, fragment: string)
    requires '?' !in path && ':' !in user && '@' !in user
    ensures var u := Http(user, path, fragment);
      Urls.ValidScheme(u.scheme) && Urls.ValidHost(u.host) && Urls.Shaped(u) && !Urls.StartsWithHash(u.params)
    ensures Urls.AfterHost(Http(user, path, fragment)) == path
  {
    assert path + "" == path;
  }

  lemma FragmentBecomesPath()
    ensures Urls.ParsedUrl(Urls.FullText(Http("", "p", "f"), [], false)) == Http("", "p#f", "")
  {
    hide Urls.ParsedUrl, Urls.FullText, Urls.ComposedUrl, Urls.ValidScheme, Urls.ValidHost, Urls.Shaped;
    HttpIsShaped("", "p", "f");
    HttpIsShaped("", "p#f", "");
    Urls.SwallowedText(Http("", "p", "f"));
    assert "p" + ("#" + "f") == "p#f";
    Urls.ParseCompose(Http("", "p#f", ""));
  }

  lemma LoneUserIsLost()
    ensures Urls.ParsedUrl(Urls.ComposedUrl(Http("u", "p", ""))) != Http("u", "p", "")
  {
    hide Urls.ParsedUrl, Urls.ComposedUrl, Urls.ValidScheme, Urls.ValidHost;
    HttpIsShaped("u", "p", "");
    Urls.UserWithoutPasswordIsLost(Http("u", "p", ""));
  }

  /** The codes of '8' and '0' add up to 104. */
  lemma PortIsASumOfCodes()
    ensures Urls.ParsedUrl("x://h:80/p").port == 104
  {
    var u := Urls.UrlParts("x", "", "", "h", 80, "p", [], "");
    var s := "x://h:80/p";
    PortText();
    PortedText(u);
    assert '@' !in s && !Urls.UserInfo(s);
    hide Urls.UserInfo, Urls.ComposedUrl, Urls.ParsedUrl, Urls.PortSum, Numbers.Decimal;
    UrlPorts.PortedIsRead(u);
  }

  lemma PortedText(u: Urls.UrlParts)
    requires u == Urls.UrlParts("x", "", "", "h", 80, "p", [], "")
    ensures Urls.ComposedUrl(UrlPorts.Ported(u)) == "x://h:80/p"
  {
    PortText();
    assert UrlPorts.Ported(u).host == "h:80" by {
      hide Numbers.Decimal;
    }
    hide Numbers.Decimal, Urls.PortSum;
    assert "x" + "://" == "x://" && "x://" + "" == "x://" && "x://" + "h:80" == "x://h:80";
    assert "x://h:80" + "/" == "x://h:80/" && "x://h:80/" + "p" == "x://h:80/p" && "x://h:80/p" + "" == "x://h:80/p";
  }

  lemma PortText()
    ensures Numbers.Decimal(80) == "80" && Urls.PortSum(0, "80") == 104
    ensures "h" + ":" + "80" == "h:80"
  {
    assert "80"[1..] == "0" && "0"[1..] == "";
    assert Urls.PortSum(48 + 8, "0") == Urls.PortSum(104, "") == 104;
  }

  /** composeUrl looks up the 'h' of "http" for the '!' at the beginning of the fragment, and throws. */
  lemma FragmentMakesComposeThrow()
    ensures Urls.AfterPasses(Urls.FullText(Http("", "p", "!"), [], false), "!", 1) == Urls.Threw
  {
    var uri := Urls.FullText(Http("", "p", "!"), [], false);
    assert uri[0] == 'h';
    Percent.FirstReservedUnique("!", 0);
  }

  /** For the '!' at position 4 it replaces the ':' behind "http", and then the '%' in its place for ever. */
  lemma FragmentMakesComposeLoop(n: nat)
    ensures Urls.AfterPasses(Urls.FullText(Http("", "p", "frag!"), [], false), "frag!", n).Again?
  {
    var uri := Urls.FullText(Http("", "p", "frag!"), [], false);
    assert uri[4] == ':';
    Percent.FirstReservedUnique("frag!", 4);
    Urls.PassesGoOn(uri, "frag!", n);
  }

  // Headers and framing.

  lemma BlankLineIsAHeader()
    ensures Headers.HeadersOf(CRLF) == Ok([Headers.Header("", "")])
  {
    Headers.BlankLineIsEmptyHeader([]);
    assert Headers.Print([]) + CRLF == CRLF && [] + [Headers.Header("", "")] == [Headers.Header("", "")];
  }

  lemma CallersLengthHidesTheComposers()
    ensures var hs := [Headers.Header(RequestComposer.CONTENT_LENGTH, "5")];
      Headers.Lookup(hs + [RequestComposer.LengthHeader("")] + [Headers.Header("", "")], RequestComposer.CONTENT_LENGTH)
        == Some("5") != Some(Numbers.Decimal(0))
  {
    var h := Headers.Header(RequestComposer.CONTENT_LENGTH, "5");
    assert ([h] + [RequestComposer.LengthHeader("")] + [Headers.Header("", "")])[0] == h;
    assert Numbers.Decimal(0) == "0" != "5";
  }

  // The chunked coding and the output file.

  /** When the '1' of the size 10 arrives alone and is dropped, the chunk of 16 bytes reads as the last one. */
  lemma SplitSizeEndsTheBody(data: string)
    requires |data| == 16
    ensures var c := Chunked.Chunk("10", "", data);
      Chunked.ValidChunk(c) && Chunked.SizeRead((Chunked.SizeLine(c) + CRLF)[1..]) == Ok(0)
  {
    assert "10"[..1] == "1" && "1"[..0] == "" && "0"[..0] == "";
    assert Numbers.Value("1", 16) == 1 && Numbers.Value("10", 16) == 16 && Numbers.Value("0", 16) == 0;
    assert !Contains("", CRLF);
    assert ("10" + "" + CRLF)[1..] == "0" + "" + CRLF;
    Chunked.SizeReads("0", "");
  }

  /** When the three characters in front of the last two of "10;10" are dropped, the rest of the extension reads as
      the size. */
  lemma ExtensionReadsAsTheSize(data: string)
    requires |data| == 16
    ensures var c := Chunked.Chunk("10", ";10", data);
      Chunked.ValidChunk(c) && Chunked.SizeRead((Chunked.SizeLine(c) + CRLF)[3..]) == Ok(16)
  {
    assert "10"[..1] == "1" && "1"[..0] == "";
    assert Numbers.Value("1", 16) == 1 && Numbers.Value("10", 16) == 16;
    NoLineEnd();
    assert ("10" + ";10" + CRLF)[3..] == "10" + "" + CRLF;
    NoExtension();
    Chunked.SizeReads("10", "");
  }

  lemma NoLineEnd()
    ensures !Contains(";10", CRLF)
  {
    forall i: nat | i <= |";10"| ensures !OccursAt(";10", CRLF, i) {
      if i < 3 {
        OccursChar(";10", CRLF, i, 0);
      }
    }
  }

  lemma NoExtension()
    ensures Chunked.ValidExtension("")
  {
    assert forall i: nat :: !OccursAt("", CRLF, i);
  }

  /** A pause between two frames: unless the file had to be opened in append mode, it holds the second one only. */
  method PauseTruncatesTheFile() returns (base: Requests.RequestBase, ghost both: bool)
    ensures both ==> base.delivered == "abcd"
    ensures both ==> exists a, b ::
      base.events == [Files.Opened(a), Files.Written("ab"), Files.Closed, Files.Opened(b), Files.Written("cd")]
      && (b ==> base.m_output == Some("cd"))
  {
    hide Files.Content, Files.WrittenBytes, Files.WrittenTo;
    base := new Requests.RequestBase(20, Some("file"), None);
    ghost var content := base.m_output;
    both := base.AddResponseData("ab");
    ghost var first := base.events;
    ghost var middle := base.m_output;
    base.PauseProcessing();
    base.ContinueProcessing();
    ghost var paused := base.events;
    ghost var stored := base.AddResponseData("cd");
    assert "" + "ab" + "cd" == "abcd";
    both := both && stored;
    if both {
      ghost var a := Files.WrittenAfresh(content, [], "ab", middle, first);
      ghost var b := Files.WrittenAfresh(middle, paused, "cd", base.m_output, base.events);
      FiveEvents(a, b);
    }
  }

  lemma FiveEvents(a: bool, b: bool)
    ensures [] + [Files.Opened(a)] + [Files.Written("ab")] + [Files.Closed] + [Files.Opened(b)] + [Files.Written("cd")]
      == [Files.Opened(a), Files.Written("ab"), Files.Closed, Files.Opened(b), Files.Written("cd")]
  {
  }

  // DNS.

  /** The label "a" followed, through a pointer, by the root. */
  lemma RootTailAddsADot()
    ensures var m: seq<Byte> := [0, 1, 97, 192, 0];
      Names.Labels(m, 1, 1, Names.ANY_OFFSET) == Some([[97]])
      && Names.Entered(m, 1) == Names.Text([97, 46])
  {
    var m: seq<Byte> := [0, 1, 97, 192, 0];
    var root: Names.Name := [];
    assert m[2..3] == [97];
    assert Names.Labels(m, 0, 0, Names.ANY_OFFSET) == Some(root);
    assert Names.Labels(m, 3, 1, Names.ANY_OFFSET) == Some(root);
    assert [[97]] + root == [[97]];
    assert Names.Decoded(m, 0, {1, 0}) == Names.Text([]);
    assert {1} + {0} == {1, 0};
    assert Names.Decoded(m, 3, {1}) == Names.Text([]);
    assert [97] + [46] + [] == [97, 46];
  }

  /** A pointer to itself. */
  lemma PointerToItselfLoops()
    ensures Names.Entered([192, 0], 0) == Names.Loops && Names.NeverStops([192, 0], 0)
  {
    Names.DecoderEndsIff([192, 0], 0);
  }

  /** A pointer forwards is no name by the standard, but the decoder comes back from it. */
  lemma ForwardPointerIsDecoded()
    ensures var m: seq<Byte> := [192, 2, 1, 97, 0];
      Names.Labels(m, 0, 0, Names.ANY_OFFSET) == None && Names.Entered(m, 0) == Names.Text([97])
  {
    var m: seq<Byte> := [192, 2, 1, 97, 0];
    assert m[3..4] == [97];
    assert Names.Decoded(m, 4, {0, 2}) == Names.Text([]);
    assert [97] + [] + [] == [97];
    assert Names.Decoded(m, 2, {0, 2}) == Names.Text([97]);
    assert {0} + {2} == {0, 2};
  }

  /** The host "a.". */
  lemma TrailingDotIsLost(id: Uint16)
    ensures var host: seq<Byte> := [97, 46];
      Queries.AllShort(Split(host, 46))
      && Replies.QuestionAt(Queries.Query(id, host), Queries.HEADER_SIZE).Some?
      && Replies.QuestionAt(Queries.Query(id, host), Queries.HEADER_SIZE).value.name == [97]
  {
    var host: seq<Byte> := [97, 46];
    SplitPiece([97], 46);
    SplitAppend([97], 46, 46);
    assert host == [97] + [46];
    var labels := Split(host, 46);
    assert labels == [[97], []] && labels[..1] == [[97]];
    Replies.EmptyLabelEndsName(id, host, 1);
  }

  lemma RepeatedAliasIsLost(h: seq<Byte>)
    requires h != []
    ensures var rs := [Replies.Alias(h, h)];
      Replies.Chain(h, rs) && Replies.Names([], rs) == Some([h]) && [h] + Replies.Targets(rs) == [h, h]
  {
    var rs := [Replies.Alias(h, h)];
    assert rs[1..] == [];
    assert Replies.Push([h], h) == [h] && [] + [h] == [h];
  }

  // The scheduler.

  const DNS := Scheduler.Dns(0)
  const FIRST := Scheduler.Transfer(1)
  const SECOND := Scheduler.Transfer(2)
  const THIRD := Scheduler.Transfer(3)

  /** Two transfers behind a DNS request, before the first pass. */
  function BehindDns(): Scheduler.State {
    Scheduler.Start(10).(
      coroutines := [Scheduler.Coroutine(FIRST, 2), Scheduler.Coroutine(SECOND, 9)],
      pointers := [DNS, FIRST, SECOND], added := [DNS, FIRST, SECOND])
  }

  lemma BehindDnsIsReached()
    ensures var adds := [Scheduler.Add(DNS, 0), Scheduler.Add(FIRST, 1), Scheduler.Add(SECOND, 8)];
      Scheduler.Run(Scheduler.Start(10), adds) == Some(BehindDns())
  {
    var s, a, b, c := Scheduler.Start(10), Scheduler.Add(DNS, 0), Scheduler.Add(FIRST, 1), Scheduler.Add(SECOND, 8);
    Scheduler.RunAppend(s, [], a);
    Scheduler.RunAppend(s, [a], b);
    Scheduler.RunAppend(s, [a, b], c);
    assert [] + [a] == [a] && [a] + [b] == [a, b] && [a, b] + [c] == [a, b, c];
    assert [] + [] + [Scheduler.Coroutine(FIRST, 2)] + [Scheduler.Coroutine(SECOND, 9)] == BehindDns().coroutines;
    assert [] + [DNS] + [FIRST] + [SECOND] == BehindDns().pointers;
  }

  /** The same behind the first pass and behind the second one. */
  function BehindOnePass(): Scheduler.State {
    BehindDns().(
      coroutines := [Scheduler.Coroutine(FIRST, 1), Scheduler.Coroutine(SECOND, 8)],
      iterator_ := 2, pointerIterator := 2, counter := 2)
  }

  function BehindTwoPasses(): Scheduler.State {
    BehindDns().(
      coroutines := [Scheduler.Coroutine(SECOND, 7)], pointers := [FIRST, SECOND], finished := [FIRST],
      iterator_ := 1, pointerIterator := 1, counter := 2)
  }

  lemma FirstPass() returns (middle: Scheduler.State)
    ensures Scheduler.Resumed(BehindDns()) == Some(middle) && Scheduler.Resumed(middle) == Some(BehindOnePass())
  {
    middle := BehindDns().(
      coroutines := [Scheduler.Coroutine(FIRST, 1), Scheduler.Coroutine(SECOND, 9)],
      iterator_ := 1, pointerIterator := 1, counter := 1, inPass := true);
    assert BehindDns().coroutines[0 := Scheduler.Coroutine(FIRST, 1)] == middle.coroutines;
    assert middle.coroutines[1 := Scheduler.Coroutine(SECOND, 8)] == BehindOnePass().coroutines;
  }

  lemma SecondPass() returns (middle: Scheduler.State)
    ensures Scheduler.Resumed(BehindOnePass()) == Some(middle) && Scheduler.Resumed(middle) == Some(BehindTwoPasses())
  {
    var s := BehindOnePass();
    middle := s.(
      coroutines := [Scheduler.Coroutine(SECOND, 8)], pointers := [FIRST, SECOND], finished := [FIRST],
      iterator_ := 0, pointerIterator := 0, counter := 1, inPass := true);
    assert Scheduler.WithoutAt(s.coroutines, 0) == middle.coroutines;
    assert Scheduler.WithoutAt(s.pointers, 0) == middle.pointers;
    assert [] + [FIRST] == [FIRST];
    assert middle.coroutines[0 := Scheduler.Coroutine(SECOND, 7)] == BehindTwoPasses().coroutines;
  }

  /** In the second pass the first transfer finishes, and the pointer of the DNS request is erased instead of its
      own. Shutting down behind that pass cancels the finished request. */
  lemma FinishedRequestIsCanceled()
    ensures var r := Scheduler.Run(BehindDns(), Scheduler.Resumes(4));
      r.Some? && !r.value.inPass && r.value.coroutines != []
      && r.value.finished == [FIRST] && Scheduler.OnlyTransfers(r.value.pointers) == [FIRST, SECOND]
  {
    hide BehindDns, BehindOnePass, BehindTwoPasses, Scheduler.Run, Scheduler.Resumed, Scheduler.OnlyTransfers;
    var a := FirstPass();
    var b := SecondPass();
    FourResumes(BehindDns(), a, BehindOnePass(), b, BehindTwoPasses());
    WhatTwoPassesLeave();
  }

  lemma FourResumes(s: Scheduler.State, a: Scheduler.State, b: Scheduler.State, c: Scheduler.State,
                    d: Scheduler.State)
    requires Scheduler.Resumed(s) == Some(a) && Scheduler.Resumed(a) == Some(b)
    requires Scheduler.Resumed(b) == Some(c) && Scheduler.Resumed(c) == Some(d)
    ensures Scheduler.Run(s, Scheduler.Resumes(4)) == Some(d)
  {
    hide Scheduler.Run, Scheduler.Resumes, Scheduler.Resumed;
    Scheduler.NoResumes(s);
    Scheduler.OneMoreResume(s, 1);
    Scheduler.OneMoreResume(s, 2);
    Scheduler.OneMoreResume(s, 3);
    Scheduler.OneMoreResume(s, 4);
  }

  lemma WhatTwoPassesLeave()
    ensures var t := BehindTwoPasses();
      !t.inPass && t.coroutines != [] && t.finished == [FIRST]
      && Scheduler.OnlyTransfers(t.pointers) == [FIRST, SECOND]
  {
    Scheduler.OnlyTransfersAppend([], FIRST);
    Scheduler.OnlyTransfersAppend([FIRST], SECOND);
    assert [] + [FIRST] == [FIRST] && [FIRST] + [SECOND] == [FIRST, SECOND];
  }

  /** Three transfers behind a DNS request, before the first pass. */
  function ThreeBehindDns(): Scheduler.State {
    Scheduler.Start(10).(
      coroutines := [Scheduler.Coroutine(FIRST, 9), Scheduler.Coroutine(SECOND, 9), Scheduler.Coroutine(THIRD, 1)],
      pointers := [DNS, FIRST, SECOND, THIRD], added := [DNS, FIRST, SECOND, THIRD])
  }

  lemma ThreeBehindDnsIsReached()
    ensures var adds := [Scheduler.Add(DNS, 0), Scheduler.Add(FIRST, 8), Scheduler.Add(SECOND, 8)];
      Scheduler.Run(Scheduler.Start(10), adds + [Scheduler.Add(THIRD, 0)]) == Some(ThreeBehindDns())
  {
    var s, a, b, c := Scheduler.Start(10), Scheduler.Add(DNS, 0), Scheduler.Add(FIRST, 8), Scheduler.Add(SECOND, 8);
    Scheduler.RunAppend(s, [], a);
    Scheduler.RunAppend(s, [a], b);
    Scheduler.RunAppend(s, [a, b], c);
    Scheduler.RunAppend(s, [a, b, c], Scheduler.Add(THIRD, 0));
    assert [] + [a] == [a] && [a] + [b] == [a, b] && [a, b] + [c] == [a, b, c];
    var none: seq<Scheduler.Coroutine> := [];
    assert none + [] + [Scheduler.Coroutine(FIRST, 9)] + [Scheduler.Coroutine(SECOND, 9)]
      + [Scheduler.Coroutine(THIRD, 1)] == ThreeBehindDns().coroutines;
    assert [] + [DNS] + [FIRST] + [SECOND] + [THIRD] == ThreeBehindDns().pointers;
  }

  lemma TwoAdvance() returns (a: Scheduler.State, b: Scheduler.State)
    ensures Scheduler.Resumed(ThreeBehindDns()) == Some(a) && Scheduler.Resumed(a) == Some(b)
    ensures b == ThreeBehindDns().(
      coroutines := [Scheduler.Coroutine(FIRST, 8), Scheduler.Coroutine(SECOND, 8), Scheduler.Coroutine(THIRD, 1)],
      iterator_ := 2, pointerIterator := 2, counter := 2, inPass := true)
  {
    var s := ThreeBehindDns();
    a := s.(
      coroutines := [Scheduler.Coroutine(FIRST, 8), Scheduler.Coroutine(SECOND, 9), Scheduler.Coroutine(THIRD, 1)],
      iterator_ := 1, pointerIterator := 1, counter := 1, inPass := true);
    b := a.(
      coroutines := [Scheduler.Coroutine(FIRST, 8), Scheduler.Coroutine(SECOND, 8), Scheduler.Coroutine(THIRD, 1)],
      iterator_ := 2, pointerIterator := 2, counter := 2);
    assert s.coroutines[0 := Scheduler.Coroutine(FIRST, 8)] == a.coroutines;
    assert a.coroutines[1 := Scheduler.Coroutine(SECOND, 8)] == b.coroutines;
  }

  lemma LastFinishes(b: Scheduler.State) returns (c: Scheduler.State, d: Scheduler.State)
    requires b == ThreeBehindDns().(
      coroutines := [Scheduler.Coroutine(FIRST, 8), Scheduler.Coroutine(SECOND, 8), Scheduler.Coroutine(THIRD, 1)],
      iterator_ := 2, pointerIterator := 2, counter := 2, inPass := true)
    ensures Scheduler.Resumed(b) == Some(c) && Scheduler.Resumed(c) == Some(d) && Scheduler.Resumed(d) == None
  {
    c := b.(coroutines := [Scheduler.Coroutine(FIRST, 8), Scheduler.Coroutine(SECOND, 8)],
            pointers := [DNS, FIRST, THIRD], iterator_ := 0, counter := 1, finished := [THIRD]);
    d := c.(coroutines := [Scheduler.Coroutine(FIRST, 7), Scheduler.Coroutine(SECOND, 8)],
            iterator_ := 1, pointerIterator := 3, counter := 2);
    assert Scheduler.WithoutAt(b.coroutines, 2) == c.coroutines && Scheduler.WithoutAt(b.pointers, 2) == c.pointers;
    assert c.coroutines[0 := Scheduler.Coroutine(FIRST, 7)] == d.coroutines;
    assert [] + [THIRD] == [THIRD];
  }

  /** A transfer that finishes last in its pass takes the first iterator to the beginning, but not the second one,
      which then reaches the end of its list while the first one still moves. */
  lemma IteratorLeavesItsList()
    ensures Scheduler.Run(ThreeBehindDns(), Scheduler.Resumes(4)).Some?
    ensures Scheduler.Run(ThreeBehindDns(), Scheduler.Resumes(5)) == None
  {
    hide ThreeBehindDns, Scheduler.Run, Scheduler.Resumes, Scheduler.Resumed;
    var a, b := TwoAdvance();
    var c, d := LastFinishes(b);
    FourResumes(ThreeBehindDns(), a, b, c, d);
    Scheduler.OneMoreResume(ThreeBehindDns(), 5);
  }
}
