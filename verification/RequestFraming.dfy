/** How a receiver takes a composed request apart again: query, header block and body. */
module RequestFraming {
  import opened Text
  import opened Numbers
  import Percent = PercentEncoding
  import opened Query
  import Headers
  import opened RequestComposer

  const BLANK := "\r\n\r\n"

  // The query of a GET request.

  predicate CleanName(p: Parameter) {
    '=' !in p.name && '&' !in p.name
  }

  /** What addParam guarantees and what the query needs. */
  predicate NamesNotEmpty(ps: seq<Parameter>) {
    forall i :: 0 <= i < |ps| ==> ps[i].name != ""
  }

  predicate NamesClean(ps: seq<Parameter>) {
    forall i :: 0 <= i < |ps| ==> CleanName(ps[i])
  }

  lemma EncodedIsClean(s: string)
    ensures '=' !in Percent.Encode(s) && '&' !in Percent.Encode(s)
  {
    var t := Percent.Encode(s);
    forall i | 0 <= i < |t| ensures t[i] != '=' && t[i] != '&' {
      Percent.EncodeAlphabet(s, i);
    }
  }

  lemma GetPairIsPiece(p: Parameter)
    requires p.name != "" && CleanName(p)
    ensures '&' !in GetPair(p) && GetPair(p) != ""
    ensures ParameterOf(GetPair(p)) == Parameter(p.name, Percent.Encode(p.value))
  {
    EncodedIsClean(p.value);
    if p.value == "" {
      assert GetPair(p) == p.name;
      FindUnique(p.name, {'='}, |p.name|);
      assert p.name[..|p.name|] == p.name;
    } else {
      ParameterOfPair(Parameter(p.name, Percent.Encode(p.value)));
      assert GetPair(p) == Pair(Parameter(p.name, Percent.Encode(p.value)));
    }
  }

  lemma {:induction false} GetPairsParse(ps: seq<Parameter>, rest: string)
    requires ps != [] && NamesNotEmpty(ps) && NamesClean(ps)
    ensures ParametersOf(GetPairs(ps)) == EncodedParams(ps)
    ensures ParametersOf(GetPairs(ps) + "&" + rest) == EncodedParams(ps) + ParametersOf(rest)
  {
    hide ParametersOf, ParameterOf, GetPair, CleanName;
    var init, last := ps[..|ps| - 1], ps[|ps| - 1];
    var pair, e := GetPair(last), Parameter(last.name, Percent.Encode(last.value));
    GetPairIsPiece(last);
    ParsedPiece(pair, rest);
    assert EncodedParams(ps) == EncodedParams(init) + [e];
    if init == [] {
      assert ps == [last] && GetPairs(ps) == pair && EncodedParams(ps) == [e];
    } else {
      GetPairsParse(init, pair);
      GetPairsParse(init, pair + "&" + rest);
      assert GetPairs(ps) + "&" + rest == GetPairs(init) + "&" + (pair + "&" + rest);
      assert EncodedParams(init) + ([e] + ParametersOf(rest)) == EncodedParams(init) + [e] + ParametersOf(rest);
    }
  }

  lemma GetQueryParse(ps: seq<Parameter>, own: seq<Parameter>)
    requires NamesNotEmpty(ps) && NamesClean(ps) && AllClean(own)
    ensures ParametersOf(GetQuery(ps, Print(own))) == EncodedParams(ps) + own
  {
    hide ParametersOf, GetPairs, GetQuery, Print, NamesClean, AllClean;
    ParsePrint(own);
    PrintEmptyIff(own);
    GetQueryCases(ps, Print(own));
    if ps == [] {
      assert EncodedParams(ps) == [] && [] + own == own;
    } else {
      GetPairsParse(ps, Print(own));
      assert EncodedParams(ps) + [] == EncodedParams(ps);
    }
  }

  lemma GetQueryCases(ps: seq<Parameter>, urlQuery: string)
    ensures ps == [] ==> GetQuery(ps, urlQuery) == urlQuery
    ensures ps != [] && urlQuery == "" ==> GetQuery(ps, urlQuery) == GetPairs(ps)
    ensures ps != [] && urlQuery != "" ==> GetQuery(ps, urlQuery) == GetPairs(ps) + "&" + urlQuery
  {
    assert ps == [] ==> GetPairs(ps) == "";
    hide GetPairs;
  }

  lemma PrintEmptyIff(ps: seq<Parameter>)
    ensures Print(ps) == "" <==> ps == []
  {
    if ps != [] {
      assert Pair(ps[0])[|ps[0].name|] == '=' && Pair(ps[0]) <= Print(ps);
    }
  }

  /** Parsing the query gives every name with its encoded value and then the URL's own parameters, exactly
      when no name and no parameter of the URL holds a separator; values are arbitrary. */
  lemma GetQueryParseIff(ps: seq<Parameter>, own: seq<Parameter>)
    requires NamesNotEmpty(ps)
    ensures ParametersOf(GetQuery(ps, Print(own))) == EncodedParams(ps) + own <==> NamesClean(ps) && AllClean(own)
  {
    hide GetQuery, ParametersOf, Print, NamesClean, AllClean;
    if NamesClean(ps) && AllClean(own) {
      GetQueryParse(ps, own);
    }
    if ParametersOf(GetQuery(ps, Print(own))) == EncodedParams(ps) + own {
      ParsedIsClean(GetQuery(ps, Print(own)));
      CleanParts(ps, own);
    }
  }

  lemma CleanParts(ps: seq<Parameter>, own: seq<Parameter>)
    requires AllClean(EncodedParams(ps) + own)
    ensures NamesClean(ps) && AllClean(own)
  {
    var all := EncodedParams(ps) + own;
    assert forall i :: 0 <= i < |ps| ==> Clean(all[i]) && all[i].name == ps[i].name;
    assert forall i :: 0 <= i < |own| ==> Clean(all[|ps| + i]) && all[|ps| + i] == own[i];
  }

  /** Distinct parameter lists give distinct queries. */
  lemma GetQueryInjective(ps: seq<Parameter>, qs: seq<Parameter>, own: seq<Parameter>)
    requires NamesNotEmpty(ps) && NamesClean(ps) && NamesNotEmpty(qs) && NamesClean(qs) && AllClean(own)
    requires GetQuery(ps, Print(own)) == GetQuery(qs, Print(own))
    ensures ps == qs
  {
    GetQueryParse(ps, own);
    GetQueryParse(qs, own);
    var es, fs := EncodedParams(ps), EncodedParams(qs);
    assert |es + own| == |fs + own|;
    assert es == (es + own)[..|ps|] == (fs + own)[..|qs|] == fs;
    forall i | 0 <= i < |ps| ensures ps[i] == qs[i] {
      assert es[i] == fs[i];
      Percent.EncodeInjective(ps[i].value, qs[i].value);
    }
  }

  /** What is encoded can be decoded, and names are left as they are. */
  lemma EncodedKeeps(ps: seq<Parameter>, hs: seq<Header>)
    ensures forall i :: 0 <= i < |ps| ==>
      EncodedParams(ps)[i].name == ps[i].name && Percent.Decode(EncodedParams(ps)[i].value) == ps[i].value
    ensures forall i :: 0 <= i < |hs| ==>
      EncodedHeaders(hs)[i].name == hs[i].name && Percent.Decode(EncodedHeaders(hs)[i].value) == hs[i].value
  {
    forall i | 0 <= i < |ps| ensures Percent.Decode(EncodedParams(ps)[i].value) == ps[i].value {
      Percent.DecodeEncode(ps[i].value);
    }
    forall i | 0 <= i < |hs| ensures Percent.Decode(EncodedHeaders(hs)[i].value) == hs[i].value {
      Percent.DecodeEncode(hs[i].value);
    }
  }

  // The request line.

  lemma ThreeWords(a: string, b: string, c: string)
    requires ' ' !in a && ' ' !in b && ' ' !in c
    ensures Split(a + " " + b + " " + c, ' ') == [a, b, c]
  {
    SplitFirst(a, b + " " + c, ' ');
    SplitFirst(b, c, ' ');
    SplitPiece(c, ' ');
    assert a + " " + b + " " + c == a + " " + (b + " " + c);
    assert [a] + ([b] + [c]) == [a, b, c];
  }

  lemma WordsOfLine(name: string, target: string)
    requires ' ' !in name && ' ' !in target
    ensures Split(name + " " + target + " HTTP/1.1", ' ') == [name, target, "HTTP/1.1"]
  {
    ThreeWords(name, target, "HTTP/1.1");
    Associative(name + " " + target, " ", "HTTP/1.1");
    assert " " + "HTTP/1.1" == " HTTP/1.1";
  }

  /** The path of a request begins with a '/', which is put in front of it when it is missing. */
  function Slashed(path: string): string {
    if "/" <= path then path else "/" + path
  }

  lemma TargetIsSlashed(path: string)
    ensures Target(path) == Slashed(path)
  {
  }

  /** The line of a request: its method, the path and the version, separated by spaces. */
  lemma RequestLineReads(m: Method, path: string)
    requires ' ' !in path
    ensures Split(RequestLine(m, path), ' ') ==
      [match m case Get => "GET" case Post => "POST" case Put => "PUT", Slashed(path), "HTTP/1.1"]
  {
    var name := match m case Get => "GET" case Post => "POST" case Put => "PUT";
    TargetIsSlashed(path);
    WordsOfLine(name, Slashed(path));
    assert RequestName(m) == name + " ";
  }

  /** That of a GET request: behind the first '?' of the target stands the query, which reads as the encoded
      parameters and those of the URL; without any there is no '?'. */
  lemma GetLineReads(path: string, ps: seq<Parameter>, own: seq<Parameter>) returns (target: string, k: nat)
    requires ' ' !in path && '?' !in path && ' ' !in Print(own)
    requires NamesNotEmpty(ps) && NamesClean(ps) && AllClean(own)
    requires forall i :: 0 <= i < |ps| ==> ' ' !in ps[i].name
    ensures Split(GetLine(path, ps, Print(own)), ' ') == ["GET", target, "HTTP/1.1"]
    ensures k == Find(target, {'?'}) && target[..k] == Slashed(path)
    ensures if ps == [] && own == [] then k == |target|
      else k < |target| && ParametersOf(target[k + 1..]) == EncodedParams(ps) + own
  {
    var query := GetQueryPart(ps, Print(own));
    target, k := Slashed(path) + query, |Slashed(path)|;
    QueryPartReads(ps, own);
    GetLineWords(path, ps, Print(own));
    hide Split, GetLine, GetQueryPart, Print, NamesClean, AllClean, ParametersOf;
    TargetCut(path, query);
  }

  lemma GetLineWords(path: string, ps: seq<Parameter>, urlQuery: string)
    requires ' ' !in path && ' ' !in urlQuery && forall i :: 0 <= i < |ps| ==> ' ' !in ps[i].name
    ensures Split(GetLine(path, ps, urlQuery), ' ') == ["GET", Slashed(path) + GetQueryPart(ps, urlQuery), "HTTP/1.1"]
  {
    var query := GetQueryPart(ps, urlQuery);
    TargetIsSlashed(path);
    NoSpaceInQuery(ps, urlQuery);
    hide GetQueryPart, Slashed, Target;
    WordsOfLine("GET", Slashed(path) + query);
    Associative("GET ", Slashed(path), query);
    assert "GET" + " " == "GET ";
    assert GetLine(path, ps, urlQuery) == "GET " + Slashed(path) + query + " HTTP/1.1";
  }

  lemma QueryPartReads(ps: seq<Parameter>, own: seq<Parameter>)
    requires NamesNotEmpty(ps) && NamesClean(ps) && AllClean(own)
    ensures var query := GetQueryPart(ps, Print(own));
      if ps == [] && own == [] then query == ""
      else query != "" && query[0] == '?' && ParametersOf(query[1..]) == EncodedParams(ps) + own
  {
    PrintEmptyIff(own);
    GetQueryParse(ps, own);
    hide GetQuery, Print, NamesClean, AllClean, ParametersOf;
    assert ps != [] || own != [] ==> GetQueryPart(ps, Print(own))[1..] == GetQuery(ps, Print(own));
  }

  lemma TargetCut(path: string, query: string)
    requires '?' !in path && (query == "" || query[0] == '?')
    ensures var target, k := Slashed(path) + query, |Slashed(path)|;
      Find(target, {'?'}) == k && target[..k] == Slashed(path) && target[k..] == query
      && (query != "" ==> target[k + 1..] == query[1..])
  {
    FindAcross(Slashed(path), query, {'?'});
  }

  lemma NoSpaceInQuery(ps: seq<Parameter>, urlQuery: string)
    requires ' ' !in urlQuery && forall i :: 0 <= i < |ps| ==> ' ' !in ps[i].name
    ensures ' ' !in GetQueryPart(ps, urlQuery)
  {
    NoSpaceInPairs(ps);
    hide GetPairs;
    assert ' ' !in GetQuery(ps, urlQuery);
    hide GetQuery;
  }

  lemma {:induction false} NoSpaceInPairs(ps: seq<Parameter>)
    requires forall i :: 0 <= i < |ps| ==> ' ' !in ps[i].name
    ensures ' ' !in GetPairs(ps)
  {
    if ps != [] {
      var init, p := ps[..|ps| - 1], ps[|ps| - 1];
      NoSpaceInPairs(init);
      NoSpaceInEncoded(p.value);
      assert ' ' !in GetPair(p);
      hide GetPair;
    }
  }

  lemma NoSpaceInEncoded(s: string)
    ensures ' ' !in Percent.Encode(s)
  {
    var t := Percent.Encode(s);
    forall i | 0 <= i < |t| ensures t[i] != ' ' {
      Percent.EncodeAlphabet(s, i);
    }
  }

  // The body made of the parameters.

  /** What of the parameters a body carries, by its content type. */
  function Carried(ps: seq<Parameter>, contentType: Option<string>): (r: seq<Parameter>)
    ensures |r| == |ps|
  {
    if contentType == Some("application/x-www-form-urlencoded") then EncodedParams(ps)
    else if contentType == Some("multipart/form-data") then NamesOnly(ps)
    else ps
  }

  function NamesOnly(ps: seq<Parameter>): (r: seq<Parameter>)
    ensures |r| == |ps| && forall i :: 0 <= i < |ps| ==> r[i] == Parameter(ps[i].name, "")
  {
    seq(|ps|, i requires 0 <= i < |ps| => Parameter(ps[i].name, ""))
  }

  lemma CarriedMore(ps: seq<Parameter>, t: Option<string>)
    requires ps != []
    ensures var init, p := ps[..|ps| - 1], ps[|ps| - 1];
      FormPair(p, t) == Pair(Carried([p], t)[0]) && Carried(ps, t) == Carried(init, t) + Carried([p], t)
  {
  }

  /** The body is the printed form of what it carries. */
  lemma {:induction false} FormPairsArePrinted(ps: seq<Parameter>, t: Option<string>)
    ensures FormPairs(ps, t) == Print(Carried(ps, t))
  {
    if ps != [] {
      var init, p := ps[..|ps| - 1], ps[|ps| - 1];
      var last := Carried([p], t);
      FormPairsArePrinted(init, t);
      CarriedMore(ps, t);
      hide FormPair, Carried;
      if init != [] {
        PrintAppend(Carried(init, t), last[0]);
        assert last == [last[0]];
      } else {
        assert [] + last == last;
      }
    }
  }

  /** A body made of the parameters reads back as what it carries exactly when there is no separator in it. */
  lemma BodyParsesIff(ps: seq<Parameter>, hs: seq<Header>)
    ensures var carried := Carried(ps, Headers.Lookup(hs, "content-type"));
      ParametersOf(BodyText("", ps, hs)) == carried <==> AllClean(carried)
  {
    FormPairsArePrinted(ps, Headers.Lookup(hs, "content-type"));
    ParsePrintIff(Carried(ps, Headers.Lookup(hs, "content-type")));
  }

  /** A form reads back as the encoded parameters, whatever the values are, ... */
  lemma FormBodyParsesIff(ps: seq<Parameter>, hs: seq<Header>)
    requires Headers.Lookup(hs, "content-type") == Some("application/x-www-form-urlencoded")
    ensures ParametersOf(BodyText("", ps, hs)) == EncodedParams(ps) <==> NamesClean(ps)
  {
    BodyParsesIff(ps, hs);
    EncodedParamsClean(ps);
  }

  lemma EncodedParamsClean(ps: seq<Parameter>)
    ensures AllClean(EncodedParams(ps)) <==> NamesClean(ps)
  {
    forall i | 0 <= i < |ps| ensures Clean(EncodedParams(ps)[i]) <==> CleanName(ps[i]) {
      EncodedIsClean(ps[i].value);
    }
  }

  /** ... the multipart type loses the values, ... */
  lemma MultipartBodyParsesIff(ps: seq<Parameter>, hs: seq<Header>)
    requires Headers.Lookup(hs, "content-type") == Some("multipart/form-data")
    ensures ParametersOf(BodyText("", ps, hs)) == NamesOnly(ps) <==> NamesClean(ps)
  {
    BodyParsesIff(ps, hs);
    assert forall i :: 0 <= i < |ps| ==> (Clean(NamesOnly(ps)[i]) <==> CleanName(ps[i]));
  }

  /** ... and with any other type, or without one, parameters without separators read back as they are. */
  lemma PlainBodyParsesIff(ps: seq<Parameter>, hs: seq<Header>)
    requires Headers.Lookup(hs, "content-type") !in
      {Some("application/x-www-form-urlencoded"), Some("multipart/form-data")}
    ensures ParametersOf(BodyText("", ps, hs)) == ps <==> AllClean(ps)
  {
    BodyParsesIff(ps, hs);
  }

  // The header block and the body.

  predicate NoCarriageReturn(hs: seq<Header>) {
    forall i :: 0 <= i < |hs| ==> '\r' !in hs[i].name && '\r' !in hs[i].value
  }

  /** Behind a line without '\r' and the headers stands the first blank line. */
  lemma {:induction false} BlankLineFirst(line: string, hs: seq<Header>, body: string)
    requires '\r' !in line && NoCarriageReturn(hs)
    ensures FirstAt(line + CRLF + Headers.Print(hs) + CRLF + body, BLANK, |line| + |Headers.Print(hs)|)
    decreases |hs|
  {
    var text := line + CRLF + Headers.Print(hs) + CRLF + body;
    if hs == [] {
      assert text == line + (BLANK + body);
      BlankAfterLine(line, BLANK + body);
    } else {
      var next := hs[0].name + ":" + hs[0].value;
      var tail := next + CRLF + Headers.Print(hs[1..]) + CRLF + body;
      assert text == line + (CRLF + tail);
      BlankLineFirst(next, hs[1..], body);
      BlankAfterLine(line, CRLF + tail);
      var i := |next| + |Headers.Print(hs[1..])|;
      assert tail[0] == next[0] && next[0] != '\r';
      BlankShift(line, tail, i);
    }
  }

  /** No blank line begins inside a line without '\r'. */
  lemma BlankAfterLine(line: string, rest: string)
    requires '\r' !in line
    ensures forall k: nat :: k < |line| ==> !OccursAt(line + rest, BLANK, k)
    ensures BLANK <= rest ==> OccursAt(line + rest, BLANK, |line|)
  {
    var text := line + rest;
    forall k: nat | k < |line| ensures !OccursAt(text, BLANK, k) {
      assert text[k] == line[k];
      OccursChar(text, BLANK, k, 0);
    }
  }

  lemma BlankShift(line: string, tail: string, i: nat)
    requires '\r' !in line && FirstAt(tail, BLANK, i) && tail[0] != '\r'
    ensures FirstAt(line + (CRLF + tail), BLANK, |line| + 2 + i)
  {
    var text, n := line + (CRLF + tail), |line| + 2;
    BlankAfterLine(line, CRLF + tail);
    assert text[n..] == tail;
    forall k: nat | k < n + i ensures !OccursAt(text, BLANK, k) {
      if k >= n {
        assert !OccursAt(tail, BLANK, k - n);
        assert k + 4 <= |text| ==> text[k..k + 4] == tail[k - n..k - n + 4];
      } else if k >= |line| {
        OccursChar(text, BLANK, k, 0);
        OccursChar(text, BLANK, |line|, 2);
        assert text[|line|] == '\r' && text[|line| + 1] == '\n' && text[n] == tail[0];
      }
    }
    assert text[n + i..n + i + 4] == tail[i..i + 4];
  }

  lemma {:induction false} LookupAppend(hs: seq<Header>, more: seq<Header>, name: string)
    ensures Headers.Lookup(hs + more, name) ==
      if Headers.Lookup(hs, name).Some? then Headers.Lookup(hs, name) else Headers.Lookup(more, name)
  {
    if hs == [] {
      assert hs + more == more;
    } else {
      assert (hs + more)[1..] == hs[1..] + more;
      LookupAppend(hs[1..], more, name);
    }
  }

  lemma LineEndFirst(line: string, rest: string)
    requires '\r' !in line
    ensures FirstAt(line + CRLF + rest, CRLF, |line|)
  {
    var message := line + CRLF + rest;
    assert message == line + (CRLF + rest);
    forall k: nat | k < |line| ensures !OccursAt(message, CRLF, k) {
      assert message[k] == line[k];
      OccursChar(message, CRLF, k, 0);
    }
  }

  /** How a message falls apart at the first line end and at `i`, the first blank line. */
  ghost predicate Framed(message: string, line: string, i: nat, block: string, body: string) {
    var n := |line|;
    && n <= i && FirstAt(message, CRLF, n) && FirstAt(message, BLANK, i)
    && message[..n] == line && message[n + 2..i + 4] == block && message[i + 4..] == body
  }

  lemma MessageFramed(line: string, printed: string, body: string, i: nat)
    requires '\r' !in line && i == |line| + |printed|
    requires FirstAt(line + CRLF + printed + CRLF + body, BLANK, i)
    ensures Framed(line + CRLF + printed + CRLF + body, line, i, printed + CRLF, body)
  {
    var message := line + CRLF + printed + CRLF + body;
    LineEndFirst(line, printed + CRLF + body);
    assert message == line + CRLF + (printed + CRLF + body);
    assert message == line + CRLF + (printed + CRLF) + body;
  }

  /** The line of a request, the block up to the first blank line and what is behind it. */
  lemma MessageFraming(line: string, hs: seq<Header>, body: string) returns (i: nat)
    requires '\r' !in line && Headers.AllPrintable(hs)
    ensures Framed(line + CRLF + Headers.Print(hs) + CRLF + body, line, i, Headers.Print(hs) + CRLF, body)
    ensures Headers.HeadersOf(Headers.Print(hs) + CRLF) == Ok(hs + [Headers.Header("", "")])
  {
    i := |line| + |Headers.Print(hs)|;
    BlankLineFirst(line, hs, body);
    MessageFramed(line, Headers.Print(hs), body, i);
    Headers.BlankLineIsEmptyHeader(hs);
  }

  /** The length found in a parsed block is that of the body exactly when the caller supplied no other one. */
  lemma LengthLookedUpIff(hs: seq<Header>, body: string)
    ensures Headers.Lookup(hs + [LengthHeader(body)] + [Headers.Header("", "")], CONTENT_LENGTH)
        == Some(Decimal(|body|))
      <==> Headers.Lookup(hs, CONTENT_LENGTH) in {None, Some(Decimal(|body|))}
  {
    var h, blank := LengthHeader(body), Headers.Header("", "");
    LookupAppend(hs + [h], [blank], CONTENT_LENGTH);
    LookupAppend(hs, [h], CONTENT_LENGTH);
    assert Headers.Named(h, CONTENT_LENGTH);
    assert Headers.Lookup([h], CONTENT_LENGTH) == Some(Decimal(|body|));
  }

  /** POST and PUT messages are self-framing: cut at the first blank line they give the body, and the block
      in front of it parses to the headers, the length last. */
  lemma BodyMessageFraming(m: Method, path: string, hs: seq<Header>, body: string) returns (i: nat, block: string)
    requires '\r' !in path && Headers.AllPrintable(hs)
    ensures Framed(BodyMessage(m, path, hs + [LengthHeader(body)], body), RequestLine(m, path), i, block, body)
    ensures Headers.HeadersOf(block) == Ok(hs + [LengthHeader(body)] + [Headers.Header("", "")])
  {
    var h := LengthHeader(body);
    LengthIsPrintable(body);
    LineWithoutReturn(m, path);
    i := MessageFraming(RequestLine(m, path), hs + [h], body);
    block := Headers.Print(hs + [h]) + CRLF;
  }

  lemma LengthIsPrintable(body: string)
    ensures Headers.Printable(LengthHeader(body))
  {
    var s := Decimal(|body|);
    hide Decimal;
    forall i | 0 <= i < |s| ensures '0' <= s[i] <= '9' {
      assert DigitValue(s[i]) < 10;
    }
    assert '\r' !in s;
  }

  lemma LineWithoutReturn(m: Method, path: string)
    requires '\r' !in path
    ensures '\r' !in RequestLine(m, path)
  {
    assert '\r' !in RequestName(m) && '\r' !in Target(path);
  }

  /** The length header is read back as the number of bytes of the body. */
  lemma LengthReadsBack(body: string)
    requires |body| <= INT64_MAX
    ensures Stoll(LengthHeader(body).value, 10) == Ok(|body|)
  {
    DecimalValue(|body|);
    StollOfNumeral(Decimal(|body|), 10, "");
    assert Decimal(|body|) + "" == Decimal(|body|);
  }

  /** What a header of a GET request must keep out; values are encoded, so they may start with spaces. */
  predicate Encodable(h: Header) {
    && ':' !in h.name && '\r' !in h.name && '\n' !in h.name
    && '\r' !in h.value && (h.value != "" ==> h.value[0] != '\n')
  }

  /** A GET message ends with its blank line, and its block parses to the names with encoded values. */
  lemma GetMessageFraming(path: string, ps: seq<Parameter>, urlQuery: string, hs: seq<Header>)
    returns (i: nat, block: string)
    requires '\r' !in path && '\r' !in urlQuery
    requires forall k :: 0 <= k < |ps| ==> '\r' !in ps[k].name && '\r' !in ps[k].value
    requires forall k :: 0 <= k < |hs| ==> Encodable(hs[k])
    ensures Framed(GetMessage(path, ps, urlQuery, hs), GetLine(path, ps, urlQuery), i, block, "")
    ensures Headers.HeadersOf(block) == Ok(EncodedHeaders(hs) + [Headers.Header("", "")])
  {
    var line := GetLine(path, ps, urlQuery);
    NoReturnInGetLine(path, ps, urlQuery);
    hide GetLine, Encodable;
    forall k | 0 <= k < |hs| ensures Headers.Printable(EncodedHeaders(hs)[k]) {
      EncodedIsPrintable(hs[k]);
    }
    i := MessageFraming(line, EncodedHeaders(hs), "");
    block := Headers.Print(EncodedHeaders(hs)) + CRLF;
    assert GetMessage(path, ps, urlQuery, hs) == line + CRLF + Headers.Print(EncodedHeaders(hs)) + CRLF + "";
  }

  lemma NoReturnInGetLine(path: string, ps: seq<Parameter>, urlQuery: string)
    requires '\r' !in path && '\r' !in urlQuery
    requires forall k :: 0 <= k < |ps| ==> '\r' !in ps[k].name && '\r' !in ps[k].value
    ensures '\r' !in GetLine(path, ps, urlQuery)
  {
    NoReturnInPairs(ps);
    hide GetPairs;
    assert '\r' !in Target(path);
    assert '\r' !in GetQuery(ps, urlQuery);
    hide GetQuery, Target;
    assert '\r' !in GetQueryPart(ps, urlQuery);
    hide GetQueryPart;
  }

  lemma {:induction false} NoReturnInEncoded(s: string)
    ensures '\r' in Percent.Encode(s) <==> '\r' in s
  {
    if s != "" {
      NoReturnInEncoded(s[1..]);
      if Percent.Reserved(s[0]) {
        Percent.CodeDecodes(s[0]);
      }
    }
  }

  lemma {:induction false} NoReturnInPairs(ps: seq<Parameter>)
    requires forall k :: 0 <= k < |ps| ==> '\r' !in ps[k].name && '\r' !in ps[k].value
    ensures '\r' !in GetPairs(ps)
  {
    if ps != [] {
      NoReturnInPairs(ps[..|ps| - 1]);
      NoReturnInEncoded(ps[|ps| - 1].value);
    }
  }

  lemma EncodedIsPrintable(h: Header)
    requires Encodable(h)
    ensures Headers.Printable(Encoded(h))
  {
    NoReturnInEncoded(h.value);
    if h.value != "" && Percent.Reserved(h.value[0]) {
      Percent.CodeDecodes(h.value[0]);
    }
  }
}
