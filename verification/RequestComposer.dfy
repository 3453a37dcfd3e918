/** The bytes of a request: _prepareRequest of GET, POST and PUT in http_request.cpp. */
module RequestComposer {
  import opened Text
  import opened Numbers
  import Percent = PercentEncoding
  import opened Query
  import Headers
  import Urls
  import opened RequestBases
  import opened Bytes

  type Header = Headers.Header

  datatype Method = Get | Post | Put

  const CONTENT_LENGTH := "content-length"
  const CONTENT_TYPE := "content-type"
  const FORM := "application/x-www-form-urlencoded"
  const MULTIPART := "multipart/form-data"
  const VERSION := " HTTP/1.1"

  function RequestName(m: Method): string {
    match m
    case Get => "GET "
    case Post => "POST "
    case Put => "PUT "
  }

  function Target(path: string): string {
    if path == "" || path[0] != '/' then "/" + path else path
  }

  function Separator(first: bool): string {
    if first then "" else "&"
  }

  function GetPair(p: Parameter): string {
    p.name + (if p.value == "" then "" else "=" + Percent.Encode(p.value))
  }

  /** The parameters of a GET request, separated by '&'. */
  function GetPairs(ps: seq<Parameter>): string {
    if ps == [] then ""
    else if |ps| == 1 then GetPair(ps[0])
    else GetPairs(ps[..|ps| - 1]) + "&" + GetPair(ps[|ps| - 1])
  }

  /** The query of a GET request: its own parameters, then those of the URL. */
  function GetQuery(ps: seq<Parameter>, urlQuery: string): string {
    GetPairs(ps) + (if urlQuery == "" then "" else (if ps == [] then "" else "&") + urlQuery)
  }

  function Encoded(h: Header): Header {
    Headers.Header(h.name, Percent.Encode(h.value))
  }

  function EncodedHeaders(hs: seq<Header>): (r: seq<Header>)
    ensures |r| == |hs| && forall i :: 0 <= i < |hs| ==> r[i] == Encoded(hs[i])
  {
    seq(|hs|, i requires 0 <= i < |hs| => Encoded(hs[i]))
  }

  function EncodedParams(ps: seq<Parameter>): (r: seq<Parameter>)
    ensures |r| == |ps| && forall i :: 0 <= i < |ps| ==> r[i] == Parameter(ps[i].name, Percent.Encode(ps[i].value))
  {
    seq(|ps|, i requires 0 <= i < |ps| => Parameter(ps[i].name, Percent.Encode(ps[i].value)))
  }

  function GetQueryPart(ps: seq<Parameter>, urlQuery: string): string {
    if ps == [] && urlQuery == "" then "" else "?" + GetQuery(ps, urlQuery)
  }

  function GetLine(path: string, ps: seq<Parameter>, urlQuery: string): string {
    RequestName(Get) + Target(path) + GetQueryPart(ps, urlQuery) + VERSION
  }

  function GetMessage(path: string, ps: seq<Parameter>, urlQuery: string, hs: seq<Header>): string {
    GetLine(path, ps, urlQuery) + CRLF + Headers.Print(EncodedHeaders(hs)) + CRLF
  }

  /** A parameter in a body, by the content type. */
  function FormPair(p: Parameter, contentType: Option<string>): string {
    p.name + "=" +
    (if contentType == Some(FORM) then Percent.Encode(p.value)
     else if contentType == Some(MULTIPART) then ""
     else p.value)
  }

  function FormPairs(ps: seq<Parameter>, contentType: Option<string>): string {
    if ps == [] then ""
    else if |ps| == 1 then FormPair(ps[0], contentType)
    else FormPairs(ps[..|ps| - 1], contentType) + "&" + FormPair(ps[|ps| - 1], contentType)
  }

  /** A body that was not set is made of the parameters. */
  function BodyText(body: string, ps: seq<Parameter>, hs: seq<Header>): string {
    if body == "" then FormPairs(ps, Headers.Lookup(hs, CONTENT_TYPE)) else body
  }

  function LengthHeader(body: string): Header {
    Headers.Header(CONTENT_LENGTH, Decimal(|body|))
  }

  function RequestLine(m: Method, path: string): string {
    RequestName(m) + Target(path) + VERSION
  }

  /** A message with a body; `hs` includes the length header. */
  function BodyMessage(m: Method, path: string, hs: seq<Header>, body: string): string {
    RequestLine(m, path) + CRLF + Headers.Print(hs) + CRLF + body
  }

  class HttpRequest {
    /** The part inherited from RequestBase. */
    const base: RequestBase
    const kind: Method
    const m_request_name: string
    var m_url: Urls.Url
    var m_headers: Headers.HttpHeaders
    var m_params: Params
    var m_body: string
    var m_request_data: string
    var m_request_composed: bool
    var m_ssl: bool

    /** addParam lets no empty name in. */
    ghost predicate Valid()
      reads this, m_params
    {
      && m_request_name == RequestName(kind)
      && forall i :: 0 <= i < |m_params.m_params| ==> m_params.m_params[i].name != ""
    }

    /** HttpRequest(Url): a URL of another scheme is refused unless its port, printed in network byte
        order, reads 80 or 443; TLS is used when the port in host order is 443. */
    constructor (kind: Method, url: Urls.Url, base: RequestBase)
      requires base.Valid()
      modifies base
      ensures Valid() && this.base == base && this.kind == kind && m_url == url && fresh(m_headers) && fresh(m_params)
      ensures m_params.m_params == [] && m_body == "" && m_request_data == "" && !m_request_composed
      ensures base.Valid()
      ensures var refused := !url.m_valid
          || (url.m_scheme !in {"http", "https"} && url.m_port != 80 && url.m_port != 443);
        m_headers.m_headers == (if refused then [] else [Headers.Header("host", url.m_host)])
        && m_ssl == (!refused && Memory16(url.m_port) == [1, 187])
        && base.m_error == (if refused then Some(BadUrl) else old(base.m_error))
        && base.m_status == (if refused then Error else old(base.m_status))
      // So TLS follows from the scheme of a parsed URL.
      ensures forall s :: url.Parts() == Urls.ParsedUrl(s) && url.m_valid ==>
        (url.m_scheme == "https" ==> m_ssl) && (url.m_scheme == "http" ==> !m_ssl)
    {
      this.base := base;
      this.kind := kind;
      m_request_name := RequestName(kind);
      m_url := url;
      m_headers := new Headers.HttpHeaders();
      m_params := new Params();
      m_body, m_request_data, m_request_composed, m_ssl := "", "", false, false;
      new;
      PortNames(m_url.m_port);
      if !m_url.m_valid || (m_url.m_scheme != "http" && m_url.m_scheme != "https"
        && PortName(m_url.m_port) != "80" && PortName(m_url.m_port) != "443")
      {
        base.SetError(BadUrl);
        return;
      }
      m_headers.AddHeader(Headers.Header("host", m_url.m_host));
      Urls.PortBytes(m_url.m_port);
      if Swap16(m_url.m_port) == 443 {
        m_ssl := true;
      }
      forall s | url.Parts() == Urls.ParsedUrl(s) ensures url.m_scheme == "https" ==> Memory16(url.m_port) == [1, 187]
        ensures url.m_scheme == "http" ==> Memory16(url.m_port) == [0, 80]
      {
        Urls.ParsedPort(s);
      }
    }

    method AddHeader(header: Header)
      modifies m_headers
      ensures m_headers.m_headers == old(m_headers.m_headers) + if header.name == "" then [] else [header]
    {
      if header.name == "" {
        return;
      }
      m_headers.AddHeader(header);
    }

    method AddParam(parameter: Parameter)
      requires Valid()
      modifies m_params
      ensures Valid()
      ensures m_params.m_params == old(m_params.m_params) + if parameter.name == "" then [] else [parameter]
    {
      if parameter.name == "" {
        return;
      }
      m_params.AddParameter(parameter);
    }

    method SetBody(body: string)
      modifies this`m_body
      ensures m_body == body
    {
      m_body := body;
    }

    /** What composing adds, and all that is sent. */
    function Message(): string
      reads this, m_url, m_url.m_params, m_params, m_headers
    {
      var hs, ps := m_headers.m_headers, m_params.m_params;
      if kind == Get then GetMessage(m_url.m_path, ps, Print(m_url.m_params.m_params), hs)
      else
        var body := BodyText(m_body, ps, hs);
        BodyMessage(kind, m_url.m_path, hs + [LengthHeader(body)], body)
    }

    function Data(): string
      reads this, m_url, m_url.m_params, m_params, m_headers
    {
      m_request_data + if m_request_composed then "" else Message()
    }

    /** A composed request is left alone; so preparing twice is preparing once. */
    method PrepareRequest()
      requires Valid()
      modifies this`m_request_data, this`m_body, this`m_request_composed, m_headers
      ensures Valid() && m_request_composed && m_request_data == old(Data())
      ensures old(m_request_composed) ==>
        m_request_data == old(m_request_data) && m_body == old(m_body)
        && m_headers.m_headers == old(m_headers.m_headers)
      ensures !old(m_request_composed) && kind == Get ==>
        m_request_data == old(m_request_data) + GetMessage(m_url.m_path, m_params.m_params,
          Print(m_url.m_params.m_params), m_headers.m_headers)
        && m_body == old(m_body) && m_headers.m_headers == old(m_headers.m_headers)
      ensures !old(m_request_composed) && kind != Get ==>
        m_body == BodyText(old(m_body), m_params.m_params, old(m_headers.m_headers))
        && m_headers.m_headers == old(m_headers.m_headers) + [LengthHeader(m_body)]
        && m_request_data == old(m_request_data) + BodyMessage(kind, m_url.m_path, m_headers.m_headers, m_body)
    {
      hide GetMessage, BodyMessage, BodyText, LengthHeader;
      if kind == Get {
        PrepareGet();
      } else {
        PrepareWithBody();
      }
    }

    /** The request line up to the path. */
    method AppendTarget()
      requires Valid()
      modifies this`m_request_data
      ensures m_request_data == old(m_request_data) + (RequestName(kind) + Target(m_url.m_path))
    {
      m_request_data := m_request_data + m_request_name;
      if m_url.m_path == "" || m_url.m_path[0] != '/' {
        m_request_data := m_request_data + "/";
      }
      m_request_data := m_request_data + m_url.m_path;
    }

    method AppendGetPair(p: Parameter, first: bool)
      modifies this`m_request_data
      ensures m_request_data == old(m_request_data) + (Separator(first) + GetPair(p))
    {
      if !first {
        m_request_data := m_request_data + "&";
      }
      m_request_data := m_request_data + p.name;
      assert m_request_data == old(m_request_data) + (Separator(first) + p.name);
      if p.value != "" {
        m_request_data := m_request_data + "=";
        var encodedValue := Percent.EncodeUrl(p.value);
        m_request_data := m_request_data + encodedValue;
      }
    }

    method AppendGetPairs()
      modifies this`m_request_data
      ensures m_request_data == old(m_request_data) + GetPairs(m_params.m_params)
    {
      var paramCount := 0;
      var ps := m_params.m_params;
      for i := 0 to |ps|
        invariant paramCount == i
        invariant m_request_data == old(m_request_data) + GetPairs(ps[..i])
      {
        AppendGetPair(ps[i], paramCount == 0);
        paramCount := paramCount + 1;
        GetPairsStep(old(m_request_data), ps, i);
      }
      assert ps[..|ps|] == ps;
    }

    method AppendHeader(h: Header, encode: bool)
      modifies this`m_request_data
      ensures m_request_data == old(m_request_data) + Headers.PrintHeader(if encode then Encoded(h) else h)
    {
      m_request_data := m_request_data + h.name;
      m_request_data := m_request_data + ":";
      var value := h.value;
      if encode {
        value := Percent.EncodeUrl(value);
      }
      m_request_data := m_request_data + value;
      m_request_data := m_request_data + CRLF;
    }

    /** Every header on its line; a GET request encodes the values. */
    method AppendHeaders(encode: bool)
      modifies this`m_request_data
      ensures m_request_data == old(m_request_data) +
        Headers.Print(if encode then EncodedHeaders(m_headers.m_headers) else m_headers.m_headers)
    {
      var hs := m_headers.m_headers;
      ghost var printed := if encode then EncodedHeaders(hs) else hs;
      for i := 0 to |hs|
        invariant m_request_data == old(m_request_data) + Headers.Print(printed[..i])
      {
        AppendHeader(hs[i], encode);
        HeadersStep(old(m_request_data), printed, i);
      }
      assert printed[..|hs|] == printed;
    }

    method AppendGetQuery()
      modifies this`m_request_data
      ensures m_request_data == old(m_request_data) +
        GetQueryPart(m_params.m_params, Print(m_url.m_params.m_params))
    {
      ghost var ps, urlQuery := m_params.m_params, Print(m_url.m_params.m_params);
      if m_params.m_params != [] {
        m_request_data := m_request_data + "?";
        AppendGetPairs();
      }
      ghost var own := m_request_data;
      assert own == old(m_request_data) + (if ps == [] then "" else "?" + GetPairs(ps));
      var query := m_url.Query();
      if query != "" {
        m_request_data := m_request_data + (if m_params.m_params != [] then "&" else "?");
        m_request_data := m_request_data + query;
      }
      assert m_request_data == own + (if urlQuery == "" then "" else (if ps == [] then "?" else "&") + urlQuery);
      GetQueryPieces(old(m_request_data), ps, urlQuery);
    }

    method PrepareGet()
      requires Valid() && kind == Get
      modifies this`m_request_data, this`m_request_composed
      ensures m_request_composed
      ensures m_request_data == old(m_request_data) +
        if old(m_request_composed) then ""
        else GetMessage(m_url.m_path, m_params.m_params, Print(m_url.m_params.m_params), m_headers.m_headers)
    {
      if m_request_composed {
        return;
      }
      ghost var path, ps, urlQuery := m_url.m_path, m_params.m_params, Print(m_url.m_params.m_params);
      ghost var hs := m_headers.m_headers;
      GetMessagePieces(m_request_data, path, ps, urlQuery, hs);
      AppendTarget();
      AppendGetQuery();
      m_request_data := m_request_data + (VERSION + CRLF);
      AppendHeaders(true);
      m_request_data := m_request_data + CRLF;
      assert m_request_data == old(m_request_data) + GetMessage(path, ps, urlQuery, hs);
      m_request_composed := true;
    }

    method AppendFormPair(p: Parameter, first: bool)
      modifies this`m_body
      ensures m_body == old(m_body) +
        (Separator(first) + FormPair(p, Headers.Lookup(m_headers.m_headers, CONTENT_TYPE)))
    {
      if !first {
        m_body := m_body + "&";
      }
      m_body := m_body + p.name;
      m_body := m_body + "=";
      assert m_body == old(m_body) + (Separator(first) + (p.name + "="));
      var contentType := m_headers.HeaderValue(CONTENT_TYPE);
      if contentType == Some(FORM) {
        var encodedValue := Percent.EncodeUrl(p.value);
        m_body := m_body + encodedValue;
      } else if contentType != Some(MULTIPART) {
        m_body := m_body + p.value;
      }
    }

    method AppendFormPairs()
      modifies this`m_body
      ensures m_body == old(m_body) + FormPairs(m_params.m_params, Headers.Lookup(m_headers.m_headers, CONTENT_TYPE))
    {
      var paramCount := 0;
      var ps := m_params.m_params;
      for i := 0 to |ps|
        invariant paramCount == i
        invariant m_body == old(m_body) + FormPairs(ps[..i], Headers.Lookup(m_headers.m_headers, CONTENT_TYPE))
      {
        AppendFormPair(ps[i], paramCount == 0);
        paramCount := paramCount + 1;
        FormPairsStep(old(m_body), ps, i, Headers.Lookup(m_headers.m_headers, CONTENT_TYPE));
      }
      assert ps[..|ps|] == ps;
    }

    method PrepareWithBody()
      requires Valid() && kind != Get
      modifies this`m_request_data, this`m_body, this`m_request_composed, m_headers
      ensures m_request_composed
      ensures old(m_request_composed) ==>
        m_request_data == old(m_request_data) && m_body == old(m_body)
        && m_headers.m_headers == old(m_headers.m_headers)
      ensures !old(m_request_composed) ==>
        m_body == BodyText(old(m_body), m_params.m_params, old(m_headers.m_headers))
        && m_headers.m_headers == old(m_headers.m_headers) + [LengthHeader(m_body)]
        && m_request_data == old(m_request_data) + BodyMessage(kind, m_url.m_path, m_headers.m_headers, m_body)
    {
      if m_request_composed {
        return;
      }
      hide BodyMessage, FormPairs, Headers.Lookup, Decimal;
      if m_body == "" && m_params.m_params != [] {
        AppendFormPairs();
      }
      m_headers.AddHeader(Headers.Header(CONTENT_LENGTH, Decimal(|m_body|)));
      AppendMessage();
      m_request_composed := true;
    }

    /** Line, headers, blank line and body. */
    method AppendMessage()
      requires Valid()
      modifies this`m_request_data
      ensures m_request_data == old(m_request_data) + BodyMessage(kind, m_url.m_path, m_headers.m_headers, m_body)
    {
      hide BodyMessage, Headers.Print, Target;
      ghost var start := m_request_data;
      AppendTarget();
      m_request_data := m_request_data + (VERSION + CRLF);
      AppendHeaders(false);
      m_request_data := m_request_data + CRLF;
      if m_body != "" {
        m_request_data := m_request_data + m_body;
      }
      BodyMessagePieces(start, kind, m_url.m_path, m_headers.m_headers, m_body);
    }
  }

  /** Url::port(). */
  function PortName(port: nat): string {
    if port == 0 then "" else Decimal(port)
  }

  lemma PortNames(port: nat)
    ensures PortName(port) == "80" <==> port == 80
    ensures PortName(port) == "443" <==> port == 443
  {
    DecimalValue(port);
    assert Decimal(80) == "80";
    assert Decimal(443) == Decimal(44) + "3" == "443";
    DecimalValue(80);
    DecimalValue(443);
  }

  lemma {:induction false} PrintAppendHeader(hs: seq<Header>, h: Header)
    ensures Headers.Print(hs + [h]) == Headers.Print(hs) + Headers.PrintHeader(h)
  {
    if hs == [] {
      assert hs + [h] == [h] && [h][1..] == [];
    } else {
      assert (hs + [h])[1..] == hs[1..] + [h];
      PrintAppendHeader(hs[1..], h);
    }
  }

  lemma GetPairsStep(start: string, ps: seq<Parameter>, i: nat)
    requires i < |ps|
    ensures start + GetPairs(ps[..i]) + (Separator(i == 0) + GetPair(ps[i])) == start + GetPairs(ps[..i + 1])
  {
    hide GetPair;
    var pair := GetPair(ps[i]);
    assert ps[..i + 1][..i] == ps[..i];
    Associative(start, GetPairs(ps[..i]), Separator(i == 0) + pair);
    Associative(GetPairs(ps[..i]), Separator(i == 0), pair);
    assert i == 0 ==> GetPairs(ps[..i]) == "" && "" + "" + pair == pair;
  }

  lemma FormPairsStep(start: string, ps: seq<Parameter>, i: nat, t: Option<string>)
    requires i < |ps|
    ensures start + FormPairs(ps[..i], t) + (Separator(i == 0) + FormPair(ps[i], t))
      == start + FormPairs(ps[..i + 1], t)
  {
    hide FormPair;
    var pair := FormPair(ps[i], t);
    assert ps[..i + 1][..i] == ps[..i];
    Associative(start, FormPairs(ps[..i], t), Separator(i == 0) + pair);
    Associative(FormPairs(ps[..i], t), Separator(i == 0), pair);
    assert i == 0 ==> FormPairs(ps[..i], t) == "" && "" + "" + pair == pair;
  }

  lemma HeadersStep(start: string, hs: seq<Header>, i: nat)
    requires i < |hs|
    ensures start + Headers.Print(hs[..i]) + Headers.PrintHeader(hs[i]) == start + Headers.Print(hs[..i + 1])
  {
    PrintAppendHeader(hs[..i], hs[i]);
    assert hs[..i + 1] == hs[..i] + [hs[i]];
  }

  lemma GetQueryPieces(start: string, ps: seq<Parameter>, urlQuery: string)
    ensures start + (if ps == [] then "" else "?" + GetPairs(ps))
      + (if urlQuery == "" then "" else (if ps == [] then "?" else "&") + urlQuery)
      == start + GetQueryPart(ps, urlQuery)
  {
    var own := GetPairs(ps);
    assert ps == [] ==> own == "";
    hide GetPairs;
    if ps == [] {
      assert start + "" == start && "" + urlQuery == urlQuery;
      assert urlQuery != "" ==> GetQuery(ps, urlQuery) == "" + ("" + urlQuery);
    } else {
      var more := if urlQuery == "" then "" else "&" + urlQuery;
      assert GetQuery(ps, urlQuery) == own + more;
      Associative(start, "?" + own, more);
      Associative("?", own, more);
    }
  }

  lemma GetMessagePieces(start: string, path: string, ps: seq<Parameter>, urlQuery: string, hs: seq<Header>)
    ensures start + (RequestName(Get) + Target(path)) + GetQueryPart(ps, urlQuery)
      + (VERSION + CRLF) + Headers.Print(EncodedHeaders(hs)) + CRLF
      == start + GetMessage(path, ps, urlQuery, hs)
  {
    var line, block := RequestName(Get) + Target(path) + GetQueryPart(ps, urlQuery), Headers.Print(EncodedHeaders(hs));
    Associative(start, RequestName(Get) + Target(path), GetQueryPart(ps, urlQuery));
    hide GetQueryPart, Target, EncodedHeaders, RequestName;
    Regrouped(start, line, block, "");
  }

  /** The pieces of a message appended one by one. */
  lemma Regrouped(start: string, line: string, block: string, body: string)
    ensures start + line + (VERSION + CRLF) + block + CRLF == start + (line + VERSION + CRLF + block + CRLF)
    ensures start + line + (VERSION + CRLF) + block + CRLF + body
      == start + (line + VERSION + CRLF + block + CRLF + body)
  {
    Associative(start, line, VERSION + CRLF);
    Associative(line, VERSION, CRLF);
    Associative(start, line + VERSION + CRLF, block);
    Associative(start, line + VERSION + CRLF + block, CRLF);
    Associative(start, line + VERSION + CRLF + block + CRLF, body);
  }

  lemma BodyMessagePieces(start: string, m: Method, path: string, hs: seq<Header>, body: string)
    ensures start + (RequestName(m) + Target(path)) + (VERSION + CRLF) + Headers.Print(hs) + CRLF + body
      == start + BodyMessage(m, path, hs, body)
  {
    hide RequestName, Target;
    Regrouped(start, RequestName(m) + Target(path), Headers.Print(hs), body);
  }
}
