/** HTTP header lines and blocks: the Header and HttpHeaders parsers of header.cpp. */
module Headers {
  import opened Text

  datatype Header = Header(name: string, value: string)

  /** A line ends at the first '\n' that has a '\r' somewhere before it. */
  function LineEnd(data: string): (e: nat)
    ensures e <= |data|
    ensures e < |data| ==> data[e] == '\n'
  {
    var k := Find(data, {'\r'});
    k + Find(data[k..], {'\n'})
  }

  /** The line without its end and without any '\r' ... */
  function LineText(data: string): string {
    Without(data[..LineEnd(data)], '\r')
  }

  /** ... and what follows it. */
  function AfterLine(data: string): (rest: string)
    ensures data != "" ==> |rest| < |data|
  {
    var e := LineEnd(data);
    if e < |data| then data[e + 1..] else ""
  }

  /** The header a line stands for: split at the first ':', leading spaces of the value dropped. */
  function HeaderOf(text: string): Header {
    var k := Find(text, {':'});
    Header(text[..k], if k < |text| then TrimLeft(text[k + 1..], ' ') else "")
  }

  /** A bare '\n' before the value has begun. */
  predicate Malformed(h: Header) {
    '\n' in h.name || (h.value != "" && h.value[0] == '\n')
  }

  /** The headers of a block, or Thrown when one line is malformed. */
  function HeadersOf(data: string): Result<seq<Header>>
    decreases |data|
  {
    if data == "" then Ok([])
    else if Malformed(HeaderOf(LineText(data))) then Thrown
    else Prepend([HeaderOf(LineText(data))], HeadersOf(AfterLine(data)))
  }

  function Prepend(hs: seq<Header>, r: Result<seq<Header>>): Result<seq<Header>> {
    match r
    case Ok(more) => Ok(hs + more)
    case Thrown => Thrown
  }

  lemma PrependNothing(r: Result<seq<Header>>)
    ensures Prepend([], r) == r
  {
    if r.Ok? {
      assert [] + r.value == r.value;
    }
  }

  lemma PrependTwice(a: seq<Header>, b: seq<Header>, r: Result<seq<Header>>)
    ensures Prepend(a, Prepend(b, r)) == Prepend(a + b, r)
  {
    if r.Ok? {
      assert a + (b + r.value) == a + b + r.value;
    }
  }

  function PrintHeader(h: Header): string {
    h.name + ":" + h.value + CRLF
  }

  function Print(hs: seq<Header>): string {
    if hs == [] then "" else PrintHeader(hs[0]) + Print(hs[1..])
  }

  /** The headers a printed line can carry. */
  predicate Printable(h: Header) {
    && ':' !in h.name && '\r' !in h.name && '\n' !in h.name
    && '\r' !in h.value
    && (h.value != "" ==> h.value[0] != ' ' && h.value[0] != '\n')
  }

  predicate AllPrintable(hs: seq<Header>) {
    forall i :: 0 <= i < |hs| ==> Printable(hs[i])
  }

  function Upper(c: char): char {
    if 'a' <= c <= 'z' then (c as int - 32) as char else c
  }

  /** capitalizeByWord of the utility library: the first letter and every letter behind a separator. */
  function CapitalizeByWord(s: string, separator: char): (r: string)
    ensures |r| == |s|
    ensures forall i :: 0 <= i < |s| ==> r[i] == if i == 0 || s[i - 1] == separator then Upper(s[i]) else s[i]
  {
    seq(|s|, i requires 0 <= i < |s| => if i == 0 || s[i - 1] == separator then Upper(s[i]) else s[i])
  }

  predicate Named(h: Header, name: string) {
    h.name == name || h.name == CapitalizeByWord(name, '-')
  }

  /** The value of the first header called `name`, in lower case or capitalized word by word. */
  function Lookup(hs: seq<Header>, name: string): Option<string> {
    if hs == [] then None
    else if Named(hs[0], name) then Some(hs[0].value)
    else Lookup(hs[1..], name)
  }

  /** Where the first header with one of these names stands; |hs| without one. */
  function Position(hs: seq<Header>, names: set<string>): (k: nat)
    ensures k <= |hs| && (k < |hs| ==> hs[k].name in names)
    ensures forall i :: 0 <= i < k ==> hs[i].name !in names
  {
    if hs == [] || hs[0].name in names then 0 else 1 + Position(hs[1..], names)
  }

  /** Looking up finds the first header with the name in either spelling. */
  lemma {:induction false} LookupFirst(hs: seq<Header>, name: string)
    ensures var k := Position(hs, {name, CapitalizeByWord(name, '-')});
      Lookup(hs, name) == if k < |hs| then Some(hs[k].value) else None
  {
    if hs != [] {
      LookupFirst(hs[1..], name);
    }
  }

  /** The spellings of the names that are looked up. */
  lemma Spellings()
    ensures CapitalizeByWord("content-length", '-') == "Content-Length"
    ensures CapitalizeByWord("content-type", '-') == "Content-Type"
    ensures CapitalizeByWord("transfer-encoding", '-') == "Transfer-Encoding"
  {
    TransferEncodingSpelled();
    ContentLengthSpelled();
  }

  lemma TransferEncodingSpelled()
    ensures CapitalizeByWord("transfer-encoding", '-') == "Transfer-Encoding"
  {
  }

  lemma ContentLengthSpelled()
    ensures CapitalizeByWord("content-length", '-') == "Content-Length"
  {
  }

  lemma LineEndAppend(data: string, c: char)
    requires LineEnd(data) == |data|
    ensures LineEnd(data + [c]) == if '\r' in data && c == '\n' then |data| else |data| + 1
  {
    var k := Find(data, {'\r'});
    if k < |data| {
      FindInPrefix(data, [c], {'\r'});
      assert (data + [c])[k..] == data[k..] + [c];
      assert forall x :: x in data[k..] ==> x != '\n';
      FindAcross(data[k..], [c], {'\n'});
      assert Find([c], {'\n'}) == if c == '\n' then 0 else 1 + Find([c][1..], {'\n'});
    } else {
      FindAcross(data, [c], {'\r'});
      assert Find([c], {'\r'}) == if c == '\r' then 0 else 1 + Find([c][1..], {'\r'});
      if c == '\r' {
        assert (data + [c])[k..] == [c];
        assert Find([c], {'\n'}) == 1 + Find([c][1..], {'\n'});
      }
    }
  }

  lemma LineEndFound(data: string, e: nat)
    requires e < |data| && LineEnd(data[..e]) == e && '\r' in data[..e] && data[e] == '\n'
    ensures LineEnd(data) == e
  {
    var line := data[..e];
    var k := Find(line, {'\r'});
    assert data == line + data[e..];
    FindInPrefix(line, data[e..], {'\r'});
    assert data[k..] == line[k..] + data[e..];
    assert forall x :: x in line[k..] ==> x != '\n';
    FindAcross(line[k..], data[e..], {'\n'});
  }

  /** A prefix without a line end is a prefix of the line. */
  lemma LineEndBeyond(data: string, e: nat)
    requires e <= |data| && LineEnd(data[..e]) == e
    ensures e <= LineEnd(data)
    decreases |data| - e
  {
    if e < |data| {
      LineEndAppend(data[..e], data[e]);
      assert data[..e + 1] == data[..e] + [data[e]];
      if '\r' in data[..e] && data[e] == '\n' {
        LineEndFound(data, e);
      } else {
        LineEndBeyond(data, e + 1);
      }
    } else {
      assert data[..e] == data;
    }
  }

  lemma HeaderOfAppend(text: string, c: char)
    ensures HeaderOf(text + [c]) ==
      var h := HeaderOf(text);
      if ':' !in text then (if c == ':' then h else Header(h.name + [c], h.value))
      else if h.value == "" && c == ' ' then h
      else Header(h.name, h.value + [c])
  {
    hide HeaderOf;
    if ':' in text {
      ValueAppend(text, c);
    } else {
      NameAppend(text, c);
    }
  }

  lemma ValueAppend(text: string, c: char)
    requires ':' in text
    ensures var h := HeaderOf(text);
      HeaderOf(text + [c]) == if h.value == "" && c == ' ' then h else Header(h.name, h.value + [c])
  {
    var k, longer := Find(text, {':'}), text + [c];
    FindInPrefix(text, [c], {':'});
    assert longer[..k] == text[..k] && longer[k + 1..] == text[k + 1..] + [c];
    TrimLeftAppend(text[k + 1..], c, ' ');
  }

  lemma NameAppend(text: string, c: char)
    requires ':' !in text
    ensures var h := HeaderOf(text);
      h.value == "" && HeaderOf(text + [c]) == if c == ':' then h else Header(h.name + [c], h.value)
  {
    var longer := text + [c];
    FindUnique(text, {':'}, |text|);
    assert text[..|text|] == text;
    if c == ':' {
      FindUnique(longer, {':'}, |text|);
      assert longer[..|text|] == text && longer[|text| + 1..] == "";
    } else {
      FindUnique(longer, {':'}, |longer|);
      assert longer[..|longer|] == longer;
    }
  }

  lemma {:induction false} MalformedGrows(text: string, more: string)
    requires Malformed(HeaderOf(text))
    ensures Malformed(HeaderOf(text + more))
    decreases |more|
  {
    if more == "" {
      assert text + more == text;
    } else {
      HeaderOfAppend(text, more[0]);
      MalformedGrows(text + [more[0]], more[1..]);
      assert text + [more[0]] + more[1..] == text + more;
    }
  }

  /** What the Header constructor has read: no line end yet, and `text` once every '\r' is dropped. */
  ghost predicate Seen(seen: string, text: string, carriageReturn: bool) {
    LineEnd(seen) == |seen| && text == Without(seen, '\r') && (carriageReturn <==> '\r' in seen)
  }

  /** What its name, value and flags say about `text`. */
  ghost predicate Scanned(text: string, h: Header, nameParsed: bool, valueBegun: bool) {
    h == HeaderOf(text) && !Malformed(h) && (nameParsed <==> ':' in text) && (valueBegun <==> h.value != "")
  }

  lemma NothingRead()
    ensures Seen("", "", false) && Scanned("", Header("", ""), false, false)
  {
  }

  lemma LineScanned(text: string, h: Header, nameParsed: bool, valueBegun: bool)
    requires Scanned(text, h, nameParsed, valueBegun)
    ensures h == HeaderOf(text) && !Malformed(h)
  {
  }

  /** The line is complete: at its end, or at the end of the data. */
  lemma LineAccepted(data: string, begin: nat, end: nat, text: string, carriageReturn: bool)
    requires begin <= end <= |data| && Seen(data[begin..end], text, carriageReturn)
    requires end < |data| ==> data[end] == '\n' && carriageReturn
    ensures LineText(data[begin..]) == text
    ensures AfterLine(data[begin..]) == data[if end < |data| then end + 1 else end..]
  {
    var rest, e := data[begin..], end - begin;
    assert rest[..e] == data[begin..end];
    if end < |data| {
      LineEndFound(rest, e);
      assert rest[e + 1..] == data[end + 1..];
    } else {
      assert rest[..e] == rest;
    }
  }

  /** A malformed beginning makes the whole line malformed. */
  lemma LineRejected(data: string, begin: nat, end: nat, text: string, carriageReturn: bool)
    requires begin <= end <= |data| && Seen(data[begin..end], text, carriageReturn)
    requires Malformed(HeaderOf(text))
    ensures Malformed(HeaderOf(LineText(data[begin..])))
  {
    hide HeaderOf, Malformed, LineEnd;
    var rest, seen := data[begin..], data[begin..end];
    assert rest[..|seen|] == seen;
    LineEndBeyond(rest, |seen|);
    var more := rest[|seen|..LineEnd(rest)];
    assert rest[..LineEnd(rest)] == seen + more;
    WithoutConcat(seen, more, '\r');
    MalformedGrows(text, Without(more, '\r'));
  }

  lemma SeenStep(seen: string, text: string, carriageReturn: bool, c: char) returns (more: string)
    requires Seen(seen, text, carriageReturn) && !(carriageReturn && c == '\n')
    ensures more == seen + [c]
    ensures Seen(more, if c == '\r' then text else text + [c], carriageReturn || c == '\r')
  {
    more := seen + [c];
    LineEndAppend(seen, c);
    WithoutConcat(seen, [c], '\r');
    assert Without([c], '\r') == (if c == '\r' then [] else [c]) + Without([c][1..], '\r');
    assert text + [] == text;
  }

  lemma ScanName(text: string, h: Header, valueBegun: bool, c: char)
    requires Scanned(text, h, false, valueBegun)
    ensures !valueBegun
    ensures c == ':' ==> Scanned(text + [c], h, true, false)
    ensures c == '\n' ==> Malformed(HeaderOf(text + [c]))
    ensures c != ':' && c != '\n' ==> Scanned(text + [c], Header(h.name + [c], h.value), false, false)
  {
    HeaderOfAppend(text, c);
  }

  lemma ScanValue(text: string, h: Header, valueBegun: bool, c: char)
    requires Scanned(text, h, true, valueBegun)
    ensures !valueBegun && c == ' ' ==> Scanned(text + [c], h, true, false)
    ensures !valueBegun && c == '\n' ==> Malformed(HeaderOf(text + [c]))
    ensures valueBegun || (c != ' ' && c != '\n') ==> Scanned(text + [c], Header(h.name, h.value + [c]), true, true)
  {
    HeaderOfAppend(text, c);
  }

  /** The Header constructor: `next` is where it leaves the shared iterator. */
  method ParseHeader(data: string, begin: nat) returns (r: Result<Header>, next: nat)
    requires begin <= |data|
    ensures r == (var h := HeaderOf(LineText(data[begin..])); if Malformed(h) then Thrown else Ok(h))
    ensures begin <= next <= |data| && (r.Ok? ==> data[next..] == AfterLine(data[begin..]))
    ensures r.Ok? && begin < |data| ==> begin < next
  {
    hide Seen, Scanned, HeaderOf, LineText, AfterLine;
    NothingRead();
    var name, value := "", "";
    var nameParsed, valueBegun, carriageReturn := false, false, false;
    ghost var seen, text := "", "";
    next := begin;
    while next < |data|
      invariant begin <= next <= |data|
      invariant seen == data[begin..next] && Seen(seen, text, carriageReturn)
      invariant Scanned(text, Header(name, value), nameParsed, valueBegun)
    {
      var c := data[next];
      SliceAppend(data, begin, next);
      if c == ':' {
        if !nameParsed {
          seen := SeenStep(seen, text, carriageReturn, c);
          ScanName(text, Header(name, value), valueBegun, c);
          text := text + [c];
          nameParsed := true;
          next := next + 1;
          continue;
        }
      }
      if c == '\r' {
        seen := SeenStep(seen, text, carriageReturn, c);
        carriageReturn := true;
        next := next + 1;
        continue;
      }
      if c == ' ' && nameParsed && !valueBegun {
        seen := SeenStep(seen, text, carriageReturn, c);
        ScanValue(text, Header(name, value), valueBegun, c);
        text := text + [c];
        next := next + 1;
        continue;
      }
      if c == '\n' {
        if carriageReturn {
          LineAccepted(data, begin, next, text, carriageReturn);
          LineScanned(text, Header(name, value), nameParsed, valueBegun);
          next := next + 1;
          return Ok(Header(name, value)), next;
        }
        if !valueBegun {
          seen := SeenStep(seen, text, carriageReturn, c);
          if nameParsed {
            ScanValue(text, Header(name, value), valueBegun, c);
          } else {
            ScanName(text, Header(name, value), valueBegun, c);
          }
          LineRejected(data, begin, next + 1, text + [c], carriageReturn);
          return Thrown, next;
        }
      }
      seen := SeenStep(seen, text, carriageReturn, c);
      if nameParsed {
        ScanValue(text, Header(name, value), valueBegun, c);
      } else {
        ScanName(text, Header(name, value), valueBegun, c);
      }
      text := text + [c];
      if nameParsed && !valueBegun {
        valueBegun := true;
      }
      if valueBegun {
        value := value + [c];
      } else {
        name := name + [c];
      }
      next := next + 1;
    }
    LineAccepted(data, begin, next, text, carriageReturn);
    LineScanned(text, Header(name, value), nameParsed, valueBegun);
    r := Ok(Header(name, value));
  }

  class HttpHeaders {
    var m_headers: seq<Header>

    constructor ()
      ensures m_headers == []
    {
      m_headers := [];
    }

    /** HttpHeaders(std::string_view); every accepted line consumes at least one character. */
    static method Parse(data: string) returns (r: Result<HttpHeaders>)
      ensures r.Thrown? <==> HeadersOf(data).Thrown?
      ensures r.Ok? ==> fresh(r.value) && r.value.m_headers == HeadersOf(data).value
    {
      var headers: seq<Header> := [];
      var iter := 0;
      assert data[0..] == data;
      PrependNothing(HeadersOf(data));
      while iter < |data|
        invariant 0 <= iter <= |data|
        invariant HeadersOf(data) == Prepend(headers, HeadersOf(data[iter..]))
      {
        ghost var rest := data[iter..];
        var header, next := ParseHeader(data, iter);
        assert HeadersOf(rest) ==
          if header.Thrown? then Thrown else Prepend([header.value], HeadersOf(data[next..]));
        if header.Thrown? {
          return Thrown;
        }
        PrependTwice(headers, [header.value], HeadersOf(data[next..]));
        headers := headers + [header.value];
        iter := next;
      }
      var result := new HttpHeaders();
      result.m_headers := headers;
      r := Ok(result);
    }

    method AddHeader(h: Header)
      modifies this
      ensures m_headers == old(m_headers) + [h]
    {
      m_headers := m_headers + [h];
    }

    method HeaderValue(name: string) returns (value: Option<string>)
      ensures value == Lookup(m_headers, name)
    {
      for i := 0 to |m_headers|
        invariant Lookup(m_headers, name) == Lookup(m_headers[i..], name)
      {
        if m_headers[i].name == name || m_headers[i].name == CapitalizeByWord(name, '-') {
          return Some(m_headers[i].value);
        }
      }
      return None;
    }
  }

  lemma PrintedLineEnd(text: string, rest: string)
    requires '\r' !in text
    ensures LineText(text + CRLF + rest) == text && AfterLine(text + CRLF + rest) == rest
  {
    var data := text + CRLF + rest;
    assert data == text + (CRLF + rest);
    FindUnique(data, {'\r'}, |text|);
    assert data[|text|..] == "\r" + ("\n" + rest);
    FindUnique(data[|text|..], {'\n'}, 1);
    assert data[..|text| + 1] == text + "\r";
    WithoutConcat(text, "\r", '\r');
    WithoutAbsent(text, '\r');
    assert Without("\r", '\r') == [];
    assert data[|text| + 2..] == rest;
  }

  lemma HeaderOfPrinted(h: Header)
    requires Printable(h)
    ensures HeaderOf(h.name + ":" + h.value) == h
  {
    var text := h.name + ":" + h.value;
    FindUnique(text, {':'}, |h.name|);
    assert text[..|h.name|] == h.name && text[|h.name| + 1..] == h.value;
  }

  lemma PrintedLine(h: Header, rest: string)
    requires Printable(h)
    ensures HeadersOf(PrintHeader(h) + rest) == Prepend([h], HeadersOf(rest))
  {
    PrintedLineEnd(h.name + ":" + h.value, rest);
    HeaderOfPrinted(h);
  }

  lemma PrintCons(hs: seq<Header>, rest: string)
    requires hs != []
    ensures Print(hs) + rest == PrintHeader(hs[0]) + (Print(hs[1..]) + rest)
  {
    hide PrintHeader;
    Associative(PrintHeader(hs[0]), Print(hs[1..]), rest);
  }

  lemma {:induction false} ParsePrint(hs: seq<Header>, rest: string)
    requires AllPrintable(hs)
    ensures HeadersOf(Print(hs) + rest) == Prepend(hs, HeadersOf(rest))
  {
    hide HeadersOf, PrintHeader, Printable, Prepend;
    if hs == [] {
      assert Print(hs) + rest == rest;
      PrependNothing(HeadersOf(rest));
    } else {
      var tail := Print(hs[1..]) + rest;
      PrintCons(hs, rest);
      PrintedLine(hs[0], tail);
      ParsePrint(hs[1..], rest);
      PrependTwice([hs[0]], hs[1..], HeadersOf(rest));
      assert [hs[0]] + hs[1..] == hs;
    }
  }

  /** The blank line that ends a header block is read as one more, empty header. */
  lemma BlankLineIsEmptyHeader(hs: seq<Header>)
    requires AllPrintable(hs)
    ensures HeadersOf(Print(hs)) == Ok(hs)
    ensures HeadersOf(Print(hs) + CRLF) == Ok(hs + [Header("", "")])
  {
    ParsePrint(hs, "");
    assert Print(hs) + "" == Print(hs) && hs + [] == hs;
    ParsePrint(hs, CRLF);
    PrintedLineEnd("", "");
    assert "" + CRLF + "" == CRLF;
    assert HeaderOf("") == Header("", "");
    var blank := [Header("", "")];
    assert HeadersOf("") == Ok([]) && blank + [] == blank;
    assert HeadersOf(CRLF) == Prepend(blank, HeadersOf("")) == Ok(blank);
  }

  lemma HeaderOfIsPrintable(text: string)
    requires '\r' !in text && !Malformed(HeaderOf(text))
    ensures Printable(HeaderOf(text))
  {
    var k := Find(text, {':'});
    assert forall x :: x in text[..k] ==> x in text;
    if k < |text| {
      TrimLeftMembers(text[k + 1..], ' ');
      assert forall x :: x in text[k + 1..] ==> x in text;
    }
  }

  lemma {:induction false} ParsedIsPrintable(data: string)
    requires HeadersOf(data).Ok?
    ensures AllPrintable(HeadersOf(data).value)
    decreases |data|
  {
    if data != "" {
      WithoutMember(data[..LineEnd(data)], '\r', '\r');
      HeaderOfIsPrintable(LineText(data));
      ParsedIsPrintable(AfterLine(data));
    }
  }

  /** A header list survives printing and parsing exactly when every header is printable. */
  lemma ParsePrintIff(hs: seq<Header>)
    ensures HeadersOf(Print(hs)) == Ok(hs) <==> AllPrintable(hs)
  {
    if AllPrintable(hs) {
      BlankLineIsEmptyHeader(hs);
    } else if HeadersOf(Print(hs)) == Ok(hs) {
      ParsedIsPrintable(Print(hs));
    }
  }
}
