/** Query strings: the Parameter and Params parsers of param.cpp and the text they mean. */
module Query {
  import opened Text

  datatype Parameter = Parameter(name: string, value: string)

  /** The parameter a text without '&' stands for: the name ends at the first '=', and every '=' is dropped. */
  function ParameterOf(text: string): Parameter {
    var k := Find(text, {'='});
    Parameter(text[..k], Without(text[k..], '='))
  }

  /** The text up to the first '&' ... */
  function Piece(query: string): string {
    query[..Find(query, {'&'})]
  }

  /** ... and the text behind it. */
  function AfterPiece(query: string): (rest: string)
    ensures query != "" ==> |rest| < |query|
  {
    var k := Find(query, {'&'});
    if k < |query| then query[k + 1..] else ""
  }

  /** The parameters of a query: one for every piece ended by '&' and one for a non-empty last piece. */
  function ParametersOf(query: string): seq<Parameter>
    decreases |query|
  {
    if query == "" then [] else [ParameterOf(Piece(query))] + ParametersOf(AfterPiece(query))
  }

  function Pair(p: Parameter): string {
    p.name + "=" + p.value
  }

  /** The printed form: pairs separated by '&'. */
  function Print(ps: seq<Parameter>): string {
    if ps == [] then ""
    else if |ps| == 1 then Pair(ps[0])
    else Pair(ps[0]) + "&" + Print(ps[1..])
  }

  /** The same pairs, each with a '&' behind it. */
  function Terminated(ps: seq<Parameter>): string {
    if ps == [] then "" else Terminated(ps[..|ps| - 1]) + Pair(ps[|ps| - 1]) + "&"
  }

  lemma {:induction false} TerminatedPrint(ps: seq<Parameter>, p: Parameter)
    ensures Terminated(ps + [p]) == Print(ps + [p]) + "&"
    ensures Print(ps + [p]) == Terminated(ps) + Pair(p)
  {
    var longer := ps + [p];
    assert longer[..|ps|] == ps;
    if ps == [] {
      assert Terminated(ps) == "";
    } else {
      var init, last := ps[..|ps| - 1], ps[|ps| - 1];
      assert init + [last] == ps;
      TerminatedPrint(init, last);
      PrintAppend(ps, p);
      assert Print(ps) + "&" + Pair(p) == Terminated(ps) + Pair(p);
    }
  }

  lemma {:induction false} PrintAppend(ps: seq<Parameter>, p: Parameter)
    requires ps != []
    ensures Print(ps + [p]) == Print(ps) + "&" + Pair(p)
  {
    assert (ps + [p])[1..] == ps[1..] + [p];
    if |ps| > 1 {
      PrintAppend(ps[1..], p);
      assert Print(ps + [p]) == Pair(ps[0]) + "&" + (Print(ps[1..]) + "&" + Pair(p));
    } else {
      assert ps[1..] + [p] == [p];
    }
  }

  /** Neither name nor value holds a separator. */
  predicate Clean(p: Parameter) {
    '=' !in p.name && '&' !in p.name && '=' !in p.value && '&' !in p.value
  }

  predicate AllClean(ps: seq<Parameter>) {
    forall i :: 0 <= i < |ps| ==> Clean(ps[i])
  }

  /** The value of the first parameter called `name`. */
  function Lookup(ps: seq<Parameter>, name: string): Option<string> {
    if ps == [] then None
    else if ps[0].name == name then Some(ps[0].value)
    else Lookup(ps[1..], name)
  }

  /** Looking up finds the first one with the name. */
  lemma {:induction false} LookupFirst(ps: seq<Parameter>, name: string, k: nat)
    requires k <= |ps| && (k < |ps| ==> ps[k].name == name) && forall i :: 0 <= i < k ==> ps[i].name != name
    ensures Lookup(ps, name) == if k < |ps| then Some(ps[k].value) else None
  {
    if k > 0 {
      assert ps[0].name != name;
      LookupFirst(ps[1..], name, k - 1);
    }
  }

  lemma ParameterOfAppend(text: string, c: char)
    ensures ParameterOf(text + [c]) ==
      var p := ParameterOf(text);
      if c == '=' then p
      else if '=' in text then Parameter(p.name, p.value + [c])
      else Parameter(p.name + [c], p.value)
  {
    var k := Find(text, {'='});
    if k < |text| {
      FindInPrefix(text, [c], {'='});
      assert (text + [c])[..k] == text[..k] && (text + [c])[k..] == text[k..] + [c];
      WithoutConcat(text[k..], [c], '=');
    } else {
      FindAcross(text, [c], {'='});
      assert text[..k] == text && text[k..] == "" && '=' !in text;
      if c == '=' {
        assert (text + [c])[..k] == text && (text + [c])[k..] == [c];
        assert Without([c], '=') == Without([c][1..], '=') == "";
      } else {
        assert Find([c], {'='}) == 1 + Find([c][1..], {'='});
        assert (text + [c])[..k + 1] == text + [c] && (text + [c])[k + 1..] == "";
      }
    }
  }

  /** The Parameter constructor: `next` is where it leaves the shared iterator. */
  method ParseParameter(data: string, begin: nat) returns (p: Parameter, next: nat)
    requires begin <= |data|
    ensures p == ParameterOf(Piece(data[begin..]))
    ensures begin <= next <= |data| && data[next..] == AfterPiece(data[begin..])
    ensures begin < |data| ==> begin < next
  {
    var parsingValue := false;
    var name, value := "", "";
    ghost var seen := "";
    next := begin;
    assert Parameter("", "") == ParameterOf("");
    hide ParameterOf, Piece, AfterPiece;
    while next < |data|
      invariant begin <= next <= |data| && seen == data[begin..next] && '&' !in seen
      invariant parsingValue <==> '=' in seen
      invariant Parameter(name, value) == ParameterOf(seen)
    {
      ParameterOfAppend(seen, data[next]);
      SliceAppend(data, begin, next);
      if data[next] != '&' {
        seen := seen + [data[next]];
      }
      if data[next] == '=' {
        parsingValue := true;
        next := next + 1;
        continue;
      }
      if data[next] == '&' {
        PieceFound(data, begin, next);
        next := next + 1;
        return Parameter(name, value), next;
      }
      if parsingValue {
        value := value + [data[next]];
      } else {
        name := name + [data[next]];
      }
      next := next + 1;
    }
    PieceFound(data, begin, next);
    p := Parameter(name, value);
  }

  lemma PieceFound(data: string, begin: nat, end: nat)
    requires begin <= end <= |data| && '&' !in data[begin..end] && (end < |data| ==> data[end] == '&')
    ensures Piece(data[begin..]) == data[begin..end]
    ensures AfterPiece(data[begin..]) == data[if end < |data| then end + 1 else end..]
  {
    var text := data[begin..];
    assert text[..end - begin] == data[begin..end];
    FoundAt(text, end - begin);
  }

  lemma FoundAt(text: string, i: nat)
    requires i <= |text| && '&' !in text[..i] && (i < |text| ==> text[i] == '&')
    ensures Find(text, {'&'}) == i
  {
    forall k | 0 <= k < i ensures text[k] !in {'&'} {
      assert text[k] == text[..i][k];
    }
    FindUnique(text, {'&'}, i);
  }

  /** One parameter moved from what is to be parsed to what has been. */
  lemma ParsedOne(params: seq<Parameter>, rest: string, p: Parameter)
    requires rest != "" && p == ParameterOf(Piece(rest))
    ensures params + ParametersOf(rest) == params + [p] + ParametersOf(AfterPiece(rest))
  {
    assert params + ([p] + ParametersOf(AfterPiece(rest))) == params + [p] + ParametersOf(AfterPiece(rest));
  }

  lemma NothingParsed(params: seq<Parameter>)
    ensures params + ParametersOf("") == params
  {
  }

  class Params {
    var m_params: seq<Parameter>

    constructor ()
      ensures m_params == []
    {
      m_params := [];
    }

    /** Params(std::string_view). */
    constructor Parse(data: string)
      ensures m_params == ParametersOf(data)
    {
      hide ParametersOf, ParameterOf, Piece, AfterPiece;
      var params: seq<Parameter> := [];
      var iter := 0;
      assert data[iter..] == data && params + ParametersOf(data) == ParametersOf(data);
      while iter < |data|
        invariant 0 <= iter <= |data|
        invariant params + ParametersOf(data[iter..]) == ParametersOf(data)
      {
        var p, next := ParseParameter(data, iter);
        ParsedOne(params, data[iter..], p);
        params := params + [p];
        iter := next;
      }
      assert data[iter..] == "";
      NothingParsed(params);
      m_params := params;
    }

    method AddParameter(p: Parameter)
      modifies this
      ensures m_params == old(m_params) + [p]
    {
      m_params := m_params + [p];
    }

    method ParameterValue(name: string) returns (value: Option<string>)
      ensures value == Lookup(m_params, name)
    {
      for i := 0 to |m_params|
        invariant Lookup(m_params, name) == Lookup(m_params[i..], name)
      {
        if m_params[i].name == name {
          return Some(m_params[i].value);
        }
      }
      return None;
    }
  }

  lemma ParsedPiece(piece: string, rest: string)
    requires '&' !in piece
    ensures ParametersOf(piece + "&" + rest) == [ParameterOf(piece)] + ParametersOf(rest)
    ensures piece != "" ==> ParametersOf(piece) == [ParameterOf(piece)]
  {
    var q := piece + "&" + rest;
    FoundAt(q, |piece|);
    assert q[..|piece|] == piece && q[|piece| + 1..] == rest;
    FoundAt(piece, |piece|);
    assert piece[..|piece|] == piece && piece[|piece|..] == "";
  }

  lemma ParameterOfPair(p: Parameter)
    requires Clean(p)
    ensures ParameterOf(Pair(p)) == p && '&' !in Pair(p)
  {
    assert Pair(p) == p.name + ("=" + p.value);
    FindAcross(p.name, "=" + p.value, {'='});
    var k := |p.name|;
    assert Pair(p)[..k] == p.name && Pair(p)[k..] == "=" + p.value;
    WithoutConcat("=", p.value, '=');
    WithoutAbsent(p.value, '=');
  }

  lemma {:induction false} ParsePrint(ps: seq<Parameter>)
    requires AllClean(ps)
    ensures ParametersOf(Print(ps)) == ps
  {
    if ps != [] {
      ParameterOfPair(ps[0]);
      ParsePrint(ps[1..]);
      ParsedPiece(Pair(ps[0]), Print(ps[1..]));
    }
  }

  lemma ParameterOfIsClean(text: string)
    requires '&' !in text
    ensures Clean(ParameterOf(text))
  {
    var k := Find(text, {'='});
    assert forall x :: x in text[..k] ==> x in text;
    assert forall x :: x in text[k..] ==> x in text;
    WithoutMember(text[k..], '=', '=');
    WithoutMember(text[k..], '=', '&');
  }

  lemma {:induction false} ParsedIsClean(query: string)
    ensures AllClean(ParametersOf(query))
    decreases |query|
  {
    if query != "" {
      ParameterOfIsClean(Piece(query));
      ParsedIsClean(AfterPiece(query));
    }
  }

  /** All names and values, one behind the other. */
  function AllText(ps: seq<Parameter>): string {
    if ps == [] then "" else ps[0].name + ps[0].value + AllText(ps[1..])
  }

  /** Parsing loses the separators and nothing else. */
  lemma {:induction false} OnlySeparatorsAreLost(query: string)
    ensures AllText(ParametersOf(query)) == Without(Without(query, '&'), '=')
    decreases |query|
  {
    if query != "" {
      var p, rest := ParameterOf(Piece(query)), AfterPiece(query);
      OnlySeparatorsAreLost(rest);
      PieceAndRest(query);
      ParameterText(Piece(query));
      WithoutConcat(Piece(query), Without(rest, '&'), '=');
      assert ParametersOf(query) == [p] + ParametersOf(rest);
    }
  }

  lemma PieceAndRest(query: string)
    ensures Without(query, '&') == Piece(query) + Without(AfterPiece(query), '&')
  {
    var k := Find(query, {'&'});
    WithoutAbsent(query[..k], '&');
    if k < |query| {
      assert query == query[..k] + (query[k..]);
      WithoutConcat(query[..k], query[k..], '&');
      assert query[k..][1..] == query[k + 1..];
    } else {
      assert query[..k] == query;
    }
  }

  lemma ParameterText(text: string)
    ensures ParameterOf(text).name + ParameterOf(text).value == Without(text, '=')
    ensures '=' !in ParameterOf(text).name
  {
    var k := Find(text, {'='});
    var name, value := text[..k], text[k..];
    assert text == name + value;
    assert '=' !in name;
    hide Without, Find;
    WithoutAbsent(name, '=');
    WithoutConcat(name, value, '=');
  }

  /** Parsing is a normal form: printing what was parsed and parsing again changes nothing. */
  lemma ParseIsNormalForm(query: string)
    ensures ParametersOf(Print(ParametersOf(query))) == ParametersOf(query)
  {
    ParsedIsClean(query);
    ParsePrint(ParametersOf(query));
  }

  /** Printing loses nothing exactly on lists without separators in names and values. */
  lemma ParsePrintIff(ps: seq<Parameter>)
    ensures ParametersOf(Print(ps)) == ps <==> AllClean(ps)
  {
    ParsedIsClean(Print(ps));
    if AllClean(ps) {
      ParsePrint(ps);
    }
  }
}
