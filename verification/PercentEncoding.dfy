/** Percent-encoding of network_utility.cpp (section 2.1 of RFC 3986). */
module PercentEncoding {
  import opened Text

  /** The table g_percentage_encoding. */
  function Table(): map<char, string> {
    map[
      ' ' := "%20", '!' := "%21", '@' := "%40", '#' := "%23", '$' := "%24",
      '%' := "%25", '&' := "%26", '*' := "%2A", '(' := "%28", ')' := "%29",
      '+' := "%2B", '=' := "%3D", '[' := "%5B", ']' := "%5D", ':' := "%3A",
      ';' := "%3B", '\'' := "%27", ',' := "%2C", '/' := "%2F", '?' := "%3F"
    ]
  }

  predicate MustBeEncoded(symbol: char) {
    symbol in Table()
  }

  /** The characters encodeUrl searches for, written separately from the table. */
  predicate Reserved(c: char) {
    || c == ' ' || c == '!' || c == '@' || c == '#' || c == '$' || c == '%' || c == '&'
    || c == '*' || c == '(' || c == ')' || c == '+' || c == '=' || c == '[' || c == ']'
    || c == ':' || c == ';' || c == '\'' || c == ',' || c == '/' || c == '?'
  }

  function HexDigit(d: nat): char
    requires d < 16
  {
    if d < 10 then ('0' as int + d) as char else ('A' as int + d - 10) as char
  }

  function HexValue(c: char): (d: nat)
    ensures d < 16
  {
    if '0' <= c <= '9' then c as int - '0' as int
    else if 'A' <= c <= 'F' then c as int - 'A' as int + 10
    else 0
  }

  predicate IsHexDigit(c: char) {
    '0' <= c <= '9' || 'A' <= c <= 'F'
  }

  /** '%' and two hexadecimal digits for a reserved character, any other character itself. */
  function Code(c: char): string {
    if Reserved(c) then ['%', HexDigit(c as int / 16 % 16), HexDigit(c as int % 16)] else [c]
  }

  /** What percent-encoding means: every character on its own. */
  function Encode(s: string): string {
    if s == "" then "" else Code(s[0]) + Encode(s[1..])
  }

  function CountReserved(s: string): nat {
    if s == "" then 0 else (if Reserved(s[0]) then 1 else 0) + CountReserved(s[1..])
  }

  /** A decoder for the encoder's image; the library's own decodeUrl is DecodeUrl below. */
  ghost function Decode(t: string): string {
    if |t| >= 3 && t[0] == '%' then
      [(16 * HexValue(t[1]) + HexValue(t[2])) as char] + Decode(t[3..])
    else if t == "" then ""
    else [t[0]] + Decode(t[1..])
  }

  /** The search set and the table agree, so the lookup in encodeUrl never throws, and every entry is
      '%' followed by the two hexadecimal digits of the character. */
  lemma TableCoversReserved(c: char)
    ensures Reserved(c) <==> MustBeEncoded(c)
    ensures Reserved(c) ==> Table()[c] == Code(c)
  {
    if Reserved(c) {
      assert |Table()[c]| == 3 && Table()[c][0] == '%';
      assert Table()[c][1] == HexDigit(c as int / 16 % 16);
      assert Table()[c][2] == HexDigit(c as int % 16);
    }
  }

  /** What is encoded: the reserved characters of section 2.2 of RFC 3986, the space and the '%' itself. */
  lemma ReservedAsInRfc(c: char)
    ensures MustBeEncoded(c) <==> c in ":/?#[]@" || c in "!$&'()*+,;=" || c == ' ' || c == '%'
  {
    TableCoversReserved(c);
    hide Table;
  }

  lemma CodeDecodes(c: char)
    requires Reserved(c)
    ensures (16 * HexValue(Code(c)[1]) + HexValue(Code(c)[2])) as char == c
    ensures forall k :: 1 <= k < 3 ==> IsHexDigit(Code(c)[k]) && !Reserved(Code(c)[k])
  {
    ReservedIsAscii(c);
    hide Reserved, HexDigit, HexValue;
    HexDigitValue(c as int / 16 % 16);
    HexDigitValue(c as int % 16);
  }

  lemma ReservedIsAscii(c: char)
    requires Reserved(c)
    ensures c as int < 128
  {
  }

  lemma HexDigitValue(d: nat)
    requires d < 16
    ensures IsHexDigit(HexDigit(d)) && HexValue(HexDigit(d)) == d && !Reserved(HexDigit(d))
  {
  }

  lemma {:induction false} EncodeConcat(a: string, b: string)
    ensures Encode(a + b) == Encode(a) + Encode(b)
  {
    if a == "" {
      assert a + b == b;
    } else {
      assert (a + b)[1..] == a[1..] + b;
      EncodeConcat(a[1..], b);
    }
  }

  lemma {:induction false} EncodeUnreserved(s: string)
    requires NoneReservedIn(s)
    ensures Encode(s) == s
  {
    if s != "" {
      EncodeUnreserved(s[1..]);
    }
  }

  predicate NoneReservedIn(s: string) {
    forall k :: 0 <= k < |s| ==> !Reserved(s[k])
  }

  /** The position of the first reserved character, or |s| when there is none. */
  function FirstReserved(s: string): (i: nat)
    ensures i <= |s| && NoneReservedIn(s[..i])
    ensures i < |s| ==> Reserved(s[i])
  {
    if s == "" || Reserved(s[0]) then 0
    else
      var i := 1 + FirstReserved(s[1..]);
      assert s[..i] == [s[0]] + s[1..][..i - 1];
      i
  }

  lemma FirstReservedUnique(s: string, i: nat)
    requires i <= |s| && NoneReservedIn(s[..i]) && (i < |s| ==> Reserved(s[i]))
    ensures FirstReserved(s) == i
  {
    var j := FirstReserved(s);
    forall k | 0 <= k < j ensures !Reserved(s[k]) {
      assert s[k] == s[..j][k];
    }
    forall k | 0 <= k < i ensures !Reserved(s[k]) {
      assert s[k] == s[..i][k];
    }
  }

  lemma EncodeCleanAppend(before: string, clean: string)
    requires NoneReservedIn(clean)
    ensures Encode(before + clean) == Encode(before) + clean
  {
    EncodeConcat(before, clean);
    EncodeUnreserved(clean);
  }

  /** One round of encodeUrl on a text of which `encoded` is final: past `clean` stands the reserved `c`.
      Once it is replaced, nothing behind the '%' just written is reserved. */
  lemma EncodeRound(before: string, clean: string, c: char)
    requires NoneReservedIn(clean) && Reserved(c)
    ensures Encode(before + clean + [c]) == Encode(before) + clean + Code(c)
    ensures |Code(c)| == 3 && NoneReservedIn(Encode(before + clean + [c])[|Encode(before)| + |clean| + 1..])
  {
    EncodeCleanAppend(before, clean);
    EncodeConcat(before + clean, [c]);
    assert Encode([c]) == Code(c) + Encode("");
    CodeDecodes(c);
    assert Encode(before + clean + [c])[|Encode(before)| + |clean| + 1..] == Code(c)[1..];
  }

  /** find_first_of from `from`, with |s| for npos. */
  method FindFirstOf(s: string, from: nat) returns (i: nat)
    requires from <= |s|
    ensures from <= i <= |s|
    ensures NoneReservedIn(s[from..i])
    ensures i < |s| ==> Reserved(s[i])
  {
    i := from;
    while i < |s| && !Reserved(s[i])
      invariant from <= i <= |s|
      invariant NoneReservedIn(s[from..i])
    {
      assert s[from..i + 1] == s[from..i] + [s[i]];
      i := i + 1;
    }
  }

  /** g_percentage_encoding.at: defined on every reserved character. */
  method TableAt(c: char) returns (code: string)
    requires Reserved(c)
    ensures code == Code(c) && |code| == 3
  {
    TableCoversReserved(c);
    code := Table()[c];
  }

  /** The search leaves the final part of the text behind it, because nothing there is reserved. */
  lemma FoundPast(encoded: string, after: string, from: nat, i: nat) returns (clean: string)
    requires from <= |encoded| && NoneReservedIn(encoded[from..])
    requires from <= i <= |encoded + after| && NoneReservedIn((encoded + after)[from..i])
    requires i < |encoded + after| ==> Reserved((encoded + after)[i])
    ensures |encoded| <= i && clean == after[..i - |encoded|] && NoneReservedIn(clean)
  {
    assert forall k :: from <= k < |encoded| ==> (encoded + after)[k] == encoded[from..][k - from];
    clean := after[..i - |encoded|];
    forall k | 0 <= k < |clean| ensures !Reserved(clean[k]) {
      assert clean[k] == (encoded + after)[from..i][|encoded| - from + k];
    }
  }

  /** `result` is the encoding of `before` followed by the untouched rest of s, and the next search may
      start at `from` without missing anything reserved. */
  ghost predicate EncodedUpTo(s: string, result: string, before: string, from: nat) {
    && before <= s
    && result == Encode(before) + s[|before|..]
    && from <= |Encode(before)|
    && NoneReservedIn(Encode(before)[from..])
  }

  lemma NothingLeft(s: string, result: string, before: string, from: nat)
    requires EncodedUpTo(s, result, before, from) && NoneReservedIn(result[from..|result|])
    ensures result == Encode(s)
  {
    var clean := FoundPast(Encode(before), s[|before|..], from, |result|);
    EncodeCleanAppend(before, clean);
    assert before + clean == s;
  }

  lemma Replaced(s: string, result: string, before: string, from: nat, i: nat) returns (longer: string)
    requires EncodedUpTo(s, result, before, from)
    requires from <= i < |result| && NoneReservedIn(result[from..i]) && Reserved(result[i])
    ensures EncodedUpTo(s, result[..i] + Code(result[i]) + result[i + 1..], longer, i + 1)
    ensures |before| < |longer| <= |s|
  {
    hide Code, Reserved, Encode;
    var encoded, after := Encode(before), s[|before|..];
    var clean := FoundPast(encoded, after, from, i);
    var c, rest := after[|clean|], after[|clean| + 1..];
    assert result == encoded + clean + [c] + rest;
    EncodeRound(before, clean, c);
    longer := before + clean + [c];
    assert s == longer + rest;
    Splice(encoded + clean, c, rest, Code(c));
  }

  lemma Splice(a: string, c: char, b: string, code: string)
    ensures (a + [c] + b)[|a|] == c
    ensures (a + [c] + b)[..|a|] + code + (a + [c] + b)[|a| + 1..] == a + code + b
  {
  }

  /** encodeUrl replaces reserved characters inside `result`, each search starting one character after
      the '%' just written. */
  method EncodeUrl(s: string) returns (result: string)
    ensures result == Encode(s)
  {
    result := s;
    var charToEncode := 0;
    ghost var before := "";  // the part of s whose encoding starts `result`
    while true
      invariant EncodedUpTo(s, result, before, charToEncode)
      decreases |s| - |before|
    {
      ghost var from := charToEncode;
      charToEncode := FindFirstOf(result, charToEncode);
      if charToEncode == |result| {
        NothingLeft(s, result, before, from);
        break;
      }
      var code := TableAt(result[charToEncode]);
      before := Replaced(s, result, before, from, charToEncode);
      result := result[..charToEncode] + code + result[charToEncode + 1..];
      charToEncode := charToEncode + 1;
    }
  }

  lemma {:induction false} EncodeLength(s: string)
    ensures |Encode(s)| == |s| + 2 * CountReserved(s)
  {
    if s != "" {
      TableCoversReserved(s[0]);
      EncodeLength(s[1..]);
    }
  }

  /** A reserved character at position i of encoded text is a '%' with two hexadecimal digits behind it. */
  predicate EscapedAt(t: string, i: nat)
    requires i < |t|
  {
    Reserved(t[i]) ==> t[i] == '%' && i + 2 < |t| && IsHexDigit(t[i + 1]) && IsHexDigit(t[i + 2])
  }

  lemma {:induction false} EncodeAlphabet(s: string, i: nat)
    requires i < |Encode(s)|
    ensures EscapedAt(Encode(s), i)
  {
    var head, tail := Code(s[0]), Encode(s[1..]);
    if i >= |head| {
      EncodeAlphabet(s[1..], i - |head|);
    } else if Reserved(s[0]) {
      CodeDecodes(s[0]);
      assert head[i] == (head + tail)[i];
    }
  }

  lemma DecodeStep(c: char, rest: string)
    ensures Decode(Code(c) + rest) == [c] + Decode(rest)
  {
    var t := Code(c) + rest;
    assert t[|Code(c)|..] == rest;
    if Reserved(c) {
      CodeDecodes(c);
      assert t[1] == Code(c)[1] && t[2] == Code(c)[2];
    } else {
      assert t[0] == c != '%';
    }
  }

  lemma {:induction false} DecodeEncode(s: string)
    ensures Decode(Encode(s)) == s
  {
    if s != "" {
      DecodeStep(s[0], Encode(s[1..]));
      DecodeEncode(s[1..]);
    }
  }

  lemma EncodeInjective(a: string, b: string)
    requires Encode(a) == Encode(b)
    ensures a == b
  {
    DecodeEncode(a);
    DecodeEncode(b);
  }

  lemma {:induction false} NoneReserved(s: string)
    ensures CountReserved(s) == 0 <==> forall c :: c in s ==> !Reserved(c)
  {
    if s != "" {
      NoneReserved(s[1..]);
      assert forall c :: c in s <==> c == s[0] || c in s[1..];
    }
  }

  /** Encoding is not idempotent: a second pass changes the text exactly when the first one did. */
  lemma EncodeTwice(s: string)
    ensures Encode(Encode(s)) == Encode(s) <==> forall c :: c in s ==> !Reserved(c)
  {
    NoneReserved(s);
    NoneReserved(Encode(s));
    EncodeLength(Encode(s));
    if CountReserved(s) == 0 {
      EncodeUnreserved(s);
      EncodeUnreserved(Encode(s));
    } else {
      var c :| c in s && Reserved(c);
      EncodeContainsPercent(s, c);
    }
  }

  lemma {:induction false} EncodeContainsPercent(s: string, c: char)
    requires c in s && Reserved(c)
    ensures '%' in Encode(s)
  {
    if s[0] == c {
      TableCoversReserved(c);
      assert Encode(s)[0] == '%';
    } else {
      assert c in s[1..];
      EncodeContainsPercent(s[1..], c);
    }
  }

  /** What the library's decodeUrl yields on text whose every '%' has a character after it: it
      compares a two-character slice with three-character codes, so no code is ever found, and it
      appends inside the '%' branch only. */
  function Percents(t: string): string {
    if t == "" then ""
    else if t[0] == '%' then ['%'] + Percents(t[1..])
    else Percents(t[1..])
  }

  /** decodeUrl. The source reads past the end when no character follows a '%'. */
  method DecodeUrl(t: string) returns (result: string)
    requires forall i :: 0 <= i < |t| && t[i] == '%' ==> i + 2 <= |t|
    ensures result == Percents(t)
  {
    result := "";
    var i := 0;
    while i < |t|
      invariant i <= |t|
      invariant Percents(t) == result + Percents(t[i..])
    {
      assert t[i..][1..] == t[i + 1..];
      if t[i] == '%' {
        var encodedChar := t[i..i + 2];
        if c: char :| c in Table() && Table()[c] == encodedChar {
          TableCoversReserved(c);
          assert false;
        }
        result := result + [t[i]];
      }
      i := i + 1;
    }
  }

  lemma {:induction false} PercentsOfEncoded(s: string)
    ensures |Percents(Encode(s))| == CountReserved(s)
    ensures forall c :: c in Percents(Encode(s)) ==> c == '%'
  {
    if s != "" {
      TableCoversReserved(s[0]);
      PercentsOfEncoded(s[1..]);
      PercentsConcat(Code(s[0]), Encode(s[1..]));
      PercentsOfCode(s[0]);
    }
  }

  lemma PercentsOfCode(c: char)
    ensures Percents(Code(c)) == if Reserved(c) then "%" else ""
  {
    if Reserved(c) {
      CodeDecodes(c);
      EscapeHasOnePercent(Code(c)[0], Code(c)[1], Code(c)[2]);
    }
  }

  lemma EscapeHasOnePercent(percent: char, high: char, low: char)
    requires percent == '%' && high != '%' && low != '%'
    ensures Percents([percent, high, low]) == "%"
  {
    var t := [percent, high, low];
    assert t[1..] == [high, low] && [high, low][1..] == [low] && [low][1..] == "";
    assert Percents([low]) == Percents("") == "";
    assert Percents([high, low]) == Percents([low]);
  }

  lemma {:induction false} PercentsConcat(a: string, b: string)
    ensures Percents(a + b) == Percents(a) + Percents(b)
  {
    if a == "" {
      assert a + b == b;
    } else {
      assert (a + b)[1..] == a[1..] + b;
      PercentsConcat(a[1..], b);
    }
  }

  /** decodeUrl undoes encodeUrl exactly on the texts made of '%' only. */
  lemma {:induction false} DecodeUrlUndoesEncodeUrlIff(s: string)
    ensures Percents(Encode(s)) == s <==> forall c :: c in s ==> c == '%'
  {
    PercentsOfEncoded(s);
    if forall c :: c in s ==> c == '%' {
      CountAllReserved(s);
      assert Percents(Encode(s)) == s by {
        forall i | 0 <= i < |s| ensures Percents(Encode(s))[i] == s[i] {
          assert s[i] in s && Percents(Encode(s))[i] in Percents(Encode(s));
        }
      }
    }
  }

  lemma {:induction false} CountAllReserved(s: string)
    requires forall c :: c in s ==> Reserved(c)
    ensures CountReserved(s) == |s|
  {
    if s != "" {
      assert s[0] in s;
      assert forall c :: c in s[1..] ==> c in s;
      CountAllReserved(s[1..]);
    }
  }
}
