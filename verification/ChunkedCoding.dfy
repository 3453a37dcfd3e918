/** The chunked transfer coding (section 7.1 of RFC 9112), as a sender writes it. */
module ChunkedCoding {
  import opened Text
  import opened Numbers

  /** A chunk: its size in hexadecimal digits, an extension that is empty or begins with ';', and its data. */
  datatype Chunk = Chunk(size: string, extension: string, data: string)

  predicate ValidExtension(e: string) {
    (e != "" ==> e[0] == ';') && !Contains(e, CRLF)
  }

  predicate ValidChunk(c: Chunk) {
    && IsNumeral(c.size, 16) && Value(c.size, 16) == |c.data| <= INT64_MAX
    && ValidExtension(c.extension)
  }

  /** Chunks carry data; the last one does not. */
  predicate ValidChunks(cs: seq<Chunk>) {
    forall i :: 0 <= i < |cs| ==> ValidChunk(cs[i]) && cs[i].data != ""
  }

  predicate ValidLast(c: Chunk) {
    ValidChunk(c) && c.data == ""
  }

  function SizeLine(c: Chunk): string {
    c.size + c.extension
  }

  /** The body on the wire: chunks, the last chunk's line and whatever follows it. */
  function Wire(cs: seq<Chunk>, last: Chunk, tail: string): string {
    if cs == [] then SizeLine(last) + CRLF + tail
    else SizeLine(cs[0]) + CRLF + (cs[0].data + (CRLF + Wire(cs[1..], last, tail)))
  }

  /** The data it carries. */
  function Payload(cs: seq<Chunk>): string {
    if cs == [] then "" else cs[0].data + Payload(cs[1..])
  }

  /** How the receiver reads a size line: up to the first ';', in base 16. */
  function SizeRead(text: string): Result<int> {
    Stoll(text[..Find(text, {';'})], 16)
  }

  // What the receiver still has to read of a size line may have lost leading characters, or may have gained the
  // line feed behind the data before it.

  /** `text` without a line feed in front. */
  function Digits(text: string): string {
    if text != "" && text[0] == '\n' then text[1..] else text
  }

  /** The size is read at the number of bytes of the chunk. */
  predicate Receivable(c: Chunk) {
    && IsNumeral(Digits(c.size), 16) && Value(Digits(c.size), 16) == |c.data| <= INT64_MAX
    && ValidExtension(c.extension)
  }

  /** The first chunk, or the last chunk when there is no other, with another text for its size. */
  function Resized(cs: seq<Chunk>, size: string): seq<Chunk> {
    if cs == [] then [] else [cs[0].(size := size)] + cs[1..]
  }

  function LastResized(cs: seq<Chunk>, last: Chunk, size: string): Chunk {
    if cs == [] then last.(size := size) else last
  }

  function First(cs: seq<Chunk>, last: Chunk): Chunk {
    if cs == [] then last else cs[0]
  }

  /** What stands behind the size that is read next. */
  function BehindSize(cs: seq<Chunk>, last: Chunk, tail: string): string {
    First(cs, last).extension + CRLF
      + if cs == [] then tail else cs[0].data + (CRLF + Wire(cs[1..], last, tail))
  }

  lemma WireBegins(cs: seq<Chunk>, last: Chunk, tail: string)
    ensures Wire(cs, last, tail) == First(cs, last).size + BehindSize(cs, last, tail)
  {
    var c := First(cs, last);
    var rest := if cs == [] then tail else cs[0].data + (CRLF + Wire(cs[1..], last, tail));
    assert SizeLine(c) + CRLF + rest == c.size + (c.extension + CRLF + rest);
  }

  lemma ResizedWire(cs: seq<Chunk>, last: Chunk, tail: string, size: string)
    ensures Wire(Resized(cs, size), LastResized(cs, last, size), tail) == size + BehindSize(cs, last, tail)
    ensures Payload(Resized(cs, size)) == Payload(cs)
  {
    var rs := Resized(cs, size);
    WireBegins(rs, LastResized(cs, last, size), tail);
    assert cs != [] ==> rs[1..] == cs[1..];
  }

  /** Zeros and the line feed may get lost in front of a size, as long as a digit is left. */
  predicate Harmless(size: string, dropped: string) {
    |dropped| < |size| && dropped <= size && forall i :: 0 <= i < |dropped| ==> dropped[i] == '0' || dropped[i] == '\n'
  }

  function Power(n: nat): nat {
    if n == 0 then 1 else 16 * Power(n - 1)
  }

  lemma {:induction false} ValueSplit(s: string, d: nat)
    requires d <= |s|
    ensures Value(s, 16) == Value(s[..d], 16) * Power(|s| - d) + Value(s[d..], 16)
  {
    if d == |s| {
      assert s[..d] == s && s[d..] == "";
    } else {
      var n := |s| - 1;
      ValueSplit(s[..n], d);
      OneDigitMore(s, d);
      hide Value, Power;
      TimesSixteen(Value(s[..d], 16), Power(n - d), Value(s[..n][d..], 16), DigitValue(s[n]));
    }
  }

  lemma OneDigitMore(s: string, d: nat)
    requires d < |s|
    ensures var n := |s| - 1;
      s[..n][..d] == s[..d] && Power(|s| - d) == 16 * Power(n - d)
      && Value(s, 16) == Value(s[..n], 16) * 16 + DigitValue(s[n])
      && Value(s[d..], 16) == Value(s[..n][d..], 16) * 16 + DigitValue(s[n])
  {
    var n := |s| - 1;
    assert s[..n][d..] == s[d..][..n - d];
    assert s[d..][n - d] == s[n];
  }

  lemma TimesSixteen(a: nat, p: nat, b: nat, d: nat)
    ensures (a * p + b) * 16 + d == a * (16 * p) + (b * 16 + d)
  {
  }

  lemma {:induction false} ZeroValueIff(s: string)
    requires forall i :: 0 <= i < |s| ==> DigitValue(s[i]) < 16
    ensures Value(s, 16) == 0 <==> forall i :: 0 <= i < |s| ==> s[i] == '0'
  {
    if s != "" {
      ZeroValueIff(s[..|s| - 1]);
      assert forall i :: 0 <= i < |s| ==> i == |s| - 1 || s[i] == s[..|s| - 1][i];
    }
  }

  lemma {:induction false} PowerIsPositive(n: nat)
    ensures Power(n) > 0
  {
    if n > 0 {
      PowerIsPositive(n - 1);
    }
  }

  /** A numeral keeps its value without its first d digits exactly when these are zeros. */
  lemma DropDigitsIff(s: string, d: nat)
    requires IsNumeral(s, 16) && d < |s|
    ensures Value(s[d..], 16) == Value(s, 16) <==> forall i :: 0 <= i < d ==> s[i] == '0'
  {
    ValueSplit(s, d);
    ZeroValueIff(s[..d]);
    PowerIsPositive(|s| - d);
    hide Value, Power;
    ProductIsZero(Value(s[..d], 16), Power(|s| - d));
    assert forall i :: 0 <= i < d ==> s[..d][i] == s[i];
  }

  lemma ProductIsZero(a: nat, p: nat)
    requires p > 0
    ensures a * p == 0 <==> a == 0
  {
  }

  /** A size line of which the first d characters got lost is read at the size, as long as something of the size is
      left, exactly when they were harmless; without anything of it, it throws; behind that, what is left of the
      extension is read instead. */
  lemma DroppedReads(c: Chunk, d: nat)
    requires Receivable(c) && d <= |SizeLine(c)|
    ensures var read := SizeRead((SizeLine(c) + CRLF)[d..]);
      if d < |c.size| then
        read == Ok(|c.data|) <==> Harmless(c.size, c.size[..d])
      else if d == |c.size| then read.Thrown?
      else read == SizeRead(c.extension[d - |c.size|..] + CRLF)
  {
    if d < |c.size| {
      SizeLeft(c, d);
    } else {
      assert (SizeLine(c) + CRLF)[d..] == c.extension[d - |c.size|..] + CRLF;
      if d == |c.size| {
        NoSizeThrows(c.extension);
      }
    }
  }

  /** So the size is read right exactly when only zeros, or the line feed, got lost in front of a digit, or by the
      accident that the rest of the extension reads as the size. */
  lemma DroppedIff(c: Chunk, d: nat)
    requires Receivable(c) && d <= |SizeLine(c)|
    ensures SizeRead((SizeLine(c) + CRLF)[d..]) == Ok(|c.data|) <==>
      (d < |c.size| && Harmless(c.size, c.size[..d]))
      || (d > |c.size| && SizeRead(c.extension[d - |c.size|..] + CRLF) == Ok(|c.data|))
  {
    hide SizeRead, Harmless, Receivable;
    DroppedReads(c, d);
  }

  lemma SizeLeft(c: Chunk, d: nat)
    requires Receivable(c) && d < |c.size|
    ensures SizeRead((SizeLine(c) + CRLF)[d..]) == Ok(|c.data|) <==> Harmless(c.size, c.size[..d])
    ensures Harmless(c.size, c.size[..d]) <==> Receivable(c.(size := c.size[d..]))
  {
    var rest := c.(size := c.size[d..]);
    assert (SizeLine(c) + CRLF)[d..] == SizeLine(rest) + CRLF;
    DroppedDigits(c.size, d);
    SizeReads(rest.size, c.extension);
  }

  lemma NoSizeThrows(extension: string)
    requires ValidExtension(extension)
    ensures SizeRead(extension + CRLF).Thrown?
  {
    if extension == "" {
      assert extension + CRLF == CRLF;
      EmptyLineThrows();
    } else {
      FindUnique(extension + CRLF, {';'}, 0);
      assert (extension + CRLF)[..0] == "";
    }
  }

  lemma EmptyLineThrows()
    ensures SizeRead(CRLF).Thrown?
  {
    FindUnique(CRLF, {';'}, 2);
    assert CRLF[..2] == CRLF && CRLF[1..] == "\n" && CRLF[1..][1..] == "";
    assert SkipSpace(CRLF) == SkipSpace(CRLF[1..]) == SkipSpace("") == "";
  }

  lemma DroppedDigits(size: string, d: nat)
    requires IsNumeral(Digits(size), 16) && d < |size|
    ensures IsNumeral(Digits(size[d..]), 16)
    ensures Value(Digits(size[d..]), 16) == Value(Digits(size), 16) <==> Harmless(size, size[..d])
  {
    var u, k := Digits(size), |size| - |Digits(size)|;
    if d >= k {
      NumeralEnd(u, d - k);
      hide Value, IsNumeral;
      assert size[d..] == u[d - k..];
      DropDigitsIff(u, d - k);
      HarmlessDigits(size, d);
    } else {
      assert d == 0 && size[d..] == size;
    }
  }

  lemma HarmlessDigits(size: string, d: nat)
    requires |size| - |Digits(size)| <= d < |size| && forall i :: 0 <= i < |Digits(size)| ==> Digits(size)[i] != '\n'
    ensures var u, k := Digits(size), |size| - |Digits(size)|;
      Harmless(size, size[..d]) <==> forall i :: 0 <= i < d - k ==> u[i] == '0'
  {
    var u, k := Digits(size), |size| - |Digits(size)|;
    assert forall i :: 0 <= i < d ==> size[..d][i] == if i < k then '\n' else u[i - k];
    assert forall i :: 0 <= i < d - k ==> u[i] == size[..d][i + k];
  }

  /** The end of a numeral is a numeral without a line feed. */
  lemma NumeralEnd(u: string, d: nat)
    requires IsNumeral(u, 16) && d < |u|
    ensures IsNumeral(u[d..], 16) && Digits(u[d..]) == u[d..]
    ensures forall i :: 0 <= i < |u| ==> u[i] != '\n'
  {
    assert forall i :: 0 <= i < |u| ==> DigitValue(u[i]) < 16;
    assert u[d..][0] == u[d];
  }

  lemma NumeralHasNo(s: string)
    requires IsNumeral(Digits(s), 16)
    ensures forall i :: 0 <= i < |s| ==> s[i] != ';' && s[i] != '\r'
  {
    assert forall i :: |s| - |Digits(s)| <= i < |s| ==> s[i] == Digits(s)[i - (|s| - |Digits(s)|)];
  }

  /** The first line end is the one behind the size line. */
  lemma SizeLineEnds(c: Chunk, rest: string)
    requires IsNumeral(Digits(c.size), 16) && ValidExtension(c.extension)
    ensures FirstAt(SizeLine(c) + CRLF + rest, CRLF, |SizeLine(c)|)
  {
    var line, text := SizeLine(c), SizeLine(c) + CRLF + rest;
    NumeralHasNo(c.size);
    assert text[|line|..|line| + 2] == CRLF;
    forall k: nat | k < |line| ensures !OccursAt(text, CRLF, k) {
      OccursChar(text, CRLF, k, 0);
      OccursChar(text, CRLF, k, 1);
      assert text[k] == line[k];
      if k < |c.size| {
        assert line[k] == c.size[k];
      } else if k + 1 < |line| {
        var j := k - |c.size|;
        assert line[k] == c.extension[j] && line[k + 1] == c.extension[j + 1];
        assert !OccursAt(c.extension, CRLF, j);
        assert c.extension[j..j + 2] == [c.extension[j], c.extension[j + 1]];
      } else {
        assert text[k + 1] == '\r';
      }
    }
  }

  /** A size line, whatever its extension, is read at the value of its digits. */
  lemma SizeReads(size: string, extension: string)
    requires IsNumeral(Digits(size), 16) && ValidExtension(extension)
    ensures var v := Value(Digits(size), 16);
      SizeRead(size + extension + CRLF) == if v <= INT64_MAX then Ok(v) else Thrown
  {
    var text := size + extension + CRLF;
    NumeralHasNo(size);
    if extension == "" {
      FindUnique(text, {';'}, |text|);
      assert text[..|text|] == size + CRLF;
      SizeReadAfterFeed(size, CRLF);
    } else {
      FindUnique(text, {';'}, |size|);
      assert text[..|size|] == size == size + "";
      SizeReadAfterFeed(size, "");
    }
  }

  /** std::stoll skips the line feed. */
  lemma SizeReadAfterFeed(size: string, rest: string)
    requires IsNumeral(Digits(size), 16) && (rest == CRLF || rest == "")
    ensures var v := Value(Digits(size), 16);
      Stoll(size + rest, 16) == if v <= INT64_MAX then Ok(v) else Thrown
  {
    hide Stoll, Value, IsNumeral;
    var u := Digits(size);
    StollOfNumeral(u, 16, rest);
    if u != size {
      assert size + rest == ['\n'] + (u + rest);
      SpaceSkipped('\n', u + rest, 16);
    }
  }

  /** The size line is read at the number of bytes of the chunk. */
  lemma SizeLineReads(c: Chunk)
    requires Receivable(c)
    ensures SizeRead(SizeLine(c) + CRLF) == Ok(|c.data|)
  {
    SizeReads(c.size, c.extension);
  }

  /** A chunk as a sender writes it is receivable, also with the line feed behind the data in front of it. */
  lemma ValidIsReceivable(c: Chunk)
    requires ValidChunk(c)
    ensures Receivable(c) && Receivable(c.(size := "\n" + c.size))
  {
    assert DigitValue(c.size[0]) < 16;
    assert ("\n" + c.size)[1..] == c.size;
  }

  /** Without the two bytes behind the data the next size line reads as an empty line, which throws. */
  lemma MissedLineEndThrows(rest: string)
    ensures FirstAt(CRLF + rest, CRLF, 0) && SizeRead((CRLF + rest)[..2]).Thrown?
  {
    assert (CRLF + rest)[..2] == CRLF && (CRLF + rest)[0..2] == CRLF;
    EmptyLineThrows();
  }
}
