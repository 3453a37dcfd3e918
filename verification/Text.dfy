/** Searching and cutting of sequences: the meaning shared by all the hand-written text parsers. */
module Text {
  datatype Option<+T> = None | Some(value: T)

  /** The outcome of a parser that may throw. */
  datatype Result<+T> = Ok(value: T) | Thrown

  const CRLF := "\r\n"

  /** Index of the first element that lies in `stop`, or |s| when there is none. */
  function Find<T(==)>(s: seq<T>, stop: set<T>): (i: nat)
    ensures i <= |s|
    ensures i < |s| ==> s[i] in stop
    ensures forall k :: 0 <= k < i ==> s[k] !in stop
  {
    if s == [] || s[0] in stop then 0 else 1 + Find(s[1..], stop)
  }

  /** `s` with every `c` removed. */
  function Without<T(==)>(s: seq<T>, c: T): seq<T> {
    if s == [] then [] else (if s[0] == c then [] else [s[0]]) + Without(s[1..], c)
  }

  /** `s` without its leading `c`s. */
  function TrimLeft<T(==)>(s: seq<T>, c: T): (r: seq<T>)
    ensures r != [] ==> r[0] != c
  {
    if s != [] && s[0] == c then TrimLeft(s[1..], c) else s
  }

  /** Find is the only position with a stop element (or the end) behind it and none before it. */
  lemma FindUnique<T>(s: seq<T>, stop: set<T>, i: nat)
    requires i <= |s|
    requires forall k :: 0 <= k < i ==> s[k] !in stop
    requires i < |s| ==> s[i] in stop
    ensures Find(s, stop) == i
  {
  }

  lemma FindInPrefix<T>(a: seq<T>, b: seq<T>, stop: set<T>)
    requires Find(a, stop) < |a|
    ensures Find(a + b, stop) == Find(a, stop)
  {
    FindUnique(a + b, stop, Find(a, stop));
  }

  lemma FindAcross<T>(a: seq<T>, b: seq<T>, stop: set<T>)
    requires forall x :: x in a ==> x !in stop
    ensures Find(a + b, stop) == |a| + Find(b, stop)
  {
    var i := |a| + Find(b, stop);
    forall k | 0 <= k < i ensures (a + b)[k] !in stop {
      if k < |a| {
        assert (a + b)[k] == a[k] && a[k] in a;
      }
    }
    FindUnique(a + b, stop, i);
  }

  lemma SliceAppend<T>(s: seq<T>, a: nat, b: nat)
    requires a <= b < |s|
    ensures s[a..b + 1] == s[a..b] + [s[b]]
  {
  }

  lemma NotInConcat<T>(a: seq<T>, b: seq<T>, x: T)
    requires x !in a && x !in b
    ensures x !in a + b
  {
  }

  lemma Associative<T>(a: seq<T>, b: seq<T>, c: seq<T>)
    ensures a + (b + c) == a + b + c
  {
  }

  lemma {:induction false} WithoutMember<T>(s: seq<T>, c: T, x: T)
    ensures x in Without(s, c) <==> x in s && x != c
  {
    if s != [] {
      WithoutMember(s[1..], c, x);
    }
  }

  lemma {:induction false} WithoutConcat<T>(a: seq<T>, b: seq<T>, c: T)
    ensures Without(a + b, c) == Without(a, c) + Without(b, c)
  {
    if a == [] {
      assert a + b == b;
    } else {
      assert (a + b)[1..] == a[1..] + b;
      WithoutConcat(a[1..], b, c);
    }
  }

  lemma {:induction false} WithoutAbsent<T>(s: seq<T>, c: T)
    requires c !in s
    ensures Without(s, c) == s
  {
    if s != [] {
      assert forall x :: x in s[1..] ==> x in s;
      WithoutAbsent(s[1..], c);
    }
  }

  lemma {:induction false} TrimLeftAppend<T>(s: seq<T>, x: T, c: T)
    ensures TrimLeft(s + [x], c) ==
      if TrimLeft(s, c) == [] && x == c then [] else TrimLeft(s, c) + [x]
  {
    if s == [] {
      assert s + [x] == [x];
    } else if s[0] == c {
      assert (s + [x])[1..] == s[1..] + [x];
      TrimLeftAppend(s[1..], x, c);
    }
  }

  lemma {:induction false} TrimLeftMembers<T>(s: seq<T>, c: T)
    ensures forall x :: x in TrimLeft(s, c) ==> x in s
  {
    if s != [] && s[0] == c {
      TrimLeftMembers(s[1..], c);
    }
  }

  /** `pattern` stands in `s` at position `i`. */
  predicate OccursAt(s: string, pattern: string, i: nat) {
    i + |pattern| <= |s| && s[i..i + |pattern|] == pattern
  }

  /** `i` is the leftmost occurrence of `pattern` in `s`. */
  predicate FirstAt(s: string, pattern: string, i: nat) {
    OccursAt(s, pattern, i) && forall k: nat :: k < i ==> !OccursAt(s, pattern, k)
  }

  predicate Contains(s: string, pattern: string) {
    exists i: nat :: i <= |s| && OccursAt(s, pattern, i)
  }

  lemma OccursChar(s: string, pattern: string, i: nat, j: nat)
    requires i + j < |s| && j < |pattern|
    ensures OccursAt(s, pattern, i) ==> s[i + j] == pattern[j]
  {
    assert OccursAt(s, pattern, i) ==> s[i + j] == s[i..i + |pattern|][j];
  }

  lemma FirstIsUnique(s: string, pattern: string, i: nat, j: nat)
    requires FirstAt(s, pattern, i) && FirstAt(s, pattern, j)
    ensures i == j
  {
  }

  /** The pieces of `s` between the `c`s; one more piece than there are `c`s. */
  function Split<T(==)>(s: seq<T>, c: T): (pieces: seq<seq<T>>)
    ensures pieces != []
  {
    if s == [] then [[]]
    else
      var init, x := Split(s[..|s| - 1], c), s[|s| - 1];
      if x == c then init + [[]] else ExtendLast(init, x)
  }

  function ExtendLast<T>(pieces: seq<seq<T>>, x: T): (r: seq<seq<T>>)
    requires pieces != []
    ensures |r| == |pieces|
  {
    pieces[|pieces| - 1 := pieces[|pieces| - 1] + [x]]
  }

  function Join<T>(pieces: seq<seq<T>>, c: T): seq<T> {
    if pieces == [] then [] else if |pieces| == 1 then pieces[0] else pieces[0] + [c] + Join(pieces[1..], c)
  }

  lemma SplitAppend<T>(s: seq<T>, x: T, c: T)
    ensures Split(s + [x], c) == if x == c then Split(s, c) + [[]] else ExtendLast(Split(s, c), x)
  {
    assert (s + [x])[..|s|] == s;
  }

  lemma {:induction false} SplitPieces<T>(s: seq<T>, c: T)
    ensures forall i :: 0 <= i < |Split(s, c)| ==> c !in Split(s, c)[i]
  {
    if s != [] {
      SplitPieces(s[..|s| - 1], c);
    }
  }

  lemma {:induction false} SplitPiece<T>(piece: seq<T>, c: T)
    requires c !in piece
    ensures Split(piece, c) == [piece]
  {
    if piece != [] {
      SplitPiece(piece[..|piece| - 1], c);
      assert piece[..|piece| - 1] + [piece[|piece| - 1]] == piece;
    }
  }

  lemma {:induction false} SplitFirst<T>(piece: seq<T>, rest: seq<T>, c: T)
    requires c !in piece
    ensures Split(piece + [c] + rest, c) == [piece] + Split(rest, c)
  {
    var s := piece + [c] + rest;
    if rest == [] {
      SplitPiece(piece, c);
      SplitAppend(piece, c, c);
      assert s == piece + [c];
    } else {
      var init, x := rest[..|rest| - 1], rest[|rest| - 1];
      SplitFirst(piece, init, c);
      SplitAppend(piece + [c] + init, x, c);
      assert s == piece + [c] + init + [x];
    }
  }

  lemma {:induction false} SplitJoin<T>(pieces: seq<seq<T>>, c: T)
    requires pieces != [] && forall i :: 0 <= i < |pieces| ==> c !in pieces[i]
    ensures Split(Join(pieces, c), c) == pieces
  {
    if |pieces| == 1 {
      SplitPiece(pieces[0], c);
    } else {
      SplitJoin(pieces[1..], c);
      SplitFirst(pieces[0], Join(pieces[1..], c), c);
    }
  }

  lemma {:induction false} JoinExtend<T>(pieces: seq<seq<T>>, x: T, c: T)
    requires pieces != []
    ensures Join(ExtendLast(pieces, x), c) == Join(pieces, c) + [x]
    ensures Join(pieces + [[]], c) == Join(pieces, c) + [c]
  {
    if |pieces| == 1 {
      assert (pieces + [[]])[1..] == [[]];
    } else {
      JoinExtend(pieces[1..], x, c);
      assert ExtendLast(pieces, x)[1..] == ExtendLast(pieces[1..], x);
      assert (pieces + [[]])[1..] == pieces[1..] + [[]];
    }
  }

  lemma {:induction false} JoinSplit<T>(s: seq<T>, c: T)
    ensures Join(Split(s, c), c) == s
  {
    if s != [] {
      JoinSplit(s[..|s| - 1], c);
      JoinExtend(Split(s[..|s| - 1], c), s[|s| - 1], c);
      assert s[..|s| - 1] + [s[|s| - 1]] == s;
    }
  }
}
