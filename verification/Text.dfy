// Splitting and joining strings, prefixes, suffixes and positions.
module Text {
  import opened Wrappers

  predicate Piece(s: string, sep: char) { sep !in s }

  // The pieces between separators.
  function Split(s: string, sep: char): (parts: seq<string>)
    ensures parts != [] && forall i | 0 <= i < |parts| :: Piece(parts[i], sep)
  {
    if s == [] then [[]]
    else
      var rest := Split(s[1..], sep);
      if s[0] == sep then [[]] + rest else [[s[0]] + rest[0]] + rest[1..]
  }

  // The pieces with separators between.
  function Join(parts: seq<string>, sep: char): string {
    if parts == [] then [] else if |parts| == 1 then parts[0] else parts[0] + [sep] + Join(parts[1..], sep)
  }

  lemma {:induction false} SplitPiece(piece: string, rest: string, sep: char)
    requires Piece(piece, sep)
    ensures Split(piece + [sep] + rest, sep) == [piece] + Split(rest, sep)
  {
    var s := piece + [sep] + rest;
    if piece == [] {
      assert s[1..] == rest;
    } else {
      assert s[1..] == piece[1..] + [sep] + rest;
      SplitPiece(piece[1..], rest, sep);
      assert piece == [piece[0]] + piece[1..];
      assert ([piece[1..]] + Split(rest, sep))[1..] == Split(rest, sep);
    }
  }

  lemma {:induction false} SplitWhole(s: string, sep: char)
    requires Piece(s, sep)
    ensures Split(s, sep) == [s]
  {
    if s != [] {
      SplitWhole(s[1..], sep);
      assert s == [s[0]] + s[1..];
    }
  }

  lemma {:induction false} SplitSnoc(s: string, piece: string, sep: char)
    requires Piece(piece, sep)
    ensures Split(s + [sep] + piece, sep) == Split(s, sep) + [piece]
  {
    var t := s + [sep] + piece;
    if s == [] {
      assert t == [sep] + piece && t[1..] == piece;
      SplitWhole(piece, sep);
    } else {
      assert t[1..] == s[1..] + [sep] + piece;
      SplitSnoc(s[1..], piece, sep);
      var front := Split(s[1..], sep);
      assert (front + [piece])[1..] == front[1..] + [piece];
    }
  }

  // Splitting loses nothing, and any pieces can be split apart again.
  lemma {:induction false} JoinSplit(s: string, sep: char)
    ensures Join(Split(s, sep), sep) == s
  {
    if s != [] {
      JoinSplit(s[1..], sep);
      if s[0] == sep {
        assert s == [sep] + s[1..];
      } else {
        assert s == [s[0]] + s[1..];
      }
    }
  }

  lemma {:induction false} SplitJoin(parts: seq<string>, sep: char)
    requires parts != [] && forall i | 0 <= i < |parts| :: Piece(parts[i], sep)
    ensures Split(Join(parts, sep), sep) == parts
  {
    if |parts| == 1 {
      SplitWhole(parts[0], sep);
    } else {
      SplitPiece(parts[0], Join(parts[1..], sep), sep);
      SplitJoin(parts[1..], sep);
    }
  }

  lemma SplitInjective(s: string, t: string, sep: char)
    requires Split(s, sep) == Split(t, sep)
    ensures s == t
  {
    JoinSplit(s, sep);
    JoinSplit(t, sep);
  }

  predicate StartsWith(s: string, start: string) { |s| >= |start| && s[..|start|] == start }

  predicate EndsWith(s: string, end: string) { |s| >= |end| && s[|s| - |end|..] == end }

  // The first position of a character.
  function IndexOf(s: string, c: char): (i: Option<nat>)
    ensures i.Some? ==> i.value < |s| && s[i.value] == c
  {
    if s == [] then None
    else if s[0] == c then Some(0)
    else match IndexOf(s[1..], c) case None => None case Some(i) => Some(i + 1)
  }

  lemma {:induction false} IndexAfter(head: string, rest: string, c: char)
    requires c !in head
    ensures IndexOf(head + [c] + rest, c) == Some(|head|)
  {
    var s := head + [c] + rest;
    if head != [] {
      assert s[1..] == head[1..] + [c] + rest;
      IndexAfter(head[1..], rest, c);
    }
  }

  lemma {:induction false} NoIndex(s: string, c: char)
    requires c !in s
    ensures IndexOf(s, c) == None
  {
    if s != [] { NoIndex(s[1..], c); }
  }
}
