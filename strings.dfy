/**
 * Splitting character strings at a separator, as Rust's `str::split` does:
 * the primitive under the path model, which splits at '/'.
 */
module Strings {

  /**
   * The pieces of `current + s` between the occurrences of `sep`, where
   * `current` is the piece read so far: one more piece than there are
   * separators in `s`.
   */
  function SplitFrom(current: string, s: string, sep: char): (pieces: seq<string>)
    ensures |pieces| >= 1
    ensures sep !in current ==> forall piece :: piece in pieces ==> sep !in piece
    decreases |s|
  {
    if s == [] then [current]
    else if s[0] == sep then [current] + SplitFrom([], s[1..], sep)
    else SplitFrom(current + [s[0]], s[1..], sep)
  }

  function Split(s: string, sep: char): (pieces: seq<string>)
    ensures |pieces| >= 1
    ensures forall piece :: piece in pieces ==> sep !in piece
  {
    SplitFrom([], s, sep)
  }

  /** The pieces separated by `sep`, as `join` with a one-character separator. */
  function JoinWith(pieces: seq<string>, sep: char): string
  {
    if pieces == [] then ""
    else if |pieces| == 1 then pieces[0]
    else pieces[0] + [sep] + JoinWith(pieces[1..], sep)
  }

  lemma JoinWithCons(first: string, rest: seq<string>, sep: char)
    requires rest != []
    ensures JoinWith([first] + rest, sep) == first + [sep] + JoinWith(rest, sep)
  {
    assert ([first] + rest)[1..] == rest;
  }

  /** Joining the pieces with the separator rebuilds the string. */
  lemma {:induction false} JoinSplitFrom(current: string, s: string, sep: char)
    ensures JoinWith(SplitFrom(current, s, sep), sep) == current + s
    decreases |s|
  {
    if s == [] {
    } else if s[0] == sep {
      var rest := s[1..];
      JoinSplitFrom([], rest, sep);
      assert [] + rest == rest;
      JoinWithCons(current, SplitFrom([], rest, sep), sep);
      assert s == [sep] + rest;
      AppendAssociates(current, [sep], rest);
    } else {
      var rest := s[1..];
      JoinSplitFrom(current + [s[0]], rest, sep);
      assert s == [s[0]] + rest;
      AppendAssociates(current, [s[0]], rest);
    }
  }

  lemma JoinSplit(s: string, sep: char)
    ensures JoinWith(Split(s, sep), sep) == s
  {
    JoinSplitFrom([], s, sep);
    assert [] + s == s;
  }

  /** A separator-free stretch extends the current piece. */
  lemma {:induction false} SplitFromPiece(current: string, piece: string, rest: string, sep: char)
    requires sep !in piece
    ensures SplitFrom(current, piece + rest, sep) == SplitFrom(current + piece, rest, sep)
    decreases |piece|
  {
    if piece == [] {
      assert piece + rest == rest && current + piece == current;
    } else {
      assert (piece + rest)[0] == piece[0] && (piece + rest)[1..] == piece[1..] + rest;
      assert piece[0] in piece;
      SplitFromPiece(current + [piece[0]], piece[1..], rest, sep);
      assert current + [piece[0]] + piece[1..] == current + piece;
    }
  }

  /** Splitting a join of separator-free pieces gives the pieces back. */
  lemma {:induction false} SplitJoin(pieces: seq<string>, sep: char)
    requires |pieces| >= 1
    requires forall piece :: piece in pieces ==> sep !in piece
    ensures Split(JoinWith(pieces, sep), sep) == pieces
  {
    var first := pieces[0];
    assert first in pieces;
    if |pieces| == 1 {
      SplitFromPiece([], first, [], sep);
      assert first + [] == first && [] + first == first;
    } else {
      var rest := JoinWith(pieces[1..], sep);
      assert forall piece :: piece in pieces[1..] ==> piece in pieces;
      SplitJoin(pieces[1..], sep);
      SplitFromPiece([], first, [sep] + rest, sep);
      assert first + [sep] + rest == first + ([sep] + rest);
      assert ([sep] + rest)[1..] == rest;
      assert [] + first == first;
      assert pieces == [first] + pieces[1..];
    }
  }

  lemma AppendAssociates(a: string, b: string, c: string)
    ensures (a + b) + c == a + (b + c)
  {
  }
}
