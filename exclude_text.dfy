/**
 * The text format of the exclude file: how `BufRead::lines` cuts the file's
 * contents into lines, how the reader drops comment lines, and the text the
 * writer produces for a sequence of lines (each followed by '\n').
 */
module ExcludeText {
  import opened Strings

  const Newline: char := '\n'
  const CarriageReturn: char := '\r'

  /** `line.starts_with("#")`. */
  predicate IsComment(line: string)
  {
    |line| > 0 && line[0] == '#'
  }

  /** `BufRead::lines` also drops a '\r' that stands just before the '\n'. */
  function StripCarriageReturn(line: string): string
  {
    if |line| > 0 && line[|line| - 1] == CarriageReturn then line[..|line| - 1] else line
  }

  /**
   * The lines `BufRead::lines` yields for `current + s`, `current` being the
   * part of a line read so far: each '\n' ends a line, which is yielded
   * without it; text left after the last '\n' is yielded as it is.
   */
  function LinesFrom(current: string, s: string): (lines: seq<string>)
    ensures Newline !in current ==> forall line :: line in lines ==> Newline !in line
    ensures lines == [] <==> current == [] && s == []
    decreases |s|
  {
    if s == [] then (if current == [] then [] else [current])
    else if s[0] == Newline then [StripCarriageReturn(current)] + LinesFrom([], s[1..])
    else LinesFrom(current + [s[0]], s[1..])
  }

  /**
   * The lines `BufRead::lines` yields for `s`: the terminator is stripped,
   * a final line without terminator is still yielded, and empty text yields
   * no line at all.
   */
  function Lines(s: string): (lines: seq<string>)
    ensures forall line :: line in lines ==> Newline !in line
    ensures lines == [] <==> s == []
  {
    LinesFrom([], s)
  }

  /** The lines that `exclude_list` keeps: those not starting with '#', in order. */
  function Uncommented(lines: seq<string>): (kept: seq<string>)
    ensures forall line :: line in kept <==> line in lines && !IsComment(line)
    ensures |kept| <= |lines|
    ensures (forall line :: line in lines ==> !IsComment(line)) ==> kept == lines
  {
    if lines == [] then []
    else
      var rest := Uncommented(lines[1..]);
      assert lines == [lines[0]] + lines[1..];
      if IsComment(lines[0]) then rest else [lines[0]] + rest
  }

  /** The entries `exclude_list` yields for a file holding `contents`. */
  function ExcludeEntries(contents: string): (entries: seq<string>)
    ensures forall entry :: entry in entries ==> Newline !in entry && !IsComment(entry)
    ensures forall entry :: entry in entries <==> entry in Lines(contents) && !IsComment(entry)
    ensures contents == [] ==> entries == []
  {
    Uncommented(Lines(contents))
  }

  /** The text `writeln!` produces for `lines`, one after the other. */
  function Terminated(lines: seq<string>): (text: string)
    ensures text == [] <==> lines == []
    ensures text != [] ==> text[|text| - 1] == Newline
  {
    if lines == [] then ""
    else
      var rest := Terminated(lines[1..]);
      lines[0] + [Newline] + rest
  }

  /** Text is cut after a '\n', or is empty: what `writeln!` always leaves. */
  predicate EndsAtLineBoundary(s: string)
  {
    s == [] || s[|s| - 1] == Newline
  }

  /** A line that `lines()` gives back unchanged once it is written with `writeln!`. */
  predicate IsWellFormedLine(line: string)
  {
    Newline !in line && !(|line| > 0 && line[|line| - 1] == CarriageReturn)
  }

  lemma {:induction false} TerminatedSnoc(lines: seq<string>, line: string)
    ensures Terminated(lines + [line]) == Terminated(lines) + (line + [Newline])
  {
    if lines == [] {
      assert lines + [line] == [line];
    } else {
      assert (lines + [line])[1..] == lines[1..] + [line];
      TerminatedSnoc(lines[1..], line);
    }
  }

  /** Two appends write what one append of both entry lists writes. */
  lemma {:induction false} TerminatedAppend(a: seq<string>, b: seq<string>)
    ensures Terminated(a + b) == Terminated(a) + Terminated(b)
  {
    if a == [] {
      assert a + b == b;
    } else {
      assert (a + b)[1..] == a[1..] + b;
      TerminatedAppend(a[1..], b);
    }
  }

  /** A stretch without '\n' extends the line being read. */
  lemma {:induction false} LinesFromPiece(current: string, piece: string, rest: string)
    requires Newline !in piece
    ensures LinesFrom(current, piece + rest) == LinesFrom(current + piece, rest)
    decreases |piece|
  {
    if piece == [] {
      assert piece + rest == rest && current + piece == current;
    } else {
      assert (piece + rest)[0] == piece[0] && (piece + rest)[1..] == piece[1..] + rest;
      assert piece[0] in piece;
      LinesFromPiece(current + [piece[0]], piece[1..], rest);
      assert current + [piece[0]] + piece[1..] == current + piece;
    }
  }

  /** The first line ends at the first '\n'. */
  lemma LinesCons(line: string, rest: string)
    requires Newline !in line
    ensures Lines(line + [Newline] + rest) == [StripCarriageReturn(line)] + Lines(rest)
  {
    LinesFromPiece([], line, [Newline] + rest);
    assert line + [Newline] + rest == line + ([Newline] + rest);
    assert [] + line == line;
    assert ([Newline] + rest)[1..] == rest;
  }

  /** A last line without terminator is still yielded. */
  lemma LinesOfUnterminated(tail: string)
    requires tail != [] && Newline !in tail
    ensures Lines(tail) == [tail]
  {
    LinesFromPiece([], tail, []);
    assert tail + [] == tail && [] + tail == tail;
  }

  /** The '\n' that `writeln!` adds when the text does not end at a line boundary. */
  function MissingTerminator(s: string): string
  {
    if EndsAtLineBoundary(s) then [] else [Newline]
  }

  lemma {:induction false} RewriteLinesFrom(current: string, s: string)
    requires CarriageReturn !in s && Newline !in current
    requires current == [] || current[|current| - 1] != CarriageReturn
    ensures Terminated(LinesFrom(current, s)) == current + s + MissingTerminator(current + s)
    decreases |s|
  {
    if s == [] {
      assert current + s == current;
      if current != [] {
        assert current[|current| - 1] in current;
        assert LinesFrom(current, s) == [current];
      }
    } else {
      var rest := s[1..];
      assert CarriageReturn !in rest && s[0] != CarriageReturn by {
        assert s[0] in s;
        assert forall c :: c in rest ==> c in s;
      }
      if s[0] == Newline {
        RewriteAtNewline(current, s);
      } else {
        assert Newline !in current + [s[0]];
        RewriteLinesFrom(current + [s[0]], rest);
        assert current + [s[0]] + rest == current + s;
      }
    }
  }

  lemma {:induction false} RewriteAtNewline(current: string, s: string)
    requires s != [] && s[0] == Newline && CarriageReturn !in s[1..] && Newline !in current
    requires current == [] || current[|current| - 1] != CarriageReturn
    ensures Terminated(LinesFrom(current, s)) == current + s + MissingTerminator(current + s)
    decreases |s|, 0
  {
    var rest := s[1..];
    TerminatedAtNewline(current, s);
    RewriteLinesFrom([], rest);
    assert [] + rest == rest;
    TextAtNewline(current, s);
  }

  lemma TerminatedAtNewline(current: string, s: string)
    requires s != [] && s[0] == Newline
    requires current == [] || current[|current| - 1] != CarriageReturn
    ensures Terminated(LinesFrom(current, s)) == current + [Newline] + Terminated(LinesFrom([], s[1..]))
  {
    var lines := LinesFrom([], s[1..]);
    assert StripCarriageReturn(current) == current;
    assert LinesFrom(current, s) == [current] + lines;
    assert ([current] + lines)[1..] == lines;
  }

  lemma TextAtNewline(current: string, s: string)
    requires s != [] && s[0] == Newline
    ensures current + [Newline] + (s[1..] + MissingTerminator(s[1..]))
         == current + s + MissingTerminator(current + s)
  {
    var rest := s[1..];
    assert MissingTerminator(current + s) == MissingTerminator(rest) by {
      if rest != [] {
        assert (current + s)[|current + s| - 1] == rest[|rest| - 1];
      }
    }
    assert s == [Newline] + rest;
    AppendAssociates(current, [Newline], rest);
    AppendAssociates(current + [Newline], rest, MissingTerminator(rest));
  }

  /**
   * Writing back the lines that were read reproduces text free of '\r',
   * with a final '\n' added when it was missing.
   */
  lemma LinesRewritten(s: string)
    requires CarriageReturn !in s
    ensures Terminated(Lines(s)) == s + MissingTerminator(s)
  {
    RewriteLinesFrom([], s);
    assert [] + s == s;
  }

  /** A line that is cut at a '\n' is split independently of what follows. */
  lemma {:induction false} LinesAppend(a: string, b: string)
    requires EndsAtLineBoundary(a)
    ensures Lines(a + b) == Lines(a) + Lines(b)
    decreases |a|
  {
    if a == [] {
      assert a + b == b;
    } else {
      var line, rest := CutTerminatedLine(a);
      LinesCons(line, rest);
      LinesCons(line, rest + b);
      LinesAppend(rest, b);
      assert a + b == line + [Newline] + (rest + b);
    }
  }

  /** Text that ends at a line boundary starts with a terminated line. */
  lemma {:induction false} CutTerminatedLine(a: string) returns (line: string, rest: string)
    requires a != [] && EndsAtLineBoundary(a)
    ensures a == line + [Newline] + rest
    ensures Newline !in line && EndsAtLineBoundary(rest) && |rest| < |a|
    decreases |a|
  {
    if a[0] == Newline {
      line, rest := [], a[1..];
      if rest != [] {
        assert rest[|rest| - 1] == a[|a| - 1];
      }
    } else {
      var line', rest' := CutTerminatedLine(a[1..]);
      line, rest := [a[0]] + line', rest';
      assert a == [a[0]] + a[1..];
    }
  }

  /** The line `writeln!` writes for `line` is read back as `line`. */
  lemma LinesOfOneLine(line: string)
    requires IsWellFormedLine(line)
    ensures Lines(line + [Newline]) == [line]
  {
    LinesCons(line, []);
    assert line + [Newline] + [] == line + [Newline];
  }

  /** Reading back what `writeln!` wrote for well-formed lines gives those lines. */
  lemma {:induction false} LinesOfTerminated(lines: seq<string>)
    requires forall line :: line in lines ==> IsWellFormedLine(line)
    ensures Lines(Terminated(lines)) == lines
  {
    if lines != [] {
      assert lines[0] in lines;
      LinesCons(lines[0], Terminated(lines[1..]));
      assert forall line :: line in lines[1..] ==> line in lines;
      LinesOfTerminated(lines[1..]);
      assert lines == [lines[0]] + lines[1..];
    }
  }

  lemma {:induction false} UncommentedAppend(a: seq<string>, b: seq<string>)
    ensures Uncommented(a + b) == Uncommented(a) + Uncommented(b)
  {
    if a == [] {
      assert a + b == b;
    } else {
      assert (a + b)[0] == a[0];
      assert (a + b)[1..] == a[1..] + b;
      UncommentedAppend(a[1..], b);
    }
  }

  /**
   * Listing after an append to a file that ends at a line boundary: the old
   * entries, then the appended lines, in order and without deduplication.
   */
  lemma ExcludeEntriesAfterAppend(contents: string, lines: seq<string>)
    requires EndsAtLineBoundary(contents)
    requires forall line :: line in lines ==> IsWellFormedLine(line) && !IsComment(line)
    ensures ExcludeEntries(contents + Terminated(lines)) == ExcludeEntries(contents) + lines
  {
    LinesAppend(contents, Terminated(lines));
    LinesOfTerminated(lines);
    UncommentedAppend(Lines(contents), lines);
  }

  /** Appending the same entry twice lists it twice. */
  lemma DuplicateEntryListedTwice(contents: string, line: string)
    requires EndsAtLineBoundary(contents)
    requires IsWellFormedLine(line) && !IsComment(line)
    ensures ExcludeEntries(contents + Terminated([line]) + Terminated([line]))
         == ExcludeEntries(contents) + [line, line]
  {
    var once := contents + Terminated([line]);
    assert ExcludeEntries(once) == ExcludeEntries(contents) + [line] by {
      ExcludeEntriesAfterAppend(contents, [line]);
    }
    assert EndsAtLineBoundary(once) by {
      assert once[|once| - 1] == Terminated([line])[|Terminated([line])| - 1];
    }
    ExcludeEntriesAfterAppend(once, [line]);
  }

  /** A last line without terminator is yielded after the complete lines. */
  lemma UnterminatedLastLine(head: string, tail: string)
    requires EndsAtLineBoundary(head)
    requires tail != [] && Newline !in tail
    ensures Lines(head + tail) == Lines(head) + [tail]
  {
    LinesOfUnterminated(tail);
    LinesAppend(head, tail);
  }

  /**
   * Appending to a file whose last line `tail` has no terminator glues the
   * first appended line onto that last line.
   */
  lemma GlueOntoLastLine(head: string, tail: string, first: string, rest: seq<string>)
    requires EndsAtLineBoundary(head)
    requires tail != [] && Newline !in tail
    requires IsWellFormedLine(tail + first)
    requires forall line :: line in rest ==> IsWellFormedLine(line)
    ensures Lines(head + tail + Terminated([first] + rest)) == Lines(head) + [tail + first] + rest
  {
    var glued := [tail + first] + rest;
    var text := Terminated(glued);
    GluedText(tail, first, rest);
    assert head + tail + Terminated([first] + rest) == head + text;
    assert forall line :: line in glued ==> line == tail + first || line in rest;
    LinesOfTerminated(glued);
    LinesAppend(head, text);
  }

  lemma GluedText(tail: string, first: string, rest: seq<string>)
    ensures tail + Terminated([first] + rest) == Terminated([tail + first] + rest)
  {
    assert ([first] + rest)[1..] == rest;
    assert ([tail + first] + rest)[1..] == rest;
  }

  /** The comment line of a two-line file is not listed. */
  lemma CommentLineNotListed()
    ensures ExcludeEntries(Terminated(["# note", "x.tmp"])) == ["x.tmp"]
  {
    var lines := ["# note", "x.tmp"];
    assert forall line :: line in lines ==> IsWellFormedLine(line);
    LinesOfTerminated(lines);
    assert IsComment(lines[0]) && !IsComment(lines[1]);
    assert Uncommented(lines[1..]) == ["x.tmp"];
  }
}
