/**
 * splitMatch: one line of search output split into file, line number and
 * content. git grep -z separates all three fields with NUL; GNU grep -Z
 * puts a NUL after the file name and a ':' after the line number.
 */
module Backend {
  import opened Wrappers
  import opened Strs

  const NUL: char := '\0'

  /** One search hit as printed by the search tool. */
  datatype Hit = Hit(file: string, line: string, content: string)

  /** The text before the first c in s and the text after it, if s holds a c. */
  function Cut(s: string, c: char): Option<(string, string)> {
    if s == [] then None
    else if s[0] == c then Some(([], s[1..]))
    else match Cut(s[1..], c)
      case None => None
      case Some((a, b)) => Some(([s[0]] + a, b))
  }

  /** The text of s before its first c, or all of s. */
  function Before(s: string, c: char): string {
    if s == [] || s[0] == c then [] else [s[0]] + Before(s[1..], c)
  }

  /**
   * splitMatch. The file is the text before the first NUL. git grep puts
   * the line number before the second NUL and the content after it; GNU
   * grep puts the line number before the first ':' of the field that ends
   * at the second NUL or at the end. None stands for the index-out-of-range
   * panic of the source on a line with too few separators.
   */
  function SplitMatch(m: string, gitgrep: bool): (r: Option<Hit>)
    ensures NUL !in m ==> r.None?
    ensures r.Some? <==> match Cut(m, NUL)
                         case None => false
                         case Some((_, rest)) => if gitgrep then NUL in rest else ':' in Before(rest, NUL)
  {
    CutSplits(m, NUL);
    match Cut(m, NUL)
    case None => None
    case Some((file, rest)) =>
      if gitgrep then
        CutSplits(rest, NUL);
        match Cut(rest, NUL)
        case None => None
        case Some((line, content)) => Some(Hit(file, line, content))
      else
        CutSplits(Before(rest, NUL), ':');
        match Cut(Before(rest, NUL), ':')
        case None => None
        case Some((line, content)) => Some(Hit(file, line, content))
  }

  /** Cutting finds a separator exactly when there is one, and splits there. */
  lemma {:induction false} CutSplits(s: string, c: char)
    ensures Cut(s, c).Some? <==> c in s
    ensures Cut(s, c).Some? ==> var (a, b) := Cut(s, c).value; s == a + [c] + b && c !in a
  {
    if s != [] && s[0] != c {
      CutSplits(s[1..], c);
      assert s == [s[0]] + s[1..];
    }
  }

  /** Cutting "a c b" where a holds no c gives a and b. */
  lemma {:induction false} CutCons(a: string, b: string, c: char)
    requires c !in a
    ensures Cut(a + [c] + b, c) == Some((a, b))
  {
    if a == [] {
      assert a + [c] + b == [c] + b;
    } else {
      assert (a + [c] + b)[1..] == a[1..] + [c] + b;
      CutCons(a[1..], b, c);
      assert [a[0]] + a[1..] == a;
    }
  }

  /** Before keeps a text without c whole, and stops at the first c otherwise. */
  lemma {:induction false} BeforeCut(s: string, c: char)
    ensures c !in s ==> Before(s, c) == s
    ensures Cut(s, c).Some? ==> Before(s, c) == Cut(s, c).value.0
  {
    if s != [] && s[0] != c {
      BeforeCut(s[1..], c);
      assert s == [s[0]] + s[1..];
    }
  }

  /** The fields splitMatch finds never hold the separators around them. */
  lemma SplitMatchFields(m: string, gitgrep: bool)
    requires SplitMatch(m, gitgrep).Some?
    ensures var h := SplitMatch(m, gitgrep).value;
            NUL !in h.file && NUL !in h.line && (!gitgrep ==> ':' !in h.line && NUL !in h.content)
  {
    CutSplits(m, NUL);
    var (file, rest) := Cut(m, NUL).value;
    if gitgrep {
      CutSplits(rest, NUL);
    } else {
      var field := Before(rest, NUL);
      BeforeSep(rest, NUL);
      CutSplits(field, ':');
    }
  }

  lemma {:induction false} BeforeSep(s: string, c: char)
    ensures c !in Before(s, c)
  {
    if s != [] && s[0] != c {
      BeforeSep(s[1..], c);
    }
  }

  /** git mode reads back the three fields git grep -z prints. */
  lemma SplitMatchGitRoundTrip(h: Hit)
    requires NUL !in h.file && NUL !in h.line
    ensures SplitMatch(h.file + [NUL] + h.line + [NUL] + h.content, true) == Some(h)
  {
    var rest := h.line + [NUL] + h.content;
    assert h.file + [NUL] + h.line + [NUL] + h.content == h.file + [NUL] + rest;
    CutCons(h.file, rest, NUL);
    CutCons(h.line, h.content, NUL);
  }

  /** Conversely, every git-mode hit is exactly the three fields joined by NUL. */
  lemma SplitMatchGitSound(m: string)
    requires SplitMatch(m, true).Some?
    ensures var h := SplitMatch(m, true).value;
            m == h.file + [NUL] + h.line + [NUL] + h.content
  {
    CutSplits(m, NUL);
    var (file, rest) := Cut(m, NUL).value;
    CutSplits(rest, NUL);
  }

  /** grep mode reads back what grep -Z prints for a line without a second NUL. */
  lemma SplitMatchGrepRoundTrip(h: Hit)
    requires NUL !in h.file && NUL !in h.line && ':' !in h.line && NUL !in h.content
    ensures SplitMatch(h.file + [NUL] + h.line + [':'] + h.content, false) == Some(h)
  {
    var rest := h.line + [':'] + h.content;
    assert h.file + [NUL] + h.line + [':'] + h.content == h.file + [NUL] + rest;
    CutCons(h.file, rest, NUL);
    assert NUL !in rest;
    BeforeCut(rest, NUL);
    CutCons(h.line, h.content, ':');
  }

  /**
   * Conversely, a grep-mode hit spells the start of the line, and whatever
   * follows it begins with a second NUL: content after a second NUL is
   * dropped.
   */
  lemma SplitMatchGrepSound(m: string) returns (tail: string)
    requires SplitMatch(m, false).Some?
    ensures var h := SplitMatch(m, false).value;
            m == h.file + [NUL] + h.line + [':'] + h.content + tail
    ensures tail == [] || tail[0] == NUL
  {
    var h := SplitMatch(m, false).value;
    CutSplits(m, NUL);
    var rest := Cut(m, NUL).value.1;
    assert m == h.file + [NUL] + rest;
    var field := Before(rest, NUL);
    assert field == h.line + [':'] + h.content by {
      CutSplits(field, ':');
    }
    tail := FieldTail(rest);
    var x := h.file + [NUL];
    calc {
      m;
      x + (field + tail);
      { AppendAssoc(x, field, tail); }
      x + field + tail;
      { AppendAssoc(x, h.line + [':'], h.content); AppendAssoc(x, h.line, [':']); }
      x + h.line + [':'] + h.content + tail;
    }
  }

  /** The text after the field Before(rest, NUL) is empty or starts with NUL. */
  lemma FieldTail(rest: string) returns (tail: string)
    ensures rest == Before(rest, NUL) + tail
    ensures tail == [] || tail[0] == NUL
  {
    CutSplits(rest, NUL);
    BeforeCut(rest, NUL);
    if NUL in rest {
      tail := [NUL] + Cut(rest, NUL).value.1;
    } else {
      tail := [];
    }
  }

  /**
   * splitMatch as the source writes it, with SplitN: at most three
   * NUL-separated parts, then at most two ':'-separated parts of the second.
   */
  function SplitMatchN(m: string, gitgrep: bool): Option<Hit> {
    var spl := SplitN(m, NUL, 3);
    if gitgrep then
      if |spl| < 3 then None else Some(Hit(spl[0], spl[1], spl[2]))
    else if |spl| < 2 then None
    else
      var splline := SplitN(spl[1], ':', 2);
      if |splline| < 2 then None else Some(Hit(spl[0], splline[0], splline[1]))
  }

  /** The NUL-separated parts SplitN finds are the ones Cut and Before find. */
  lemma NulParts(m: string)
    ensures |SplitN(m, NUL, 3)| >= 2 <==> Cut(m, NUL).Some?
    ensures Cut(m, NUL).Some? ==>
              var (file, rest) := Cut(m, NUL).value;
              var spl := SplitN(m, NUL, 3);
              spl[0] == file && spl[1] == Before(rest, NUL)
              && (|spl| == 3 <==> Cut(rest, NUL).Some?)
              && (|spl| == 3 ==> spl[1] == Cut(rest, NUL).value.0 && spl[2] == Cut(rest, NUL).value.1)
  {
    CutSplits(m, NUL);
    if NUL in m {
      var (file, rest) := Cut(m, NUL).value;
      SplitNCons(file, rest, NUL, 3);
      CutSplits(rest, NUL);
      BeforeCut(rest, NUL);
      if NUL in rest {
        var (a, b) := Cut(rest, NUL).value;
        SplitNCons(a, b, NUL, 2);
      }
    }
  }

  /** The ':'-separated parts SplitN finds are the ones Cut finds. */
  lemma ColonParts(field: string)
    ensures var parts := SplitN(field, ':', 2);
            (|parts| == 2 <==> Cut(field, ':').Some?)
            && (|parts| == 2 ==> parts[0] == Cut(field, ':').value.0 && parts[1] == Cut(field, ':').value.1)
  {
    CutSplits(field, ':');
    if ':' in field {
      var (l, c) := Cut(field, ':').value;
      SplitNCons(l, c, ':', 2);
    }
  }

  /** The separator-by-separator reading agrees with the SplitN reading of the source. */
  lemma SplitMatchAsWritten(m: string, gitgrep: bool)
    ensures SplitMatch(m, gitgrep) == SplitMatchN(m, gitgrep)
  {
    NulParts(m);
    var spl := SplitN(m, NUL, 3);
    if |spl| >= 2 {
      ColonParts(spl[1]);
    }
  }
}
