/**
 * The parts of Go's `strings` and `bytes` packages that the match list,
 * the selector parser and the column writer call: TrimSpace, Split,
 * SplitN, Join, Repeat, and the "[^,]+" FindAllString of parseSelectors.
 * Strings are sequences of characters; every separator used here is a
 * single character.
 */
module Strs {

  /** unicode.IsSpace: the Latin-1 spaces plus the other White_Space runes. */
  predicate IsSpace(c: char) {
    c == '\t' || c == '\n' || c == '\U{0B}' || c == '\U{0C}' || c == '\r' || c == ' '
    || c == '\U{85}' || c == '\U{A0}' || c == '\U{1680}'
    || ('\U{2000}' <= c <= '\U{200A}') || c == '\U{2028}' || c == '\U{2029}'
    || c == '\U{202F}' || c == '\U{205F}' || c == '\U{3000}'
  }

  function TrimLeft(s: string): (r: string)
    ensures |r| <= |s| && r == s[|s| - |r|..]
    ensures forall k :: 0 <= k < |s| - |r| ==> IsSpace(s[k])
    ensures r == [] || !IsSpace(r[0])
  {
    if s != [] && IsSpace(s[0]) then TrimLeft(s[1..]) else s
  }

  function TrimRight(s: string): (r: string)
    ensures |r| <= |s| && r == s[..|r|]
    ensures forall k :: |r| <= k < |s| ==> IsSpace(s[k])
    ensures r == [] || !IsSpace(r[|r| - 1])
  {
    if s != [] && IsSpace(s[|s| - 1]) then TrimRight(s[..|s| - 1]) else s
  }

  /** strings.TrimSpace: drops leading and trailing white space. */
  function TrimSpace(s: string): (r: string)
    ensures r == [] || (!IsSpace(r[0]) && !IsSpace(r[|r| - 1]))
    ensures (s == [] || (!IsSpace(s[0]) && !IsSpace(s[|s| - 1]))) ==> r == s
  {
    TrimRight(TrimLeft(s))
  }

  /** Trimming only removes characters. */
  lemma TrimSpaceKeeps(s: string, c: char)
    requires c in TrimSpace(s)
    ensures c in s
  {
    var t := TrimLeft(s);
    assert TrimSpace(s) == t[..|TrimSpace(s)|];
    assert t == s[|s| - |t|..];
  }

  /** Trimming never makes a text wider in bytes. */
  lemma TrimSpaceBytes(s: string)
    ensures ByteLen(TrimSpace(s)) <= ByteLen(s)
  {
    TrimLeftBytes(s);
    TrimRightBytes(TrimLeft(s));
  }

  lemma TrimLeftBytes(s: string)
    ensures ByteLen(TrimLeft(s)) <= ByteLen(s)
  {
    var t := TrimLeft(s);
    assert s == s[..|s| - |t|] + t;
    ByteLenAppend(s[..|s| - |t|], t);
  }

  lemma TrimRightBytes(s: string)
    ensures ByteLen(TrimRight(s)) <= ByteLen(s)
  {
    var r := TrimRight(s);
    assert s == r + s[|r|..];
    ByteLenAppend(r, s[|r|..]);
  }

  /** Blanks around a text with no space at either end are trimmed away. */
  lemma TrimAround(pre: string, s: string, post: string)
    requires forall k :: 0 <= k < |pre| ==> pre[k] == ' '
    requires forall k :: 0 <= k < |post| ==> post[k] == ' '
    requires s != [] && !IsSpace(s[0]) && !IsSpace(s[|s| - 1])
    ensures TrimSpace(pre + s + post) == s
  {
    var rest := s + post;
    assert rest[0] == s[0];
    TrimLeftBlanks(pre, rest);
    assert pre + s + post == pre + rest;
    TrimRightBlanks(s, post);
    assert TrimSpace(pre + s + post) == TrimRight(rest);
  }

  lemma {:induction false} TrimLeftBlanks(pre: string, s: string)
    requires forall k :: 0 <= k < |pre| ==> pre[k] == ' '
    requires s != [] && !IsSpace(s[0])
    ensures TrimLeft(pre + s) == s
  {
    if pre == [] {
      assert pre + s == s;
    } else {
      assert (pre + s)[1..] == pre[1..] + s;
      TrimLeftBlanks(pre[1..], s);
    }
  }

  lemma {:induction false} TrimRightBlanks(s: string, post: string)
    requires forall k :: 0 <= k < |post| ==> post[k] == ' '
    requires s != [] && !IsSpace(s[|s| - 1])
    ensures TrimRight(s + post) == s
    decreases |post|
  {
    if post == [] {
      assert s + post == s;
    } else {
      var n := |post|;
      assert (s + post)[..|s + post| - 1] == s + post[..n - 1];
      TrimRightBlanks(s, post[..n - 1]);
    }
  }

  /** Number of occurrences of c in s. */
  function CountChar(s: string, c: char): nat
  {
    if s == [] then 0 else (if s[0] == c then 1 else 0) + CountChar(s[1..], c)
  }

  /** Position of the first c in s. */
  function IndexOf(s: string, c: char): (i: nat)
    requires c in s
    ensures i < |s| && s[i] == c && c !in s[..i]
  {
    if s[0] == c then 0 else 1 + IndexOf(s[1..], c)
  }

  /** strings.Join with a one-character separator. */
  function Join(parts: seq<string>, sep: char): string
  {
    if parts == [] then ""
    else if |parts| == 1 then parts[0]
    else parts[0] + [sep] + Join(parts[1..], sep)
  }

  lemma JoinTwo(a: string, b: string, sep: char)
    ensures Join([a, b], sep) == a + [sep] + b
  {
    assert [a, b][1..] == [b];
  }

  lemma JoinThree(a: string, b: string, c: string, sep: char)
    ensures Join([a, b, c], sep) == a + [sep] + b + [sep] + c
  {
    assert [a, b, c][1..] == [b, c];
    JoinTwo(b, c, sep);
  }

  /** strings.Split with a one-character separator: the text between separators. */
  function Split(s: string, sep: char): (parts: seq<string>)
    ensures |parts| == 1 + CountChar(s, sep)
    ensures forall k :: 0 <= k < |parts| ==> sep !in parts[k]
    ensures Join(parts, sep) == s
    decreases |s|
  {
    if sep !in s then
      CountNone(s, sep);
      [s]
    else
      var i := IndexOf(s, sep);
      CountSplit(s[..i], s[i + 1..], sep);
      assert s == s[..i] + [sep] + s[i + 1..];
      [s[..i]] + Split(s[i + 1..], sep)
  }

  /**
   * bytes.SplitN with n >= 1 and a one-character separator: at most n
   * parts, the last holding the unsplit remainder.
   */
  function SplitN(s: string, sep: char, n: nat): (parts: seq<string>)
    requires n >= 1
    ensures 1 <= |parts| <= n
    decreases n
  {
    if n == 1 || sep !in s then [s]
    else
      var i := IndexOf(s, sep);
      [s[..i]] + SplitN(s[i + 1..], sep, n - 1)
  }

  /** One step of SplitN: the text up to the first separator, then the parts of the rest. */
  lemma SplitNStep(s: string, sep: char, n: nat)
    requires n > 1 && sep in s
    ensures var i := IndexOf(s, sep);
            SplitN(s, sep, n) == [s[..i]] + SplitN(s[i + 1..], sep, n - 1)
  {
  }

  lemma SliceAround(s: string, i: nat)
    requires i < |s|
    ensures s[..i] + [s[i]] + s[i + 1..] == s
  {
  }

  lemma JoinCons(a: string, rest: seq<string>, sep: char)
    requires rest != []
    ensures Join([a] + rest, sep) == a + [sep] + Join(rest, sep)
  {
    assert ([a] + rest)[0] == a && ([a] + rest)[1..] == rest;
  }

  /** Joining the parts SplitN finds gives the text back. */
  lemma {:induction false} SplitNJoin(s: string, sep: char, n: nat)
    requires n >= 1
    ensures Join(SplitN(s, sep, n), sep) == s
    decreases n
  {
    if n > 1 && sep in s {
      var i := IndexOf(s, sep);
      var a, b := s[..i], s[i + 1..];
      SliceAround(s, i);
      SplitNCons(a, b, sep, n);
      SplitNJoin(b, sep, n - 1);
      JoinCons(a, SplitN(b, sep, n - 1), sep);
    }
  }

  /** Every part SplitN finds but the last is free of the separator. */
  lemma {:induction false} SplitNFree(s: string, sep: char, n: nat)
    requires n >= 1
    ensures forall k :: 0 <= k < |SplitN(s, sep, n)| - 1 ==> sep !in SplitN(s, sep, n)[k]
    decreases n
  {
    if n > 1 && sep in s {
      var i := IndexOf(s, sep);
      var rest := SplitN(s[i + 1..], sep, n - 1);
      SplitNStep(s, sep, n);
      SplitNFree(s[i + 1..], sep, n - 1);
      var parts := [s[..i]] + rest;
      forall k | 0 <= k < |parts| - 1 ensures sep !in parts[k] {
        if k > 0 {
          assert parts[k] == rest[k - 1];
        }
      }
    }
  }

  /** One step of Split: the text up to the first separator, then the parts of the rest. */
  lemma SplitStep(s: string, sep: char)
    requires sep in s
    ensures var i := IndexOf(s, sep);
            Split(s, sep) == [s[..i]] + Split(s[i + 1..], sep)
  {
  }

  /**
   * With fewer than n parts, SplitN has split at every separator: it finds
   * what Split finds, so its last part is free of the separator too.
   */
  lemma {:induction false} SplitNFewer(s: string, sep: char, n: nat)
    requires n >= 1
    ensures |SplitN(s, sep, n)| < n ==> SplitN(s, sep, n) == Split(s, sep)
    decreases n
  {
    if n > 1 && sep in s {
      var i := IndexOf(s, sep);
      SplitNStep(s, sep, n);
      SplitStep(s, sep);
      SplitNFewer(s[i + 1..], sep, n - 1);
    } else if n > 1 {
      CountNone(s, sep);
    }
  }

  /** The non-empty parts of a sequence of strings, in order. */
  function NonEmpty(parts: seq<string>): (r: seq<string>)
    ensures forall k :: 0 <= k < |r| ==> r[k] != [] && r[k] in parts
  {
    if parts == [] then []
    else (if parts[0] == [] then [] else [parts[0]]) + NonEmpty(parts[1..])
  }

  /** A non-empty first part is kept. */
  lemma NonEmptyCons(a: string, ps: seq<string>)
    requires a != []
    ensures NonEmpty([a] + ps) == [a] + NonEmpty(ps)
  {
    assert ([a] + ps)[0] == a;
    assert ([a] + ps)[1..] == ps;
  }

  /**
   * The matches of the regular expression "[^c]+" found left to right: the
   * maximal runs of characters other than c.
   */
  function Fields(s: string, c: char): (r: seq<string>)
    ensures forall k :: 0 <= k < |r| ==> r[k] != [] && c !in r[k]
  {
    NonEmpty(Split(s, c))
  }

  /** Sequence facts for the loops that build output piece by piece. */
  lemma TakeSnoc<T>(s: seq<T>, i: nat)
    requires i < |s|
    ensures s[..i + 1] == s[..i] + [s[i]]
  {
  }

  lemma AppendAssoc<T>(a: seq<T>, b: seq<T>, c: seq<T>)
    ensures a + b + c == a + (b + c)
  {
  }

  /**
   * strings.Repeat for a non-negative count: count copies of s, that is a
   * text that starts with s and repeats itself every |s| characters.
   */
  function Repeat(s: string, count: nat): (r: string)
    ensures |r| == count * |s|
    ensures count > 0 ==> r[..|s|] == s
    ensures forall k :: 0 <= k < |r| - |s| ==> r[k + |s|] == r[k]
    ensures |s| == 1 ==> forall k :: 0 <= k < |r| ==> r[k] == s[0]
  {
    if count == 0 then ""
    else
      var rest := Repeat(s, count - 1);
      assert forall k :: 0 <= k < |rest| ==> rest[k] == (if k < |s| then s[k] else rest[k - |s|]);
      s + rest
  }

  /** The number of bytes UTF-8 spends on c: one below U+0080, up to four. */
  function RuneLen(c: char): (n: nat)
    ensures 1 <= n <= 4
    ensures n == 1 <==> c as int < 0x80
  {
    if c as int < 0x80 then 1
    else if c as int < 0x800 then 2
    else if c as int < 0x10000 then 3
    else 4
  }

  /** Go's len on a string: the length of its UTF-8 encoding in bytes. */
  function ByteLen(s: string): (n: nat)
    ensures |s| <= n <= 4 * |s|
  {
    if s == [] then 0 else RuneLen(s[0]) + ByteLen(s[1..])
  }

  /** A text is as long in bytes as in characters exactly when it is ASCII. */
  lemma {:induction false} ByteLenAscii(s: string)
    ensures ByteLen(s) == |s| <==> forall k :: 0 <= k < |s| ==> s[k] as int < 0x80
  {
    if s != [] {
      ByteLenAscii(s[1..]);
      assert forall k :: 1 <= k < |s| ==> s[1..][k - 1] == s[k];
    }
  }

  /** The encoding of a concatenation is the concatenation of the encodings. */
  lemma {:induction false} ByteLenAppend(a: string, b: string)
    ensures ByteLen(a + b) == ByteLen(a) + ByteLen(b)
  {
    if a != [] {
      assert (a + b)[0] == a[0] && (a + b)[1..] == a[1..] + b;
      ByteLenAppend(a[1..], b);
    } else {
      assert a + b == b;
    }
  }

  /** count copies of s take count times as many bytes as s. */
  lemma {:induction false} ByteLenRepeat(s: string, count: nat)
    ensures ByteLen(Repeat(s, count)) == count * ByteLen(s)
  {
    if count > 0 {
      var b, rest := ByteLen(s), Repeat(s, count - 1);
      assert Repeat(s, count) == s + rest;
      ByteLenAppend(s, rest);
      ByteLenRepeat(s, count - 1);
      assert b + (count - 1) * b == count * b;
    }
  }

  lemma CountNone(s: string, c: char)
    requires c !in s
    ensures CountChar(s, c) == 0
  {
    if s != [] {
      assert c !in s[1..];
      CountNone(s[1..], c);
    }
  }

  lemma {:induction false} CountAppend(a: string, b: string, c: char)
    ensures CountChar(a + b, c) == CountChar(a, c) + CountChar(b, c)
  {
    if a == [] {
      assert a + b == b;
    } else {
      assert (a + b)[0] == a[0] && (a + b)[1..] == a[1..] + b;
      CountAppend(a[1..], b, c);
    }
  }

  lemma CountSplit(a: string, b: string, c: char)
    requires c !in a
    ensures CountChar(a + [c] + b, c) == 1 + CountChar(b, c)
  {
    CountNone(a, c);
    CountAppend(a, [c] + b, c);
    assert a + [c] + b == a + ([c] + b);
    assert ([c] + b)[0] == c && ([c] + b)[1..] == b;
  }

  /** The first c in "a c b", where a has no c, is right after a. */
  lemma {:induction false} IndexOfCons(a: string, b: string, c: char)
    requires c !in a
    ensures c in a + [c] + b && IndexOf(a + [c] + b, c) == |a|
  {
    var s := a + [c] + b;
    assert s[|a|] == c;
    if a != [] {
      assert s[0] == a[0] && s[1..] == a[1..] + [c] + b;
      IndexOfCons(a[1..], b, c);
    }
  }

  /** Splitting "a c b" where a has no c gives a followed by the parts of b. */
  lemma {:induction false} SplitCons(a: string, b: string, c: char)
    requires c !in a
    ensures Split(a + [c] + b, c) == [a] + Split(b, c)
  {
    var s := a + [c] + b;
    assert c in s by { assert s[|a|] == c; }
    IndexOfCons(a, b, c);
    assert s[..|a|] == a && s[|a| + 1..] == b;
  }

  /** SplitN counterpart of SplitCons. */
  lemma {:induction false} SplitNCons(a: string, b: string, c: char, n: nat)
    requires c !in a && n >= 2
    ensures SplitN(a + [c] + b, c, n) == [a] + SplitN(b, c, n - 1)
  {
    var s := a + [c] + b;
    assert c in s by { assert s[|a|] == c; }
    IndexOfCons(a, b, c);
    assert s[..|a|] == a && s[|a| + 1..] == b;
  }
}
