/**
 * The match list of vgrep: the records [index, file, line, content] the
 * search produced, whose index label always spells the record's position.
 * This module holds the list and the commands that read or change it.
 */
module Store {
  import opened Wrappers
  import opened Strconv
  import opened Strs
  import opened Sorting
  import opened Backend

  /** One record of the match list. */
  datatype Match = Match(index: string, file: string, line: string, content: string)

  /** Every record is labelled with its own position. */
  predicate Labelled(ms: seq<Match>) {
    forall i :: 0 <= i < |ms| ==> ms[i].index == Itoa(i)
  }

  /** The records of ms with their labels rewritten to their positions. */
  function Relabel(ms: seq<Match>): (r: seq<Match>)
    ensures |r| == |ms| && Labelled(r)
    ensures forall i :: 0 <= i < |ms| ==> r[i] == ms[i].(index := Itoa(i))
  {
    seq(|ms|, i requires 0 <= i < |ms| => ms[i].(index := Itoa(i)))
  }

  /** Two lists that hold the same file, line and content at each position. */
  predicate SamePayload(a: seq<Match>, b: seq<Match>) {
    |a| == |b| && forall i :: 0 <= i < |a| ==> a[i].(index := "") == b[i].(index := "")
  }

  lemma RelabelPayload(a: seq<Match>, b: seq<Match>)
    requires SamePayload(a, b)
    ensures Relabel(a) == Relabel(b)
  {
    forall i | 0 <= i < |a| ensures Relabel(a)[i] == Relabel(b)[i] {
      assert a[i].(index := "") == b[i].(index := "");
    }
  }

  /** A relabelled list is already labelled: relabelling again changes nothing. */
  lemma RelabelLabelled(ms: seq<Match>)
    requires Labelled(ms)
    ensures Relabel(ms) == ms
  {
    forall i | 0 <= i < |ms| ensures Relabel(ms)[i] == ms[i] {
      assert ms[i].index == Itoa(i);
    }
  }

  /** The message checkIndices reports for an index out of range. */
  function RangeError(idx: int, n: nat): string {
    "Index " + Itoa(idx) + " out of range (0, " + Itoa(n - 1) + ")"
  }

  /** The first of indices that is not a position of a list of n records. */
  function FirstOutOfRange(indices: seq<int>, n: nat): (r: Option<nat>)
    ensures r.None? <==> forall k :: 0 <= k < |indices| ==> 0 <= indices[k] < n
    ensures r.Some? ==> r.value < |indices| && !(0 <= indices[r.value] < n)
    ensures r.Some? ==> forall k :: 0 <= k < r.value ==> 0 <= indices[k] < n
  {
    if indices == [] then None
    else if !(0 <= indices[0] < n) then Some(0)
    else match FirstOutOfRange(indices[1..], n)
      case None => None
      case Some(k) => Some(k + 1)
  }

  /** Positions 0 .. n - 1 in order. */
  function AllPositions(n: nat): (r: seq<int>)
    ensures |r| == n && forall i :: 0 <= i < n ==> r[i] == i
  {
    seq(n, i => i)
  }

  /**
   * checkIndices against a list of n records: no selection means every
   * record; otherwise the selection is returned as it is when every index
   * is a position, and the first index that is not is reported.
   */
  function CheckIndices(indices: seq<int>, n: nat): (r: Result<seq<int>, string>)
    ensures indices == [] ==> r == Ok(AllPositions(n))
    ensures indices != [] && r.Ok? ==> r.value == indices
    ensures r.Ok? ==> forall k :: 0 <= k < |r.value| ==> 0 <= r.value[k] < n
    ensures r.Err? <==> exists k :: 0 <= k < |indices| && !(0 <= indices[k] < n)
    ensures r.Err? ==>
              exists k :: 0 <= k < |indices| && !(0 <= indices[k] < n)
                            && (forall j :: 0 <= j < k ==> 0 <= indices[j] < n)
                            && r.error == RangeError(indices[k], n)
  {
    if indices == [] then Ok(AllPositions(n))
    else match FirstOutOfRange(indices, n)
      case None => Ok(indices)
      case Some(k) => Err(RangeError(indices[k], n))
  }

  /** The records among the first n of ms whose positions are not in del, in order. */
  function Survivors(ms: seq<Match>, del: seq<int>, n: nat): (r: seq<Match>)
    requires n <= |ms|
    ensures |r| <= n
  {
    if n == 0 then []
    else Survivors(ms, del, n - 1) + (if n - 1 in del then [] else [ms[n - 1]])
  }

  /**
   * The documented effect of deleting the records at the positions in del:
   * the other records, in order, labelled with their new positions.
   */
  function DeleteAll(ms: seq<Match>, del: seq<int>): (r: seq<Match>)
    ensures |r| <= |ms|
  {
    Relabel(Survivors(ms, del, |ms|))
  }

  /** A record survives exactly when its position is not deleted. */
  lemma {:induction false} SurvivorsMembers(ms: seq<Match>, del: seq<int>, n: nat, m: Match)
    requires n <= |ms|
    ensures m in Survivors(ms, del, n) <==> exists k :: 0 <= k < n && k !in del && ms[k] == m
  {
    if n > 0 {
      SurvivorsMembers(ms, del, n - 1, m);
    }
  }

  /** Only the positions below n matter to the first n records. */
  lemma {:induction false} SurvivorsAgree(ms: seq<Match>, d1: seq<int>, d2: seq<int>, n: nat)
    requires n <= |ms|
    requires forall k :: 0 <= k < n ==> (k in d1 <==> k in d2)
    ensures Survivors(ms, d1, n) == Survivors(ms, d2, n)
  {
    if n > 0 {
      SurvivorsAgree(ms, d1, d2, n - 1);
    }
  }

  /** Past the last deleted position the records are kept as they are. */
  lemma {:induction false} SurvivorsTail(ms: seq<Match>, del: seq<int>, p: nat, n: nat)
    requires p <= n <= |ms|
    requires forall k :: p <= k < n ==> k !in del
    ensures Survivors(ms, del, n) == Survivors(ms, del, p) + ms[p..n]
    decreases n - p
  {
    if n > p {
      SurvivorsTail(ms, del, p, n - 1);
      assert ms[p..n] == ms[p..n - 1] + [ms[n - 1]];
    } else {
      assert ms[p..n] == [];
    }
  }

  /** Deleting nothing keeps every record. */
  lemma {:induction false} SurvivorsNone(ms: seq<Match>, n: nat)
    requires n <= |ms|
    ensures Survivors(ms, [], n) == ms[..n]
  {
    if n > 0 {
      SurvivorsNone(ms, n - 1);
      assert ms[..n] == ms[..n - 1] + [ms[n - 1]];
    }
  }

  lemma DeleteNothing(ms: seq<Match>)
    requires Labelled(ms)
    ensures DeleteAll(ms, []) == ms
  {
    SurvivorsNone(ms, |ms|);
    assert ms[..|ms|] == ms;
    RelabelLabelled(ms);
  }

  /** With xs ascending below n, exactly |xs| of the first n records are deleted. */
  lemma {:induction false} SurvivorsCount(ms: seq<Match>, xs: seq<int>, n: nat)
    requires n <= |ms|
    requires forall i, j :: 0 <= i < j < |xs| ==> xs[i] < xs[j]
    requires forall i :: 0 <= i < |xs| ==> 0 <= xs[i] < n
    ensures |Survivors(ms, xs, n)| == n - |xs|
  {
    if n > 0 {
      if |xs| > 0 && xs[|xs| - 1] == n - 1 {
        var init := xs[..|xs| - 1];
        forall k | 0 <= k < n - 1 ensures k in xs <==> k in init {
          if k in xs {
            var i :| 0 <= i < |xs| && xs[i] == k;
            assert i < |xs| - 1 && init[i] == k;
          }
        }
        SurvivorsAgree(ms, xs, init, n - 1);
        SurvivorsCount(ms, init, n - 1);
      } else {
        if |xs| > 0 {
          assert forall i :: 0 <= i < |xs| - 1 ==> xs[i] < xs[|xs| - 1];
        }
        assert n - 1 !in xs;
        SurvivorsCount(ms, xs, n - 1);
      }
    }
  }

  /**
   * Deleting one more position p, above every position already deleted,
   * removes exactly the survivor at the place p now occupies.
   */
  lemma DeleteOneMore(ms: seq<Match>, del: seq<int>, more: seq<int>, p: nat)
    requires p < |ms|
    requires forall k :: k in del ==> k < p
    requires forall k :: k in more <==> k in del || k == p
    ensures var s := Survivors(ms, del, |ms|);
            var q := |Survivors(ms, del, p)|;
            q < |s| && s[q] == ms[p] && Survivors(ms, more, |ms|) == s[..q] + s[q + 1..]
  {
    var n := |ms|;
    var pre := Survivors(ms, del, p);
    SurvivorsTail(ms, del, p, n);
    SurvivorsAgree(ms, del, more, p);
    SurvivorsTail(ms, more, p + 1, n);
    assert Survivors(ms, more, p + 1) == pre;
    var s := pre + ms[p..n];
    assert s[..|pre|] == pre;
    assert s[|pre| + 1..] == ms[p + 1..n];
  }

  /**
   * The list grep builds from its first n output lines, or None when one
   * of them cannot be split.
   */
  function Build(output: seq<string>, usegit: bool, n: nat): (r: Option<seq<Match>>)
    requires n <= |output|
    ensures r.Some? ==> |r.value| == n && Labelled(r.value)
  {
    if n == 0 then Some([])
    else match Build(output, usegit, n - 1)
      case None => None
      case Some(ms) =>
        match SplitMatch(output[n - 1], usegit)
        case None => None
        case Some(h) => Some(ms + [Match(Itoa(n - 1), h.file, h.line, h.content)])
  }

  /** A line that cannot be split spoils every longer prefix of the output. */
  lemma {:induction false} BuildPrefix(output: seq<string>, usegit: bool, k: nat, n: nat)
    requires k <= n <= |output| && Build(output, usegit, k).None?
    ensures Build(output, usegit, n).None?
    decreases n - k
  {
    if k < n {
      BuildPrefix(output, usegit, k, n - 1);
    }
  }

  /**
   * Record k of grep's list carries the fields splitMatch finds in output
   * line k.
   */
  lemma {:induction false} BuildRecordAt(output: seq<string>, usegit: bool, n: nat, k: nat)
    requires n <= |output| && Build(output, usegit, n).Some? && k < n
    ensures var m := Build(output, usegit, n).value[k];
            SplitMatch(output[k], usegit) == Some(Hit(m.file, m.line, m.content))
  {
    if k < n - 1 {
      BuildRecordAt(output, usegit, n - 1, k);
    }
  }

  /** grep succeeds exactly when every output line can be split. */
  lemma {:induction false} BuildSucceeds(output: seq<string>, usegit: bool, n: nat)
    requires n <= |output|
    ensures Build(output, usegit, n).Some? <==> forall k :: 0 <= k < n ==> SplitMatch(output[k], usegit).Some?
  {
    if n > 0 {
      BuildSucceeds(output, usegit, n - 1);
    }
  }

  /** Removing a record before or after relabelling leaves the same labelled list. */
  lemma RelabelRemove(s: seq<Match>, p: nat)
    requires p < |s|
    ensures Relabel(Relabel(s)[..p] + Relabel(s)[p + 1..]) == Relabel(s[..p] + s[p + 1..])
  {
    var cur := Relabel(s);
    var a, b := cur[..p] + cur[p + 1..], s[..p] + s[p + 1..];
    forall i | 0 <= i < |a| ensures a[i].(index := "") == b[i].(index := "") {
      if i < p {
        assert a[i] == cur[i] && b[i] == s[i];
      } else {
        assert a[i] == cur[i + 1] && b[i] == s[i + 1];
      }
    }
    RelabelPayload(a, b);
  }

  /** With the first offset indices of an ascending selection deleted, offset records before sel[offset] are gone. */
  lemma DeletedBefore(orig: seq<Match>, sel: seq<int>, offset: nat)
    requires offset < |sel|
    requires forall i, j :: 0 <= i < j < |sel| ==> sel[i] < sel[j]
    requires forall i :: 0 <= i < |sel| ==> 0 <= sel[i] < |orig|
    ensures |Survivors(orig, sel[..offset], sel[offset])| == sel[offset] - offset
  {
    var done := sel[..offset];
    assert forall i :: 0 <= i < |done| ==> done[i] == sel[i] && 0 <= done[i] < sel[offset];
    SurvivorsCount(orig, done, sel[offset]);
  }

  /** The indices deleted before and after one round of the delete loop. */
  lemma StepSelections(sel: seq<int>, offset: nat)
    requires offset < |sel|
    requires forall i, j :: 0 <= i < j < |sel| ==> sel[i] < sel[j]
    ensures forall k :: k in sel[..offset] ==> k < sel[offset]
    ensures forall k :: k in sel[..offset + 1] <==> k in sel[..offset] || k == sel[offset]
  {
    assert sel[..offset + 1] == sel[..offset] + [sel[offset]];
  }

  /**
   * One round of the corrected delete loop: with the first offset indices
   * of an ascending selection deleted, index sel[offset] sits at position
   * sel[offset] - offset, and removing that position deletes it.
   */
  lemma DeleteStep(orig: seq<Match>, sel: seq<int>, offset: nat)
    requires offset < |sel|
    requires forall i, j :: 0 <= i < j < |sel| ==> sel[i] < sel[j]
    requires forall i :: 0 <= i < |sel| ==> 0 <= sel[i] < |orig|
    ensures var cur := DeleteAll(orig, sel[..offset]);
            var p := sel[offset] - offset;
            0 <= p < |cur| && Labelled(cur)
            && Relabel(cur[..p] + cur[p + 1..]) == DeleteAll(orig, sel[..offset + 1])
  {
    var idx := sel[offset];
    var done := sel[..offset];
    var more := sel[..offset + 1];
    DeletedBefore(orig, sel, offset);
    StepSelections(sel, offset);
    DeleteOneMore(orig, done, more, idx);
    RelabelRemove(Survivors(orig, done, |orig|), idx - offset);
  }

  /** A count map read as Go reads a map of ints: a missing key counts 0. */
  function Get(count: map<string, int>, key: string): int {
    if key in count then count[key] else 0
  }

  /** How many of the first n selected records lie in file f. */
  function FileCount(ms: seq<Match>, indices: seq<int>, n: nat, f: string): (c: nat)
    requires n <= |indices|
    requires forall k :: 0 <= k < |indices| ==> 0 <= indices[k] < |ms|
    ensures c <= n
  {
    if n == 0 then 0
    else FileCount(ms, indices, n - 1, f) + (if ms[indices[n - 1]].file == f then 1 else 0)
  }

  /** A file is counted exactly when one of the selected records lies in it. */
  lemma {:induction false} FileCountPositive(ms: seq<Match>, indices: seq<int>, n: nat, f: string)
    requires n <= |indices|
    requires forall k :: 0 <= k < |indices| ==> 0 <= indices[k] < |ms|
    ensures FileCount(ms, indices, n, f) > 0 <==> exists k :: 0 <= k < n && ms[indices[k]].file == f
  {
    if n > 0 {
      FileCountPositive(ms, indices, n - 1, f);
    }
  }

  /** How many of the first i directory prefixes of the components equal key. */
  function PrefixHits(parts: seq<string>, i: nat, key: string): (c: nat)
    requires i <= |parts|
    ensures c <= i
  {
    if i == 0 then 0
    else PrefixHits(parts, i - 1, key) + (if Join(parts[..i - 1], '/') == key then 1 else 0)
  }

  /**
   * How often commandListTree counts a record in file path under key: a
   * path without '/' counts once under "."; otherwise the path counts once
   * for each of its directory prefixes of 0 to k - 1 of its k components.
   */
  function TreeHits(path: string, key: string): (c: nat)
  {
    var parts := Split(path, '/');
    if |parts| == 1 then (if key == "." then 1 else 0)
    else PrefixHits(parts, |parts|, key)
  }

  /** The count commandListTree keeps under key for the first n selected records. */
  function TreeCount(ms: seq<Match>, indices: seq<int>, n: nat, key: string): (c: nat)
    requires n <= |indices|
    requires forall k :: 0 <= k < |indices| ==> 0 <= indices[k] < |ms|
  {
    if n == 0 then 0
    else TreeCount(ms, indices, n - 1, key) + TreeHits(ms[indices[n - 1]].file, key)
  }

  /** count holds, under every key, the count of the first n selected records. */
  ghost predicate Counted(count: map<string, int>, ms: seq<Match>, indices: seq<int>, n: nat)
    requires n <= |indices|
    requires forall k :: 0 <= k < |indices| ==> 0 <= indices[k] < |ms|
  {
    && (forall key :: key in count <==> TreeCount(ms, indices, n, key) > 0)
    && (forall key :: Get(count, key) == TreeCount(ms, indices, n, key))
  }

  /** after is before with the hits of path added under every key. */
  ghost predicate Added(before: map<string, int>, after: map<string, int>, path: string) {
    && (forall key :: key in after <==> key in before || TreeHits(path, key) > 0)
    && (forall key :: Get(after, key) == Get(before, key) + TreeHits(path, key))
  }

  /** A path without '/' is counted once under ".". */
  lemma AddedRoot(before: map<string, int>, path: string)
    requires |Split(path, '/')| == 1
    ensures Added(before, before["." := Get(before, ".") + 1], path)
  {
  }

  /** A path with '/' is counted once under each of its directory prefixes. */
  lemma AddedPrefixes(before: map<string, int>, after: map<string, int>, path: string)
    requires |Split(path, '/')| != 1
    requires var parts := Split(path, '/');
             forall key :: key in after <==> key in before || PrefixHits(parts, |parts|, key) > 0
    requires var parts := Split(path, '/');
             forall key :: Get(after, key) == Get(before, key) + PrefixHits(parts, |parts|, key)
    ensures Added(before, after, path)
  {
  }

  /** Adding the hits of the next selected record extends the count by one record. */
  lemma TreeCountStep(ms: seq<Match>, indices: seq<int>, n: nat, before: map<string, int>, after: map<string, int>)
    requires n < |indices|
    requires forall k :: 0 <= k < |indices| ==> 0 <= indices[k] < |ms|
    requires Counted(before, ms, indices, n) && Added(before, after, ms[indices[n]].file)
    ensures Counted(after, ms, indices, n + 1)
  {
  }

  lemma JoinHead(parts: seq<string>, j: nat)
    requires 1 <= j <= |parts|
    ensures |Join(parts[..j], '/')| >= |parts[0]|
    ensures j == 1 ==> Join(parts[..j], '/') == parts[0]
    ensures j >= 2 ==> |Join(parts[..j], '/')| >= |parts[0]| + 1
  {
    var pre := parts[..j];
    assert pre[0] == parts[0];
    if j >= 2 {
      assert Join(pre, '/') == pre[0] + ['/'] + Join(pre[1..], '/');
    }
  }

  /**
   * When the first component of every path is neither empty nor ".", only
   * the empty prefix reaches "" and nothing else reaches "."...
   */
  lemma {:induction false} PrefixHitsRoot(parts: seq<string>, i: nat)
    requires 1 <= i <= |parts| && parts[0] != "" && parts[0] != "."
    ensures PrefixHits(parts, i, "") == 1 && PrefixHits(parts, i, ".") == 0
  {
    if i > 1 {
      PrefixHitsRoot(parts, i - 1);
      JoinHead(parts, i - 1);
    } else {
      assert parts[..0] == [];
    }
  }

  /** ... so each such path counts exactly once under "" or ".". */
  lemma TreeHitsRoot(path: string)
    requires Split(path, '/')[0] != "" && Split(path, '/')[0] != "."
    ensures TreeHits(path, "") + TreeHits(path, ".") == 1
  {
    var parts := Split(path, '/');
    if |parts| > 1 {
      PrefixHitsRoot(parts, |parts|);
    }
  }

  /**
   * The tree's root counts add up to the number of selected records when
   * no selected path starts with "/" or with a "." component.
   */
  lemma {:induction false} TreeCountRoot(ms: seq<Match>, indices: seq<int>, n: nat)
    requires n <= |indices|
    requires forall k :: 0 <= k < |indices| ==> 0 <= indices[k] < |ms|
    requires forall k :: 0 <= k < |indices| ==>
               Split(ms[indices[k]].file, '/')[0] != "" && Split(ms[indices[k]].file, '/')[0] != "."
    ensures TreeCount(ms, indices, n, "") + TreeCount(ms, indices, n, ".") == n
  {
    if n > 0 {
      TreeCountRoot(ms, indices, n - 1);
      TreeHitsRoot(ms[indices[n - 1]].file);
    }
  }

  /**
   * sortKeys: the keys of m in ascending byte order, each once. The map's
   * iteration order is unspecified, so the keys are taken in any order.
   */
  method SortKeys(m: map<string, int>) returns (keys: seq<string>)
    ensures forall k :: k in keys <==> k in m
    ensures Ascending(keys, LessStr)
  {
    var collected: seq<string> := [];
    var rest := m.Keys;
    while rest != {}
      invariant forall k :: k in m <==> k in collected || k in rest
      invariant forall k :: k in collected ==> k !in rest
      invariant Distinct(collected)
      decreases |rest|
    {
      var k :| k in rest;
      collected := collected + [k];
      rest := rest - {k};
    }
    StringOrder();
    keys := Sort(collected, LessStr);
    assert forall k :: k in keys <==> k in collected by {
      assert forall k :: k in keys <==> k in multiset(keys);
    }
  }

  /**
   * The inner loop of commandListTree: every directory prefix of 0 to
   * |parts| - 1 components gains one.
   */
  method CountPrefixes(count: map<string, int>, parts: seq<string>) returns (r: map<string, int>)
    ensures forall key :: key in r <==> key in count || PrefixHits(parts, |parts|, key) > 0
    ensures forall key :: Get(r, key) == Get(count, key) + PrefixHits(parts, |parts|, key)
  {
    r := count;
    for i := 0 to |parts|
      invariant forall key :: key in r <==> key in count || PrefixHits(parts, i, key) > 0
      invariant forall key :: Get(r, key) == Get(count, key) + PrefixHits(parts, i, key)
    {
      var path := Join(parts[..i], '/');
      r := r[path := Get(r, path) + 1];
    }
  }

  /** The body of commandListTree's loop: counts one record's path under the keys it reaches. */
  method CountPath(count: map<string, int>, file: string) returns (r: map<string, int>)
    ensures Added(count, r, file)
  {
    var split := Split(file, '/');
    if |split| == 1 {
      AddedRoot(count, file);
      r := count["." := Get(count, ".") + 1];
    } else {
      r := CountPrefixes(count, split);
      AddedPrefixes(count, r, file);
    }
  }

  /** One row of context: the line number and the line's text, or the record's content on its own line. */
  function ContextRow(lines: seq<string>, line: int, content: string, c: int): seq<string>
    requires 1 <= c <= |lines|
  {
    [Itoa(c), if c == line then content else lines[c - 1]]
  }

  /**
   * The number of lines getContextLines reads: it stops after the first
   * line past line + numLines, or at the end of the file.
   */
  function StopAt(lines: seq<string>, line: int, numLines: int): nat {
    var stop := if line + numLines + 1 < 1 then 1 else line + numLines + 1;
    if |lines| < stop then |lines| else stop
  }

  /** The rows kept among the first upTo lines read. */
  function Window(lines: seq<string>, line: int, content: string, numLines: int, upTo: nat): (rows: seq<seq<string>>)
    requires upTo <= |lines|
    ensures |rows| <= upTo
    ensures forall k :: 0 <= k < |rows| ==> |rows[k]| == 2
  {
    if upTo == 0 then []
    else
      Window(lines, line, content, numLines, upTo - 1)
      + (if upTo == line || (line - numLines <= upTo <= line + numLines)
         then [ContextRow(lines, line, content, upTo)] else [])
  }

  /** The first line a window keeps. */
  function WindowStart(line: int, numLines: nat): int {
    if line - numLines < 1 then 1 else line - numLines
  }

  lemma {:induction false} WindowLength(lines: seq<string>, line: int, content: string, numLines: nat, upTo: nat)
    requires upTo <= |lines| && upTo <= line + numLines + 1
    ensures var lo := WindowStart(line, numLines);
            var hi := if upTo < line + numLines then upTo else line + numLines;
            |Window(lines, line, content, numLines, upTo)| == (if hi < lo then 0 else hi - lo + 1)
  {
    if upTo > 0 {
      WindowLength(lines, line, content, numLines, upTo - 1);
    }
  }

  lemma {:induction false} WindowAt(lines: seq<string>, line: int, content: string, numLines: nat, upTo: nat, k: nat)
    requires upTo <= |lines| && upTo <= line + numLines + 1
    requires k < |Window(lines, line, content, numLines, upTo)|
    ensures 1 <= WindowStart(line, numLines) + k <= |lines|
    ensures Window(lines, line, content, numLines, upTo)[k]
            == ContextRow(lines, line, content, WindowStart(line, numLines) + k)
  {
    var lo := WindowStart(line, numLines);
    var prev := Window(lines, line, content, numLines, upTo - 1);
    WindowLength(lines, line, content, numLines, upTo - 1);
    if k < |prev| {
      WindowAt(lines, line, content, numLines, upTo - 1, k);
    } else {
      assert lo <= upTo <= line + numLines;
      assert lo + k == upTo;
    }
  }

  lemma WindowPrefix(lines: seq<string>, line: int, content: string, numLines: nat, upTo: nat)
    requires upTo <= |lines| && upTo <= line + numLines + 1
    ensures var lo := WindowStart(line, numLines);
            var hi := if upTo < line + numLines then upTo else line + numLines;
            && |Window(lines, line, content, numLines, upTo)| == (if hi < lo then 0 else hi - lo + 1)
            && forall k :: 0 <= k < |Window(lines, line, content, numLines, upTo)| ==>
                 1 <= WindowStart(line, numLines) + k <= |lines| &&
                 Window(lines, line, content, numLines, upTo)[k] == ContextRow(lines, line, content, lo + k)
  {
    WindowLength(lines, line, content, numLines, upTo);
    forall k | 0 <= k < |Window(lines, line, content, numLines, upTo)|
      ensures 1 <= WindowStart(line, numLines) + k <= |lines|
      ensures Window(lines, line, content, numLines, upTo)[k]
              == ContextRow(lines, line, content, WindowStart(line, numLines) + k)
    {
      WindowAt(lines, line, content, numLines, upTo, k);
    }
  }

  /**
   * For a line inside the file and numLines >= 0 the rows are exactly the
   * lines max(1, line - numLines) to min(|lines|, line + numLines), in
   * order, the record's own line among them.
   */
  lemma WindowAround(lines: seq<string>, line: int, content: string, numLines: nat)
    requires 1 <= line <= |lines|
    ensures var w := Window(lines, line, content, numLines, StopAt(lines, line, numLines));
            var lo := if line - numLines < 1 then 1 else line - numLines;
            var hi := if |lines| < line + numLines then |lines| else line + numLines;
            && |w| == hi - lo + 1
            && (forall k :: 0 <= k < |w| ==> w[k] == ContextRow(lines, line, content, lo + k))
            && w[line - lo] == [Itoa(line), content]
  {
    WindowPrefix(lines, line, content, numLines, StopAt(lines, line, numLines));
  }

  class MatchList {
    /** Matches: the records in their order. */
    var matches: seq<Match>

    constructor Empty()
      ensures matches == []
    {
      matches := [];
    }

    /**
     * grep's loop over the output lines: record i is line i split by
     * splitMatch and labelled i. When a line cannot be split the source
     * panics; the result then names the first such line.
     */
    method Grep(output: seq<string>, usegit: bool) returns (panicAt: Option<nat>)
      modifies this
      ensures panicAt.None? ==> Build(output, usegit, |output|) == Some(matches)
      ensures panicAt.Some? ==> panicAt.value < |output| && Build(output, usegit, panicAt.value).Some?
      ensures panicAt.Some? ==> SplitMatch(output[panicAt.value], usegit).None? && Build(output, usegit, |output|).None?
    {
      matches := [];
      var i := 0;
      while i < |output|
        invariant 0 <= i <= |output|
        invariant Build(output, usegit, i) == Some(matches)
      {
        var h := SplitMatch(output[i], usegit);
        if h.None? {
          BuildPrefix(output, usegit, i + 1, |output|);
          return Some(i);
        }
        matches := matches + [Match(Itoa(i), h.value.file, h.value.line, h.value.content)];
        i := i + 1;
      }
      return None;
    }

    /**
     * One round of commandDelete's loop, deleting the record at position
     * index: the records after it are relabelled one lower, then the
     * record is cut out.
     */
    method DeleteAt(index: nat)
      requires Labelled(matches) && index < |matches|
      modifies this
      ensures matches == Relabel(old(matches[..index] + matches[index + 1..]))
    {
      ghost var before := matches;
      var i := index + 1;
      while i < |matches|
        invariant index + 1 <= i <= |before| && |matches| == |before|
        invariant forall k :: 0 <= k < |matches| ==>
                    matches[k] == if index < k < i then before[k].(index := Itoa(k - 1)) else before[k]
      {
        matches := matches[i := matches[i].(index := Itoa(i - 1))];
        i := i + 1;
      }
      ghost var relabelled := matches;
      matches := matches[..index] + matches[index + 1..];
      ghost var kept := before[..index] + before[index + 1..];
      forall k | 0 <= k < |matches| ensures matches[k] == kept[k].(index := Itoa(k)) {
        if k >= index {
          assert matches[k] == relabelled[k + 1];
        }
      }
    }

    /**
     * commandDelete with the position of each deletion corrected: the
     * i-th index of the ascending selection sits i places lower once the
     * records before it are gone. Deletes exactly the selected records,
     * keeps the others in order and labels them with their new positions.
     */
    method CommandDelete(indices: seq<int>) returns (r: Result<(), string>)
      requires Labelled(matches)
      requires forall i, j :: 0 <= i < j < |indices| ==> indices[i] < indices[j]
      modifies this
      ensures r.Err? ==> CheckIndices(indices, |old(matches)|).Err? && r.error == CheckIndices(indices, |old(matches)|).error
      ensures r.Err? ==> matches == old(matches)
      ensures r.Ok? <==> CheckIndices(indices, |old(matches)|).Ok?
      ensures r.Ok? ==> matches == DeleteAll(old(matches), CheckIndices(indices, |old(matches)|).value)
      ensures Labelled(matches)
    {
      var checked := CheckIndices(indices, |matches|);
      if checked.Err? {
        return Err(checked.error);
      }
      DeleteSelected(checked.value);
      return Ok(());
    }

    /**
     * The loop of commandDelete, corrected: the offset-th index of the
     * ascending selection sits at position idx - offset once offset records
     * are gone.
     */
    method DeleteSelected(sel: seq<int>)
      requires Labelled(matches)
      requires forall i, j :: 0 <= i < j < |sel| ==> sel[i] < sel[j]
      requires forall k :: 0 <= k < |sel| ==> 0 <= sel[k] < |matches|
      modifies this
      ensures matches == DeleteAll(old(matches), sel)
    {
      ghost var orig := matches;
      DeleteNothing(orig);
      assert sel[..0] == [];
      var offset := 0;
      while offset < |sel|
        invariant 0 <= offset <= |sel|
        invariant matches == DeleteAll(orig, sel[..offset])
      {
        ghost var cur := matches;
        var p := sel[offset] - offset;
        DeleteStep(orig, sel, offset);
        DeleteAt(p);
        assert matches == Relabel(cur[..p] + cur[p + 1..]);
        offset := offset + 1;
      }
      assert sel[..offset] == sel;
    }

    /**
     * commandListFiles' loop: every file holding a selected record is a key,
     * counting the selected records in it.
     */
    method FileCounts(indices: seq<int>) returns (count: map<string, int>)
      requires forall k :: 0 <= k < |indices| ==> 0 <= indices[k] < |matches|
      ensures forall f :: f in count <==> FileCount(matches, indices, |indices|, f) > 0
      ensures forall f :: Get(count, f) == FileCount(matches, indices, |indices|, f)
    {
      count := map[];
      for n := 0 to |indices|
        invariant forall f :: f in count <==> FileCount(matches, indices, n, f) > 0
        invariant forall f :: Get(count, f) == FileCount(matches, indices, n, f)
      {
        var file := matches[indices[n]].file;
        count := count[file := Get(count, file) + 1];
      }
    }

    /**
     * commandListTree's loop: a key is counted once for each time a selected
     * record's path reaches it, as TreeHits says.
     */
    method TreeCounts(indices: seq<int>) returns (count: map<string, int>)
      requires forall k :: 0 <= k < |indices| ==> 0 <= indices[k] < |matches|
      ensures forall key :: key in count <==> TreeCount(matches, indices, |indices|, key) > 0
      ensures forall key :: Get(count, key) == TreeCount(matches, indices, |indices|, key)
    {
      count := map[];
      for n := 0 to |indices|
        invariant Counted(count, matches, indices, n)
      {
        ghost var before := count;
        count := CountPath(count, matches[indices[n]].file);
        TreeCountStep(matches, indices, n, before, count);
      }
    }

    /**
     * getContextLines: the rows [line number, text] of the file's lines
     * within numLines of the record's line, the record's own line showing
     * its recorded content; nothing when its line number does not parse or
     * its file cannot be read (file is None).
     */
    method ContextLines(index: nat, numLines: int, file: Option<seq<string>>) returns (rows: seq<seq<string>>)
      requires index < |matches|
      ensures Atoi(matches[index].line).None? || file.None? ==> rows == []
      ensures Atoi(matches[index].line).Some? && file.Some? ==>
                var line := Atoi(matches[index].line).value;
                rows == Window(file.value, line, matches[index].content, numLines,
                               StopAt(file.value, line, numLines))
    {
      var m := matches[index];
      var parsed := Atoi(m.line);
      if parsed.None? || file.None? {
        return [];
      }
      var lines, line := file.value, parsed.value;
      rows := [];
      var counter := 0;
      while counter < |lines|
        invariant 0 <= counter <= StopAt(lines, line, numLines)
        invariant counter == 0 || counter <= line + numLines
        invariant rows == Window(lines, line, m.content, numLines, counter)
        decreases |lines| - counter
      {
        counter := counter + 1;
        if counter == line {
          rows := rows + [[Itoa(counter), m.content]];
        } else if counter >= line - numLines && counter <= line + numLines {
          rows := rows + [[Itoa(counter), lines[counter - 1]]];
        }
        if counter > line + numLines {
          assert counter == StopAt(lines, line, numLines);
          break;
        }
      }
      assert counter == StopAt(lines, line, numLines);
    }
  }
}
