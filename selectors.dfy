/**
 * parseSelectors: the selector language of vgrep. A selector text is a
 * comma-separated list of items; an item is a number or a range "A-B".
 * The result is the set of selected indices as an ascending list, or the
 * error of the first item that is not well formed.
 */
module Selectors {
  import opened Wrappers
  import opened Strconv
  import opened Strs
  import opened Sorting

  /** The toInt closure: trims white space, then reads a decimal number. */
  function ToInt(idx: string): (r: Result<int, string>)
    ensures r.Err? ==> r.error == "Non-numeric selector '" + TrimSpace(idx) + "'"
    ensures r.Ok? && r.value < 0 ==> '-' in idx
  {
    var t := TrimSpace(idx);
    match Atoi(t)
    case Some(n) =>
      if n < 0 then
        assert t[0] == '-' && t[0] in t;
        TrimSpaceKeeps(idx, '-');
        Ok(n)
      else Ok(n)
    case None => Err("Non-numeric selector '" + t + "'")
  }

  function Min(a: int, b: int): int { if a <= b then a else b }
  function Max(a: int, b: int): int { if a <= b then b else a }

  /** The integers from lo to hi. */
  function Interval(lo: int, hi: int): set<int>
    decreases hi - lo
  {
    if lo > hi then {} else {lo} + Interval(lo + 1, hi)
  }

  lemma {:induction false} IntervalMembers(lo: int, hi: int, x: int)
    ensures x in Interval(lo, hi) <==> lo <= x <= hi
    decreases hi - lo
  {
    if lo <= hi {
      IntervalMembers(lo + 1, hi, x);
    }
  }

  /** The indices of the range between a and b, in either order. */
  function Span(a: int, b: int): set<int> {
    Interval(Min(a, b), Max(a, b))
  }

  /** The indices one item adds, or the error it raises. */
  function ItemIndices(sel: string): (r: Result<set<int>, string>)
    ensures CountChar(sel, '-') >= 2 ==> r == Err("Invalid range format '" + sel + "'")
    ensures r.Ok? ==> r.value != {}
  {
    var rng := Split(sel, '-');
    if |rng| == 1 then
      match ToInt(rng[0])
      case Err(e) => Err(e)
      case Ok(n) => Ok({n})
    else if |rng| == 2 then
      match ToInt(rng[0])
      case Err(e) => Err(e)
      case Ok(from) =>
        match ToInt(rng[1])
        case Err(e) => Err(e)
        case Ok(to) =>
          IntervalMembers(Min(from, to), Max(from, to), from);
          Ok(Span(from, to))
    else Err("Invalid range format '" + sel + "'")
  }

  /**
   * The indices of a list of item results, read left to right: the first
   * result in error decides the error.
   */
  function Combine(rs: seq<Result<set<int>, string>>): Result<set<int>, string> {
    if rs == [] then Ok({})
    else match Combine(rs[..|rs| - 1])
      case Err(e) => Err(e)
      case Ok(s) =>
        match rs[|rs| - 1]
        case Err(e) => Err(e)
        case Ok(t) => Ok(s + t)
  }

  /** Once a prefix of the results is in error, the whole list has that error. */
  lemma {:induction false} CombineErrPrefix(rs: seq<Result<set<int>, string>>, k: nat)
    requires k <= |rs| && Combine(rs[..k]).Err?
    ensures Combine(rs) == Combine(rs[..k])
    decreases |rs| - k
  {
    if k < |rs| {
      var n := |rs|;
      assert rs[..n - 1][..k] == rs[..k];
      CombineErrPrefix(rs[..n - 1], k);
      assert rs[..n][..n - 1] == rs[..n - 1];
    } else {
      assert rs[..k] == rs;
    }
  }

  /** One more result after a prefix without error. */
  lemma CombineStep(rs: seq<Result<set<int>, string>>, k: nat)
    requires k < |rs| && Combine(rs[..k]).Ok?
    ensures rs[k].Err? ==> Combine(rs[..k + 1]) == Err(rs[k].error)
    ensures rs[k].Ok? ==> Combine(rs[..k + 1]) == Ok(Combine(rs[..k]).value + rs[k].value)
  {
    assert rs[..k + 1][..k] == rs[..k];
  }

  /** The result of every item of a list, in order. */
  function Results(items: seq<string>): (rs: seq<Result<set<int>, string>>)
    ensures |rs| == |items|
    ensures forall j :: 0 <= j < |items| ==> rs[j] == ItemIndices(items[j])
  {
    seq(|items|, j requires 0 <= j < |items| => ItemIndices(items[j]))
  }

  /** Item sel is well formed and selects x. */
  predicate Selects(sel: string, x: int) {
    ItemIndices(sel).Ok? && x in ItemIndices(sel).value
  }

  /** The items of a selector text: the matches of "[^,]+". */
  function Items(input: string): seq<string> {
    Fields(input, ',')
  }

  /** What the selector text denotes. */
  function Selected(input: string): (r: Result<set<int>, string>)
    ensures r.Ok? <==> forall j :: 0 <= j < |Items(input)| ==> ItemIndices(Items(input)[j]).Ok?
  {
    CombineOk(Results(Items(input)));
    Combine(Results(Items(input)))
  }

  predicate Increasing(s: seq<int>) {
    forall i, j :: 0 <= i < j < |s| ==> s[i] < s[j]
  }

  /** addIndex: appends idx unless it is already present. */
  method AddIndex(indices: seq<int>, idx: int) returns (r: seq<int>)
    requires Distinct(indices)
    ensures Distinct(r)
    ensures idx in indices ==> r == indices
    ensures idx !in indices ==> r == indices + [idx]
  {
    for j := 0 to |indices|
      invariant idx !in indices[..j]
    {
      if indices[j] == idx {
        return indices;
      }
    }
    assert indices[..|indices|] == indices;
    r := indices + [idx];
  }

  /** The loop of a range item: adds lo, lo + 1, ..., hi. */
  method AddRange(indices: seq<int>, lo: int, hi: int) returns (r: seq<int>)
    requires Distinct(indices)
    ensures Distinct(r)
    ensures forall x: int :: x in r <==> x in indices || x in Interval(lo, hi)
  {
    r := indices;
    var i := lo;
    while i <= hi
      invariant lo <= i <= if lo <= hi then hi + 1 else lo
      invariant Distinct(r)
      invariant forall x: int :: x in r <==> x in indices || lo <= x < i
    {
      r := AddIndex(r, i);
      i := i + 1;
    }
    forall x ensures x in Interval(lo, hi) <==> lo <= x <= hi {
      IntervalMembers(lo, hi, x);
    }
  }

  /** Adds the indices between from and to, whichever is the larger. */
  method AddSpan(indices: seq<int>, from: int, to: int) returns (r: seq<int>)
    requires Distinct(indices)
    ensures Distinct(r)
    ensures forall x: int :: x in r <==> x in indices || x in Span(from, to)
  {
    var lo, hi := from, to;
    if lo > hi {
      lo, hi := hi, lo;
    }
    r := AddRange(indices, lo, hi);
    assert Span(from, to) == Interval(lo, hi);
  }

  /** One loop round of parseSelectors: adds the indices of item sel. */
  method AddItem(indices: seq<int>, sel: string) returns (r: Result<seq<int>, string>)
    requires Distinct(indices)
    ensures r.Ok? <==> ItemIndices(sel).Ok?
    ensures r.Ok? ==> Distinct(r.value)
    ensures r.Ok? ==> forall x: int :: x in r.value <==> x in indices || x in ItemIndices(sel).value
    ensures r.Err? ==> r.error == ItemIndices(sel).error
  {
    var rng := Split(sel, '-');
    if |rng| == 1 {
      var num := ToInt(rng[0]);
      if num.Err? {
        assert ItemIndices(sel) == Err(num.error);
        return Err(num.error);
      }
      assert ItemIndices(sel) == Ok({num.value});
      var added := AddIndex(indices, num.value);
      return Ok(added);
    } else if |rng| == 2 {
      var from := ToInt(rng[0]);
      if from.Err? {
        assert ItemIndices(sel) == Err(from.error);
        return Err(from.error);
      }
      var to := ToInt(rng[1]);
      if to.Err? {
        assert ItemIndices(sel) == Err(to.error);
        return Err(to.error);
      }
      assert ItemIndices(sel) == Ok(Span(from.value, to.value));
      var acc := AddSpan(indices, from.value, to.value);
      return Ok(acc);
    } else {
      assert ItemIndices(sel) == Err("Invalid range format '" + sel + "'");
      return Err("Invalid range format '" + sel + "'");
    }
  }

  /**
   * parseSelectors: succeeds exactly when every item is well formed, and
   * then returns the selected indices, ascending and without duplicates;
   * otherwise it returns the error of the first bad item.
   */
  method ParseSelectors(input: string) returns (r: Result<seq<int>, string>)
    ensures r.Ok? <==> Selected(input).Ok?
    ensures r.Ok? ==> Increasing(r.value)
    ensures r.Ok? ==> forall x: int :: x in r.value <==> x in Selected(input).value
    ensures r.Err? ==> r.error == Selected(input).error
  {
    var indices: seq<int> := [];
    var items := Items(input);
    ghost var rs := Results(items);
    var k := 0;
    while k < |items|
      invariant 0 <= k <= |items|
      invariant Distinct(indices)
      invariant Combine(rs[..k]).Ok?
      invariant forall x: int :: x in indices <==> x in Combine(rs[..k]).value
    {
      var next := AddItem(indices, items[k]);
      CombineStep(rs, k);
      assert rs[k] == ItemIndices(items[k]);
      if next.Err? {
        assert Selected(input) == Err(next.error) by {
          CombineErrPrefix(rs, k + 1);
        }
        return Err(next.error);
      }
      indices := next.value;
      k := k + 1;
    }
    assert Selected(input) == Combine(rs[..k]) by {
      assert rs[..k] == rs;
    }
    IntOrder();
    var sorted := Sort(indices, IntLess);
    assert Increasing(sorted) by {
      assert Ascending(sorted, IntLess);
    }
    assert forall x: int :: x in sorted <==> x in Selected(input).value by {
      assert forall x: int :: x in sorted <==> x in multiset(sorted);
      assert forall x: int :: x in indices <==> x in multiset(indices);
    }
    r := Ok(sorted);
  }

  /** A list of results succeeds exactly when every result does. */
  lemma {:induction false} CombineOk(rs: seq<Result<set<int>, string>>)
    ensures Combine(rs).Ok? <==> forall j :: 0 <= j < |rs| ==> rs[j].Ok?
  {
    if rs != [] {
      var n := |rs|;
      CombineOk(rs[..n - 1]);
      assert forall j :: 0 <= j < n - 1 ==> rs[..n - 1][j] == rs[j];
    }
  }

  /** A list of results that succeeds holds the union of the results. */
  lemma {:induction false} CombineUnion(rs: seq<Result<set<int>, string>>, x: int)
    requires Combine(rs).Ok?
    ensures x in Combine(rs).value <==> exists j :: 0 <= j < |rs| && rs[j].Ok? && x in rs[j].value
  {
    if rs != [] {
      var n := |rs|;
      var init := rs[..n - 1];
      CombineUnion(init, x);
      if x in Combine(init).value {
        var j :| 0 <= j < n - 1 && init[j].Ok? && x in init[j].value;
        assert init[j] == rs[j];
      }
      if j :| 0 <= j < n && rs[j].Ok? && x in rs[j].value {
        if j < n - 1 {
          assert init[j] == rs[j];
        }
      }
    }
  }

  /** The indices of xs as a set. */
  function SetOf(xs: seq<int>): (r: set<int>)
    ensures forall x: int :: x in r <==> x in xs
  {
    if xs == [] then {} else SetOf(xs[..|xs| - 1]) + {xs[|xs| - 1]}
  }

  /** Results that each select one index combine into exactly those indices. */
  lemma {:induction false} CombineSingletons(rs: seq<Result<set<int>, string>>, xs: seq<int>)
    requires |rs| == |xs| && forall j :: 0 <= j < |rs| ==> rs[j] == Ok({xs[j]})
    ensures Combine(rs) == Ok(SetOf(xs))
  {
    if rs != [] {
      CombineSingletons(rs[..|rs| - 1], xs[..|xs| - 1]);
    }
  }

  /** A set with exactly the members of xs is SetOf(xs). */
  lemma SetOfMembers(s: set<int>, xs: seq<int>)
    requires forall x: int :: x in xs <==> x in s
    ensures s == SetOf(xs)
  {
    var t := SetOf(xs);
    forall x: int | x in t ensures x in s {
      assert x in xs;
    }
    forall x: int | x in s ensures x in t {
      assert x in xs;
    }
    assert s <= t && t <= s;
  }

  /** The first result in error decides the error of the whole list. */
  lemma FirstErrorWins(rs: seq<Result<set<int>, string>>, k: nat)
    requires k < |rs| && rs[k].Err?
    requires forall j :: 0 <= j < k ==> rs[j].Ok?
    ensures Combine(rs) == rs[k]
  {
    var pre := rs[..k];
    assert forall j :: 0 <= j < k ==> pre[j] == rs[j];
    CombineOk(pre);
    assert rs[..k + 1][..k] == pre;
    CombineErrPrefix(rs, k + 1);
  }

  /** A selector text that parses selects exactly what its items select. */
  lemma SelectedUnion(input: string, x: int)
    requires Selected(input).Ok?
    ensures x in Selected(input).value <==> exists sel :: sel in Items(input) && Selects(sel, x)
  {
    var items := Items(input);
    var rs := Results(items);
    CombineUnion(rs, x);
    if j :| 0 <= j < |rs| && rs[j].Ok? && x in rs[j].value {
      assert Selects(items[j], x);
    }
    if sel :| sel in items && Selects(sel, x) {
      var j :| 0 <= j < |items| && items[j] == sel;
      assert rs[j].Ok? && x in rs[j].value;
    }
  }

  /** A part without '-' that toInt accepts is not negative. */
  lemma ToIntNonNegative(part: string)
    requires '-' !in part && ToInt(part).Ok?
    ensures ToInt(part).value >= 0
  {
  }

  /** Every item selects only non-negative indices: a '-' always splits. */
  lemma ItemNonNegative(sel: string, x: int)
    requires ItemIndices(sel).Ok? && x in ItemIndices(sel).value
    ensures x >= 0
  {
    var rng := Split(sel, '-');
    ToIntNonNegative(rng[0]);
    if |rng| == 2 {
      ToIntNonNegative(rng[1]);
      var a, b := ToInt(rng[0]).value, ToInt(rng[1]).value;
      IntervalMembers(Min(a, b), Max(a, b), x);
    }
  }

  /** parseSelectors never selects a negative index. */
  lemma SelectedNonNegative(input: string, x: int)
    requires Selected(input).Ok? && x in Selected(input).value
    ensures x >= 0
  {
    SelectedUnion(input, x);
    var sel :| sel in Items(input) && Selects(sel, x);
    ItemNonNegative(sel, x);
  }

  /**
   * A range selects the integers between its ends whichever end comes
   * first: "5-2" selects what "2-5" selects.
   */
  lemma RangeSymmetric(a: string, b: string)
    requires '-' !in a && '-' !in b
    requires ToInt(a).Ok? && ToInt(b).Ok?
    ensures ItemIndices(a + "-" + b) == ItemIndices(b + "-" + a)
    ensures ItemIndices(a + "-" + b).Ok?
    ensures forall x: int :: x in ItemIndices(a + "-" + b).value <==>
              Min(ToInt(a).value, ToInt(b).value) <= x <= Max(ToInt(a).value, ToInt(b).value)
  {
    var m, n := ToInt(a).value, ToInt(b).value;
    RangeItem(a, b);
    RangeItem(b, a);
    SpanMembers(m, n);
  }

  /** Span(m, n) holds the integers between m and n, in either order. */
  lemma SpanMembers(m: int, n: int)
    ensures Span(m, n) == Span(n, m)
    ensures forall x: int :: x in Span(m, n) <==> Min(m, n) <= x <= Max(m, n)
  {
    assert Min(m, n) == Min(n, m) && Max(m, n) == Max(n, m);
    forall x: int ensures x in Span(m, n) <==> Min(m, n) <= x <= Max(m, n) {
      IntervalMembers(Min(m, n), Max(m, n), x);
    }
  }

  /** A range of two numbers selects the span between them. */
  lemma RangeItem(a: string, b: string)
    requires '-' !in a && '-' !in b
    requires ToInt(a).Ok? && ToInt(b).Ok?
    ensures ItemIndices(a + "-" + b) == Ok(Span(ToInt(a).value, ToInt(b).value))
  {
    SplitCons(a, b, '-');
    CountNone(a, '-');
    CountNone(b, '-');
    assert Split(a + "-" + b, '-') == [a, b];
  }

  /** An item without '-' that is not a number after trimming is refused. */
  lemma NonNumeric(sel: string)
    requires '-' !in sel && Atoi(TrimSpace(sel)).None?
    ensures ItemIndices(sel) == Err("Non-numeric selector '" + TrimSpace(sel) + "'")
  {
    CountNone(sel, '-');
  }

  lemma {:induction false} NonEmptyCommas(s: string)
    requires forall i :: 0 <= i < |s| ==> s[i] == ','
    ensures NonEmpty(Split(s, ',')) == []
    decreases |s|
  {
    if s == [] {
      assert Split(s, ',') == [""];
    } else {
      assert s == [] + [','] + s[1..];
      SplitCons([], s[1..], ',');
      NonEmptyCommas(s[1..]);
      assert Split(s, ',')[1..] == Split(s[1..], ',');
    }
  }

  /** Empty input, or commas only, selects nothing and is no error. */
  lemma CommasOnly(input: string)
    requires forall i :: 0 <= i < |input| ==> input[i] == ','
    ensures Selected(input) == Ok({})
  {
    NonEmptyCommas(input);
  }

  /** toInt reads back any number Itoa prints, with or without surrounding blanks. */
  lemma ToIntItoa(n: int, pre: string, post: string)
    requires forall k :: 0 <= k < |pre| ==> pre[k] == ' '
    requires forall k :: 0 <= k < |post| ==> post[k] == ' '
    ensures ToInt(pre + Itoa(n) + post) == Ok(n)
  {
    var d := Itoa(n);
    TrimAround(pre, d, post);
    AtoiItoa(n);
  }

  /** A single non-negative number item, blanks before it allowed, selects exactly that number. */
  lemma ItemNumber(n: nat, pre: string)
    requires forall k :: 0 <= k < |pre| ==> pre[k] == ' '
    ensures ItemIndices(pre + Itoa(n)) == Ok({n})
  {
    var d := Itoa(n);
    assert '-' !in pre + d by {
      assert AllDigits(d);
      assert forall k :: 0 <= k < |pre + d| ==> (pre + d)[k] != '-';
    }
    CountNone(pre + d, '-');
    ToIntItoa(n, pre, "");
    assert pre + d + "" == pre + d;
  }

  /** A blank and a number make a single selector item. */
  lemma NumberItems(n: nat)
    ensures Items(" " + Itoa(n)) == [" " + Itoa(n)]
  {
    var item := " " + Itoa(n);
    assert Split(item, ',') == [item] by {
      assert AllDigits(Itoa(n));
      assert ',' !in item;
    }
    NonEmptyCons(item, []);
    assert [item] + [] == [item];
  }

  /** One number after a blank selects that number. */
  lemma SelectedNumber(n: nat)
    ensures Selected(" " + Itoa(n)) == Ok({n})
  {
    NumberItems(n);
    ItemNumber(n, " ");
    SelectedSingle(" " + Itoa(n));
  }

  /** A text that is a single item selects what that item selects. */
  lemma SelectedSingle(input: string)
    requires Items(input) == [input]
    ensures Selected(input) == Combine([ItemIndices(input)])
    ensures ItemIndices(input).Ok? ==> Selected(input) == ItemIndices(input)
  {
    var rs := Results([input]);
    assert rs == [ItemIndices(input)];
    if ItemIndices(input).Ok? {
      assert rs[..0] == [] && rs[..1] == rs;
      CombineStep(rs, 0);
      assert {} + ItemIndices(input).value == ItemIndices(input).value;
    }
  }
}
