/**
 * The command line of vgrep's interactive mode: dispatchCommand's
 * recognition of "command[context lines] [selectors]" with the pattern
 * ^([a-z?]+)(\d+)?([\d , -]+)?$, the decision it takes, and
 * commandParse's rewriting of a bare selector into a show command.
 */
module Commands {
  import opened Wrappers
  import opened Strconv
  import opened Strs
  import opened Selectors
  import opened Store

  /** The characters of the command group, "[a-z?]". */
  predicate IsCommandChar(c: char) {
    'a' <= c <= 'z' || c == '?'
  }

  /** The characters of the selector group, "[\d , -]". */
  predicate IsSelectorChar(c: char) {
    IsDigit(c) || c == ' ' || c == ',' || c == '-'
  }

  predicate AllCommand(s: string) {
    forall k :: 0 <= k < |s| ==> IsCommandChar(s[k])
  }

  predicate AllSelector(s: string) {
    forall k :: 0 <= k < |s| ==> IsSelectorChar(s[k])
  }

  /** The length of the longest prefix of s made of command characters. */
  function CommandLength(s: string): (n: nat)
    ensures n <= |s|
  {
    if s == [] || !IsCommandChar(s[0]) then 0 else 1 + CommandLength(s[1..])
  }

  /** The length of the longest prefix of s made of decimal digits. */
  function DigitLength(s: string): (n: nat)
    ensures n <= |s|
  {
    if s == [] || !IsDigit(s[0]) then 0 else 1 + DigitLength(s[1..])
  }

  /** CommandLength stops at the first character that is not a command character, and only there. */
  lemma {:induction false} CommandLengthIs(s: string, i: nat)
    requires i <= |s|
    ensures CommandLength(s) == i <==> AllCommand(s[..i]) && (i == |s| || !IsCommandChar(s[i]))
  {
    if s == [] {
    } else if !IsCommandChar(s[0]) {
      assert CommandLength(s) == 0;
      if i > 0 {
        assert s[..i][0] == s[0];
      }
    } else if i == 0 {
      assert CommandLength(s) == 1 + CommandLength(s[1..]);
    } else {
      CommandLengthIs(s[1..], i - 1);
      assert CommandLength(s) == 1 + CommandLength(s[1..]);
      assert s[..i] == [s[0]] + s[1..][..i - 1];
      assert AllCommand(s[..i]) <==> AllCommand(s[1..][..i - 1]);
      assert i < |s| ==> s[i] == s[1..][i - 1];
    }
  }

  /** DigitLength stops at the first non-digit, and only there. */
  lemma {:induction false} DigitLengthIs(s: string, i: nat)
    requires i <= |s|
    ensures DigitLength(s) == i <==> AllDigits(s[..i]) && (i == |s| || !IsDigit(s[i]))
  {
    if s == [] {
    } else if !IsDigit(s[0]) {
      assert DigitLength(s) == 0;
      if i > 0 {
        assert s[..i][0] == s[0];
      }
    } else if i == 0 {
      assert DigitLength(s) == 1 + DigitLength(s[1..]);
    } else {
      DigitLengthIs(s[1..], i - 1);
      assert DigitLength(s) == 1 + DigitLength(s[1..]);
      assert s[..i] == [s[0]] + s[1..][..i - 1];
      assert AllDigits(s[..i]) <==> AllDigits(s[1..][..i - 1]);
      assert i < |s| ==> s[i] == s[1..][i - 1];
    }
  }

  /** The three submatches of the pattern; a group that takes no part is "". */
  datatype Groups = Groups(command: string, context: string, selectors: string)

  /**
   * The language of the pattern: a non-empty run of command characters,
   * then selector characters only.
   */
  predicate Accepts(input: string) {
    exists i :: 1 <= i <= |input| && AllCommand(input[..i]) && AllSelector(input[i..])
  }

  /**
   * The submatches Go's leftmost-first matching reports. Both groups are
   * greedy: the command group ends at the first character that is not a
   * command character, the context group at the first non-digit, and the
   * selector group takes the rest.
   */
  function Recognise(input: string): (r: Option<Groups>)
    ensures r.Some? ==> input == r.value.command + r.value.context + r.value.selectors
    ensures r.Some? ==> r.value.command != [] && AllCommand(r.value.command)
    ensures r.Some? ==> AllDigits(r.value.context) && AllSelector(r.value.selectors)
    ensures r.Some? ==> r.value.selectors == [] || !IsDigit(r.value.selectors[0])
  {
    var c := CommandLength(input);
    if c == 0 || !AllSelector(input[c..]) then None
    else
      var rest := input[c..];
      var d := DigitLength(rest);
      CommandLengthIs(input, c);
      DigitLengthIs(rest, d);
      assert input == input[..c] + rest[..d] + rest[d..];
      assert forall k :: 0 <= k < |rest| - d ==> rest[d..][k] == rest[d + k];
      Some(Groups(input[..c], rest[..d], rest[d..]))
  }

  /** The recogniser accepts exactly the pattern's language. */
  lemma RecogniseAccepts(input: string)
    ensures Recognise(input).Some? <==> Accepts(input)
  {
    var c := CommandLength(input);
    CommandLengthIs(input, c);
    if Accepts(input) {
      var i :| 1 <= i <= |input| && AllCommand(input[..i]) && AllSelector(input[i..]);
      assert i == |input| || !IsCommandChar(input[i]) by {
        if i < |input| {
          assert input[i..][0] == input[i];
        }
      }
      CommandLengthIs(input, i);
    }
    if Recognise(input).Some? {
      assert 1 <= c <= |input| && AllCommand(input[..c]) && AllSelector(input[c..]);
    }
  }

  /**
   * The split into groups is unique: any split of the input into a
   * non-empty command run, a digit run and a selector run that does not
   * start with a digit is the one the recogniser reports.
   */
  lemma GroupsUnique(input: string, a: string, b: string, c: string)
    requires input == a + b + c
    requires a != [] && AllCommand(a) && AllDigits(b) && AllSelector(c)
    requires c == [] || !IsDigit(c[0])
    ensures Recognise(input) == Some(Groups(a, b, c))
  {
    assert input[..|a|] == a;
    var rest := input[|a|..];
    assert rest == b + c;
    assert |a| == |input| || !IsCommandChar(input[|a|]) by {
      if |b| > 0 {
        assert input[|a|] == b[0];
      } else if |c| > 0 {
        assert input[|a|] == c[0];
      }
    }
    CommandLengthIs(input, |a|);
    assert AllSelector(rest) by {
      forall k | 0 <= k < |rest| ensures IsSelectorChar(rest[k]) {
        if k < |b| {
          assert rest[k] == b[k];
        } else {
          assert rest[k] == c[k - |b|];
        }
      }
    }
    assert rest[..|b|] == b;
    assert |b| == |rest| || !IsDigit(rest[|b|]) by {
      if |c| > 0 {
        assert rest[|b|] == c[0];
      }
    }
    DigitLengthIs(rest, |b|);
    assert rest[|b|..] == c;
  }

  /** What dispatchCommand decides to do with one line of input. */
  datatype Action =
    | Ignored                                    // empty input
    | NoMatch(input: string)                     // the pattern rejects the input
    | BadSelectors(error: string)                // parseSelectors fails
    | Help                                       // "?"
    | Context(indices: set<int>, lines: int)     // "c", "context"
    | Delete(indices: set<int>)                  // "d", "delete"
    | NeedSelectors(message: string)             // delete or show without selectors
    | Files(indices: set<int>)                   // "f", "files"
    | Print(indices: set<int>)                   // "p", "print"
    | Quit                                       // "q", "quit"
    | Show(indices: set<int>, command: string)   // "s", "show"
    | Tree(indices: set<int>)                    // "t", "tree"
    | Unsupported(command: string)               // any other command

  /** The context group's value, or -1 when the group is absent. */
  function ContextValue(context: string): (n: int)
    requires AllDigits(context)
    ensures n >= -1 && (n == -1 <==> context == [])
  {
    if context == [] then -1 else DecValue(context)
  }

  /**
   * The action a recognised command takes on a well-formed selection:
   * context defaults to 5 lines; delete and show refuse an empty selection.
   */
  function Decide(command: string, context: int, sel: set<int>): (r: Action)
    ensures r.Delete? <==> (command == "d" || command == "delete") && sel != {}
    ensures r.Delete? ==> r.indices == sel
    ensures r == Quit <==> command == "q" || command == "quit"
    ensures (command == "d" || command == "delete") && sel == {} ==>
              r == NeedSelectors("Delete requires specified selectors")
    ensures (command == "s" || command == "show") && sel == {} ==>
              r == NeedSelectors("Show requires specified selectors")
    ensures (command == "s" || command == "show") && sel != {} ==> r == Show(sel, command)
    ensures !r.Ignored? && !r.NoMatch? && !r.BadSelectors?
  {
    if command == "?" then Help
    else if command == "c" || command == "context" then
      Context(sel, if context == -1 then 5 else context)
    else if command == "d" || command == "delete" then
      if sel == {} then NeedSelectors("Delete requires specified selectors") else Delete(sel)
    else if command == "f" || command == "files" then Files(sel)
    else if command == "p" || command == "print" then Print(sel)
    else if command == "q" || command == "quit" then Quit
    else if command == "s" || command == "show" then
      if sel == {} then NeedSelectors("Show requires specified selectors") else Show(sel, command)
    else if command == "t" || command == "tree" then Tree(sel)
    else Unsupported(command)
  }

  /**
   * dispatchCommand's decision: empty input is ignored, the pattern is
   * checked, and the selectors are parsed before the command is looked at.
   */
  function Interpret(input: string): (r: Action)
    ensures r == Ignored <==> input == []
    ensures r.NoMatch? <==> input != [] && Recognise(input).None?
    ensures r.BadSelectors? <==>
              input != [] && Recognise(input).Some? && Selected(Recognise(input).value.selectors).Err?
    ensures r.Delete? ==> r.indices != {}
  {
    if |input| == 0 then Ignored
    else match Recognise(input)
      case None => NoMatch(input)
      case Some(g) =>
        match Selected(g.selectors)
        case Err(e) => BadSelectors(e)
        case Ok(sel) => Decide(g.command, ContextValue(g.context), sel)
  }

  /**
   * The message dispatchCommand prints for an action, if it prints one of
   * its own. show, once the editor has been launched for each selected
   * record, falls through to the unsupported-command message.
   */
  function Message(a: Action): (m: Option<string>)
    ensures m.None? <==> a.Ignored? || a.Help? || a.Context? || a.Delete? || a.Files? || a.Print? || a.Quit? || a.Tree?
    ensures a.BadSelectors? ==> m == Some(a.error)
  {
    match a
    case NoMatch(input) =>
      Some("\"" + input + "\" doesn't match format \"command[context lines] [selectors]\"")
    case BadSelectors(e) => Some(e)
    case NeedSelectors(m) => Some(m)
    case Show(_, command) => Some("Unsupported command \"" + command + "\"")
    case Unsupported(command) => Some("Unsupported command \"" + command + "\"")
    case _ => None
  }

  /** A recognised line with well-formed selectors is decided by its command. */
  lemma InterpretGroups(input: string, g: Groups, sel: set<int>)
    requires Recognise(input) == Some(g) && Selected(g.selectors) == Ok(sel)
    ensures Interpret(input) == Decide(g.command, ContextValue(g.context), sel)
  {
  }

  /** Only "q" and "quit", with well-formed selectors, stop the command loop. */
  lemma QuitOnly(input: string)
    ensures Interpret(input) == Quit <==>
              && Recognise(input).Some?
              && (Recognise(input).value.command == "q" || Recognise(input).value.command == "quit")
              && Selected(Recognise(input).value.selectors).Ok?
  {
    if Recognise(input).Some? {
      var g := Recognise(input).value;
      if Selected(g.selectors).Ok? {
        var d := Decide(g.command, ContextValue(g.context), Selected(g.selectors).value);
      }
    }
  }

  /** A malformed selector is reported whatever the command, even an unknown one. */
  lemma SelectorsFirst(input: string)
    requires Recognise(input).Some? && Selected(Recognise(input).value.selectors).Err?
    ensures Interpret(input) == BadSelectors(Selected(Recognise(input).value.selectors).error)
  {
  }

  /**
   * dispatchCommand: performs the decision Interpret describes. Only a
   * delete changes the list, and only when every selected index is in
   * range; it deletes with the corrected MatchList.CommandDelete, not with
   * the loop as written (DeleteFinding.AsWritten). selected holds the
   * parsed indices; failure holds the error checkIndices prints when a
   * delete names an index out of range.
   */
  method Dispatch(list: MatchList, input: string) returns (quit: bool, action: Action, selected: seq<int>, failure: Option<string>)
    requires Labelled(list.matches)
    modifies list
    ensures action == Interpret(input)
    ensures quit <==> action == Quit
    ensures !action.Delete? ==> list.matches == old(list.matches)
    ensures action.Delete? ==> forall x: int :: x in selected <==> x in action.indices
    ensures action.Delete? && CheckIndices(selected, |old(list.matches)|).Err? ==>
              list.matches == old(list.matches)
    ensures action.Delete? && CheckIndices(selected, |old(list.matches)|).Ok? ==>
              list.matches == DeleteAll(old(list.matches), selected)
    ensures failure.Some? <==> action.Delete? && CheckIndices(selected, |old(list.matches)|).Err?
    ensures failure.Some? ==> failure.value == CheckIndices(selected, |old(list.matches)|).error
    ensures Labelled(list.matches)
  {
    selected := [];
    failure := None;
    if |input| == 0 {
      return false, Ignored, [], None;
    }
    var groups := Recognise(input);
    if groups.None? {
      return false, NoMatch(input), [], None;
    }
    var g := groups.value;
    var context := -1;
    if |g.context| > 0 {
      AtoiDigits(g.context);
      context := Atoi(g.context).value;
    }
    var parsed := ParseSelectors(g.selectors);
    if parsed.Err? {
      return false, BadSelectors(parsed.error), [], None;
    }
    selected := parsed.value;
    var chosen := SetOf(selected);
    SetOfMembers(Selected(g.selectors).value, selected);
    action := Decide(g.command, context, chosen);
    if action.Delete? {
      assert selected != [] by {
        var x :| x in chosen;
      }
      var deleted := list.CommandDelete(selected);
      if deleted.Err? {
        failure := Some(deleted.error);
      }
    }
    quit := action == Quit;
  }

  /** The selector text commandParse builds: every index followed by a comma. */
  function Listing(xs: seq<int>): string {
    if xs == [] then "" else Itoa(xs[0]) + "," + Listing(xs[1..])
  }

  lemma {:induction false} ListingSnoc(xs: seq<int>, x: int)
    ensures Listing(xs + [x]) == Listing(xs) + Itoa(x) + ","
  {
    if xs != [] {
      var head := Itoa(xs[0]) + ",";
      assert (xs + [x])[0] == xs[0];
      assert (xs + [x])[1..] == xs[1..] + [x];
      assert Listing(xs + [x]) == head + Listing(xs[1..] + [x]);
      ListingSnoc(xs[1..], x);
      AppendAssoc(head, Listing(xs[1..]), Itoa(x));
      AppendAssoc(head, Listing(xs[1..]) + Itoa(x), ",");
      assert Listing(xs) == head + Listing(xs[1..]);
    } else {
      assert [x][1..] == [];
      assert Listing([x]) == Itoa(x) + "," + "";
    }
  }

  /** The decimal spellings of xs, in order. */
  function Spellings(xs: seq<int>): (ps: seq<string>)
    ensures |ps| == |xs| && forall j :: 0 <= j < |xs| ==> ps[j] == Itoa(xs[j])
  {
    if xs == [] then [] else [Itoa(xs[0])] + Spellings(xs[1..])
  }

  /** A listing splits at its commas into the spellings and an empty last part. */
  lemma {:induction false} SplitListing(xs: seq<int>)
    requires forall j :: 0 <= j < |xs| ==> xs[j] >= 0
    ensures Split(Listing(xs), ',') == Spellings(xs) + [""]
  {
    if xs != [] {
      var d := Itoa(xs[0]);
      assert AllDigits(d);
      assert ',' !in d;
      assert Listing(xs) == d + [','] + Listing(xs[1..]);
      SplitCons(d, Listing(xs[1..]), ',');
      SplitListing(xs[1..]);
    } else {
      assert Split("", ',') == [""];
    }
  }

  /** Dropping the empty parts of non-empty parts and a final "" leaves the parts. */
  lemma {:induction false} NonEmptyFinal(ps: seq<string>)
    requires forall j :: 0 <= j < |ps| ==> ps[j] != []
    ensures NonEmpty(ps + [""]) == ps
  {
    if ps != [] {
      assert (ps + [""])[1..] == ps[1..] + [""];
      NonEmptyFinal(ps[1..]);
    } else {
      assert [""][1..] == [];
    }
  }

  lemma BlankListing(xs: seq<int>)
    requires xs != []
    ensures " " + Listing(xs) == (" " + Itoa(xs[0])) + [','] + Listing(xs[1..])
  {
    var d, rest := Itoa(xs[0]), Listing(xs[1..]);
    assert Listing(xs) == d + [','] + rest;
    calc {
      " " + Listing(xs);
      " " + (d + [','] + rest);
      (" " + d) + [','] + rest;
    }
  }

  /** The items of " " followed by a listing: the first index after its blank, then the others. */
  lemma ItemsListing(xs: seq<int>)
    requires xs != [] && forall j :: 0 <= j < |xs| ==> xs[j] >= 0
    ensures Items(" " + Listing(xs)) == [" " + Itoa(xs[0])] + Spellings(xs[1..])
  {
    var first := " " + Itoa(xs[0]);
    var spelt := Spellings(xs[1..]);
    assert Split(" " + Listing(xs), ',') == [first] + (spelt + [""]) by {
      assert AllDigits(Itoa(xs[0]));
      assert ',' !in first;
      BlankListing(xs);
      SplitCons(first, Listing(xs[1..]), ',');
      SplitListing(xs[1..]);
    }
    assert NonEmpty(spelt + [""]) == spelt by { NonEmptyFinal(spelt); }
    NonEmptyCons(first, spelt + [""]);
  }

  /** Each item of " " followed by a listing selects the index it spells. */
  lemma ItemAt(xs: seq<int>, j: nat)
    requires j < |xs| && forall k :: 0 <= k < |xs| ==> xs[k] >= 0
    ensures ItemIndices(([" " + Itoa(xs[0])] + Spellings(xs[1..]))[j]) == Ok({xs[j]})
  {
    var items := [" " + Itoa(xs[0])] + Spellings(xs[1..]);
    var pre := if j == 0 then " " else "";
    assert items[j] == pre + Itoa(xs[j]) by {
      if j > 0 {
        assert items[j] == Spellings(xs[1..])[j - 1];
        assert xs[1..][j - 1] == xs[j];
      }
    }
    ItemNumber(xs[j], pre);
  }

  /** " " followed by a listing of non-negative indices selects exactly those indices. */
  lemma SelectedListing(xs: seq<int>)
    requires xs != [] && forall j :: 0 <= j < |xs| ==> xs[j] >= 0
    ensures Selected(" " + Listing(xs)) == Ok(SetOf(xs))
  {
    ItemsListing(xs);
    var items := [" " + Itoa(xs[0])] + Spellings(xs[1..]);
    var rs := Results(items);
    assert Selected(" " + Listing(xs)) == Combine(rs);
    forall j | 0 <= j < |items| ensures rs[j] == Ok({xs[j]}) {
      ItemAt(xs, j);
    }
    CombineSingletons(rs, xs);
  }

  lemma ShowPrefix(l: string)
    ensures "s " + l == "s" + "" + (" " + l)
  {
    assert "s" + " " == "s ";
    calc {
      "s" + "" + (" " + l);
      "s" + (" " + l);
      ("s" + " ") + l;
    }
  }

  /** The rewritten line is a show command of the listed indices. */
  lemma ShowListing(xs: seq<int>)
    requires xs != [] && forall j :: 0 <= j < |xs| ==> xs[j] >= 0
    ensures Interpret("s " + Listing(xs)) == Show(SetOf(xs), "s")
  {
    var text := " " + Listing(xs);
    var input := "s " + Listing(xs);
    assert Recognise(input) == Some(Groups("s", "", text)) by {
      BlankListingChars(xs);
      ShowPrefix(Listing(xs));
      GroupsUnique(input, "s", "", text);
    }
    assert Selected(text) == Ok(SetOf(xs)) by { SelectedListing(xs); }
    assert SetOf(xs) != {} by { assert xs[0] in SetOf(xs); }
    InterpretGroups(input, Groups("s", "", text), SetOf(xs));
  }

  lemma BlankListingChars(xs: seq<int>)
    requires forall j :: 0 <= j < |xs| ==> xs[j] >= 0
    ensures AllSelector(" " + Listing(xs))
  {
    var text := " " + Listing(xs);
    ListingChars(xs);
    forall k | 0 <= k < |text| ensures IsSelectorChar(text[k]) {
      if k > 0 {
        assert text[k] == Listing(xs)[k - 1];
      }
    }
  }

  lemma {:induction false} ListingChars(xs: seq<int>)
    requires forall j :: 0 <= j < |xs| ==> xs[j] >= 0
    ensures AllSelector(Listing(xs))
  {
    if xs != [] {
      ListingChars(xs[1..]);
      var d := Itoa(xs[0]);
      assert AllDigits(d);
      var l := Listing(xs);
      assert l == d + "," + Listing(xs[1..]);
      forall k | 0 <= k < |l| ensures IsSelectorChar(l[k]) {
        if k < |d| {
          assert l[k] == d[k];
        } else if k > |d| {
          assert l[k] == Listing(xs[1..])[k - |d| - 1];
        }
      }
    }
  }

  /** A command followed only by context digits is decided on an empty selection. */
  lemma CommandOnly(command: string, context: string)
    requires command != [] && AllCommand(command) && AllDigits(context)
    ensures Interpret(command + context) == Decide(command, ContextValue(context), {})
  {
    var input := command + context;
    assert input == command + context + "";
    GroupsUnique(input, command, context, "");
    CommasOnly("");
    InterpretGroups(input, Groups(command, context, ""), {});
  }

  /**
   * delete followed only by digits, as in "d12", reads the digits as
   * context lines and no selectors, so the delete is refused.
   */
  lemma DeleteContextOnly(command: string, context: string)
    requires command == "d" || command == "delete"
    requires AllDigits(context)
    ensures Interpret(command + context) == NeedSelectors("Delete requires specified selectors")
  {
    assert command != [] && AllCommand(command);
    CommandOnly(command, context);
  }

  /** show, once the editor has run, reports its command as unsupported. */
  lemma ShowMessage(sel: set<int>)
    ensures Message(Show(sel, "s")) == Some("Unsupported command \"s\"")
  {
    assert "Unsupported command \"" + "s" + "\"" == "Unsupported command \"s\"";
  }

  /** "s" and one index, as in "s 3", shows that record (and then, by ShowMessage, reports "s" as unsupported). */
  lemma ShowNumber(n: nat)
    ensures Interpret("s " + Itoa(n)) == Show({n}, "s")
  {
    var text := " " + Itoa(n);
    var input := "s " + Itoa(n);
    assert AllSelector(text) by {
      assert AllDigits(Itoa(n));
      forall k | 0 <= k < |text| ensures IsSelectorChar(text[k]) {
        if k > 0 {
          assert text[k] == Itoa(n)[k - 1];
        }
      }
    }
    ShowPrefix(Itoa(n));
    GroupsUnique(input, "s", "", text);
    SelectedNumber(n);
    InterpretGroups(input, Groups("s", "", text), {n});
    assert n in {n};
  }

  /** A bare selector is no command: a line must start with a command character. */
  lemma SelectorNoCommand(input: string)
    requires input != [] && !IsCommandChar(input[0])
    ensures Interpret(input) == NoMatch(input)
  {
    assert CommandLength(input) == 0;
  }

  /** "q" or "quit", with or without context digits, quits. */
  lemma QuitWords(command: string, context: string)
    requires command == "q" || command == "quit"
    requires AllDigits(context)
    ensures Interpret(command + context) == Quit
  {
    assert command != [] && AllCommand(command);
    CommandOnly(command, context);
  }

  /** The text of the rewritten line for a parsed selection. */
  method ShowLine(indices: seq<int>) returns (r: string)
    ensures r == "s " + Listing(indices)
  {
    r := "s ";
    for k := 0 to |indices|
      invariant r == "s " + Listing(indices[..k])
    {
      ShowLineStep(indices, k);
      r := r + Itoa(indices[k]) + ",";
    }
    assert indices[..|indices|] == indices;
  }

  /** One round of the ShowLine loop appends the next index and a comma. */
  lemma ShowLineStep(xs: seq<int>, k: nat)
    requires k < |xs|
    ensures "s " + Listing(xs[..k]) + Itoa(xs[k]) + "," == "s " + Listing(xs[..k + 1])
  {
    var l, d := Listing(xs[..k]), Itoa(xs[k]);
    assert xs[..k + 1] == xs[..k] + [xs[k]];
    ListingSnoc(xs[..k], xs[k]);
    AppendAssoc("s ", l, d);
    AppendAssoc("s ", l + d, ",");
  }

  /** The parsed indices of a well-formed selection are its members, none negative. */
  lemma SelectedIndices(input: string, indices: seq<int>)
    requires Selected(input).Ok?
    requires forall x: int :: x in indices <==> x in Selected(input).value
    ensures Selected(input).value == SetOf(indices)
    ensures forall j :: 0 <= j < |indices| ==> indices[j] >= 0
  {
    forall j | 0 <= j < |indices| ensures indices[j] >= 0 {
      SelectedNonNegative(input, indices[j]);
    }
    SetOfMembers(Selected(input).value, indices);
  }

  /** Listing a non-empty well-formed selection gives a show of that selection. */
  lemma ShowSelected(input: string, indices: seq<int>)
    requires Selected(input).Ok? && indices != []
    requires forall x: int :: x in indices <==> x in Selected(input).value
    ensures Interpret("s " + Listing(indices)) == Show(Selected(input).value, "s")
  {
    SelectedIndices(input, indices);
    ShowListing(indices);
  }

  /**
   * commandParse's rewrite: a line that parses as a non-empty selection
   * becomes "s " followed by the selected indices, each with a comma, so
   * that it is dispatched as a show of the same selection; any other line
   * is left as it is.
   */
  method RewriteSelectors(input: string) returns (r: string)
    ensures !(Selected(input).Ok? && Selected(input).value != {}) ==> r == input
    ensures Selected(input).Ok? && Selected(input).value != {} ==>
              Interpret(r) == Show(Selected(input).value, "s")
  {
    r := input;
    var parsed := ParseSelectors(input);
    if parsed.Ok? && |parsed.value| > 0 {
      var first := parsed.value[0];
      assert first in parsed.value;
      assert first in Selected(input).value;
      r := ShowLine(parsed.value);
      ShowSelected(input, parsed.value);
    } else if parsed.Ok? {
      assert parsed.value == [];
      assert forall x: int :: x !in Selected(input).value;
    }
  }
}
