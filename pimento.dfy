/** The menu of `pimento/__init__.py`: argument checks, menu rendering,
    resolution of one response, and the prompt loop that re-asks until a
    response selects an item. */
module Pimento {
  import opened Wrappers
  import opened Text
  import opened Console

  // =====================================================================
  // Arguments

  /** The `default_index` argument as Python sees it: `None`, an `int`,
      or a value of some other type (a float, say). */
  datatype IndexArg = NoIndex | IntIndex(value: int) | OtherIndex

  datatype ExceptionType = TypeError | ValueError

  /** The exceptions `menu` raises for bad arguments. */
  datatype ArgError = EmptyItemList | IndexNotInteger | IndexTooLarge | IndexNegative
  {
    function Raises(): ExceptionType {
      if this == IndexNotInteger then TypeError else ValueError
    }
  }

  datatype MenuError =
    | BadArgument(arg: ArgError)
    | InputEnded   // `raw_input` raised `EOFError`: the user typed nothing more

  predicate IndexInRange(items: seq<string>, index: IndexArg) {
    index.IntIndex? && 0 <= index.value < |items|
  }

  /** `_check_items`: the item list must not be empty (`ValueError`). */
  function CheckItems(items: seq<string>): (e: Option<ArgError>)
    ensures e.Some? <==> |items| == 0
    ensures e.Some? ==> e.value == EmptyItemList && e.value.Raises() == ValueError
  {
    if |items| == 0 then Some(EmptyItemList) else None
  }

  /** `_check_default_index`: passes for `None` and for an in-range `int`;
      otherwise the type is checked before the upper bound, and the upper
      bound before the lower one. */
  function CheckDefaultIndex(items: seq<string>, index: IndexArg): (e: Option<ArgError>)
    ensures e.None? <==> index.NoIndex? || IndexInRange(items, index)
    ensures index.OtherIndex? ==> e == Some(IndexNotInteger)
    ensures index.IntIndex? && index.value >= |items| ==> e == Some(IndexTooLarge)
    ensures index.IntIndex? && index.value < 0 ==> e == Some(IndexNegative)
    ensures e.Some? ==> (e.value.Raises() == TypeError <==> index.OtherIndex?)
  {
    if !index.NoIndex? && !index.IntIndex? then Some(IndexNotInteger)
    else if !index.NoIndex? && index.value >= |items| then Some(IndexTooLarge)
    else if !index.NoIndex? && index.value < 0 then Some(IndexNegative)
    else None
  }

  /** The checks `menu` makes before prompting, in its order. */
  function CheckArguments(items: seq<string>, index: IndexArg): (e: Option<ArgError>)
    ensures e.None? <==> |items| > 0 && (index.NoIndex? || IndexInRange(items, index))
    ensures |items| == 0 ==> e == Some(EmptyItemList)
    ensures |items| > 0 ==> e == CheckDefaultIndex(items, index)
  {
    if CheckItems(items).Some? then CheckItems(items) else CheckDefaultIndex(items, index)
  }

  const OptionPrompt := "Enter an option to continue"
  /** `"Enter an option to continue: "` */
  const DefaultPostPrompt := OptionPrompt + ": "
  /** `"Enter an option to continue [{}]: "` */
  const DefaultPostPromptWithDefault := OptionPrompt + " [" + "{}" + "]: "

  /** The post-prompt `menu` uses: the one given, else a stock one that
      shows the default when there is a default index. */
  function PostPromptFor(postPrompt: Option<string>, index: IndexArg): (prompt: string)
    ensures postPrompt.Some? ==> prompt == postPrompt.value
    ensures postPrompt.None? ==> StartsWith(prompt, OptionPrompt)
  {
    assert DefaultPostPrompt[..|OptionPrompt|] == OptionPrompt;
    assert DefaultPostPromptWithDefault[..|OptionPrompt|] == OptionPrompt;
    match postPrompt
    case Some(p) => p
    case None => if index.NoIndex? then DefaultPostPrompt else DefaultPostPromptWithDefault
  }

  /** `items[default_index]`, or `None`. */
  function DefaultFor(items: seq<string>, index: IndexArg): (d: Option<string>)
    requires index.NoIndex? || IndexInRange(items, index)
    ensures d.Some? <==> index.IntIndex?
    ensures d.Some? ==> d.value in items
    ensures index.IntIndex? ==> d == Some(items[index.value])
  {
    if index.IntIndex? then Some(items[index.value]) else None
  }

  /** Without a post-prompt and with a default index, the stock post-prompt
      displays the default item in brackets. */
  lemma StockPostPromptShowsDefault(items: seq<string>, i: int)
    requires 0 <= i < |items|
    ensures var default := DefaultFor(items, IntIndex(i));
      Fill(PostPromptFor(None, IntIndex(i)), default) == OptionPrompt + " [" + items[i] + "]: "
  {
    var a := OptionPrompt + " [";
    PlaceholderAt(DefaultPostPromptWithDefault, |a|);
    assert '{' !in OptionPrompt && '{' !in " [";
    NoBraceNoPlaceholder(a);
    SubstituteAt(a, "]: ", items[i]);
  }

  /** Without a post-prompt or a default index, the stock post-prompt is
      shown as it is, whatever the default. */
  lemma StockPostPromptWithoutDefault(default: Option<string>)
    ensures Fill(PostPromptFor(None, NoIndex), default) == OptionPrompt + ": "
  {
    assert '{' !in OptionPrompt && '{' !in ": ";
    NoBraceNoPlaceholder(DefaultPostPrompt);
  }

  lemma {:induction false} PlaceholderAt(s: string, j: nat)
    requires j + 2 <= |s| && s[j] == '{' && s[j + 1] == '}'
    ensures HasPlaceholder(s)
    decreases j
  {
    if j > 0 {
      PlaceholderAt(s[1..], j - 1);
    }
  }

  // =====================================================================
  // Rendering (`_prompt`)

  const Indent := "  "

  /** One menu line: the item indented, with `[index] ` before it when
      the menu is indexed. */
  function ItemLine(index: nat, item: string, indexed: bool): (line: string)
    ensures StartsWith(line, Indent)
    ensures |item| <= |line| && line[|line| - |item|..] == item
  {
    var prefix := if indexed then Indent + "[" + NatToString(index) + "] " else Indent;
    assert (prefix + item)[..|Indent|] == prefix[..|Indent|] == Indent;
    assert (prefix + item)[|prefix|..] == item;
    prefix + item
  }

  function ItemLines(items: seq<string>, indexed: bool): (lines: seq<string>)
    ensures |lines| == |items|
  {
    seq(|items|, k requires 0 <= k < |items| => ItemLine(k, items[k], indexed))
  }

  /** A prompt with the default put into its `{}`, when there is a default. */
  function Fill(prompt: string, default: Option<string>): (shown: string)
    ensures default.None? || !HasPlaceholder(prompt) ==> shown == prompt
  {
    if default.Some? && HasPlaceholder(prompt) then Substitute(prompt, default.value) else prompt
  }

  /** The full text `_prompt` writes in one go. */
  function MenuText(prePrompt: string, items: seq<string>, postPrompt: string,
                    default: Option<string>, indexed: bool): (text: string)
  {
    Join([Fill(prePrompt, default)] + ItemLines(items, indexed) + [Fill(postPrompt, default)])
  }

  /** The menu text read line by line: the pre-prompt, one line per item in
      order, the post-prompt (each with the default filled in), and no
      trailing line break, provided no part holds a line break itself. */
  lemma MenuLines(prePrompt: string, items: seq<string>, postPrompt: string,
                  default: Option<string>, indexed: bool)
    requires '\n' !in prePrompt && '\n' !in postPrompt
    requires forall k :: 0 <= k < |items| ==> '\n' !in items[k]
    requires default.None? || default.value in items
    ensures Split(MenuText(prePrompt, items, postPrompt, default, indexed))
         == [Fill(prePrompt, default)] + ItemLines(items, indexed) + [Fill(postPrompt, default)]
  {
    if default.Some? {
      SubstituteNoNewline(prePrompt, default.value);
      SubstituteNoNewline(postPrompt, default.value);
    }
    var lines := ItemLines(items, indexed);
    forall k | 0 <= k < |items|
      ensures '\n' !in lines[k]
    {
      DigitsHaveNoNewline(NatToString(k));
    }
    var parts := [Fill(prePrompt, default)] + lines + [Fill(postPrompt, default)];
    assert forall k :: 0 <= k < |parts| ==> '\n' !in parts[k] by {
      forall k | 0 <= k < |parts|
        ensures '\n' !in parts[k]
      {
        if 0 < k < |parts| - 1 {
          assert parts[k] == lines[k - 1];
        }
      }
    }
    SplitJoin(parts);
  }

  /** The `for` loop of `_prompt` that builds `item_text_list`. */
  method RenderItems(items: seq<string>, indexed: bool) returns (itemTextList: seq<string>)
    ensures itemTextList == ItemLines(items, indexed)
  {
    itemTextList := [];
    for index := 0 to |items|
      invariant |itemTextList| == index
      invariant forall k :: 0 <= k < index ==> itemTextList[k] == ItemLine(k, items[k], indexed)
    {
      var itemText := Indent + items[index];
      if indexed {
        itemText := Indent + "[" + NatToString(index) + "] " + items[index];
      }
      itemTextList := itemTextList + [itemText];
    }
  }

  /** `_prompt`: fill in the default, write the menu text, read a response
      (`None` when standard input has no line left). */
  method Prompt(prePrompt: string, items: seq<string>, postPrompt: string,
                default: Option<string>, indexed: bool, stream: Stream, stdin: Stdin)
    returns (response: Option<string>)
    modifies stream, stdin
    ensures stream.writes == old(stream.writes) + [MenuText(prePrompt, items, postPrompt, default, indexed)]
    ensures old(stdin.pending) == [] ==> response == None && stdin.pending == []
    ensures old(stdin.pending) != [] ==>
      response == Some(old(stdin.pending)[0]) && stdin.pending == old(stdin.pending)[1..]
  {
    var pre, post := prePrompt, postPrompt;
    if default.Some? {
      if HasPlaceholder(pre) {
        pre := Substitute(pre, default.value);
      }
      if HasPlaceholder(post) {
        post := Substitute(post, default.value);
      }
    }
    var itemTextList := RenderItems(items, indexed);
    var menuParts := [pre] + itemTextList + [post];
    var fullMenu := Join(menuParts);
    stream.Write(fullMenu);
    response := stdin.ReadLine();
  }

  // =====================================================================
  // Resolving one response (`_check_response`)

  datatype Selection = Selected(item: string) | Rejected

  /** What one response leads to: a selection (or none) and the lines
      written to the stream as diagnostics. */
  datatype Response = Response(selection: Selection, diagnostics: seq<string>)

  // The diagnostic lines, without their line break.
  const EmptyResponseNotice := "[!] an empty response is not valid."
  const AmbiguityTrailer := "[!] Please specify your choice further."

  function NoMatchNotice(response: string): string {
    "[!] \"" + response + "\" does not match any of the valid choices."
  }

  function AmbiguityHeader(response: string): string {
    "[!] \"" + response + "\" matches multiple choices:"
  }

  function MatchLine(item: string): string {
    "[!]   " + item
  }

  function MatchLines(matches: seq<string>): seq<string> {
    seq(|matches|, k requires 0 <= k < |matches| => WithNewline(MatchLine(matches[k])))
  }

  /** The header, one line per match in order, and the trailer. */
  function AmbiguityReport(response: string, matches: seq<string>): seq<string> {
    [WithNewline(AmbiguityHeader(response))] + MatchLines(matches) + [WithNewline(AmbiguityTrailer)]
  }

  /** `[i for i in items if i.startswith(response)]`. */
  function Matches(items: seq<string>, response: string): (m: seq<string>)
    ensures |m| <= |items|
    ensures forall x {:trigger x in m} :: x in m <==> x in items && StartsWith(x, response)
    decreases |items|
  {
    if |items| == 0 then []
    else (if StartsWith(items[0], response) then [items[0]] else []) + Matches(items[1..], response)
  }

  /** Filtering keeps the items' order: the matches of `a + b` are those of
      `a` followed by those of `b`. */
  lemma {:induction false} MatchesAppend(a: seq<string>, b: seq<string>, response: string)
    ensures Matches(a + b, response) == Matches(a, response) + Matches(b, response)
    decreases |a|
  {
    if a == [] {
      assert a + b == b;
    } else {
      var head := if StartsWith(a[0], response) then [a[0]] else [];
      assert (a + b)[0] == a[0];
      assert (a + b)[1..] == a[1..] + b;
      assert Matches(a + b, response) == head + Matches(a[1..] + b, response);
      MatchesAppend(a[1..], b, response);
      assert head + (Matches(a[1..], response) + Matches(b, response))
          == (head + Matches(a[1..], response)) + Matches(b, response);
    }
  }

  lemma {:induction false} MatchesNone(items: seq<string>, response: string)
    requires forall k :: 0 <= k < |items| ==> !StartsWith(items[k], response)
    ensures Matches(items, response) == []
    decreases |items|
  {
    if items != [] {
      assert !StartsWith(items[0], response);
      MatchesNone(items[1..], response);
    }
  }

  /** When every item starts with the response, every item matches, in order. */
  lemma {:induction false} MatchesAll(items: seq<string>, response: string)
    requires forall k :: 0 <= k < |items| ==> StartsWith(items[k], response)
    ensures Matches(items, response) == items
    decreases |items|
  {
    if items != [] {
      MatchesAll(items[1..], response);
      assert [items[0]] + items[1..] == items;
    }
  }

  /** An item at a position no other item's prefix test passes is the only match. */
  lemma MatchesSingle(items: seq<string>, response: string, j: nat)
    requires j < |items| && StartsWith(items[j], response)
    requires forall k :: 0 <= k < |items| && k != j ==> !StartsWith(items[k], response)
    ensures Matches(items, response) == [items[j]]
  {
    var before, after := items[..j], items[j + 1..];
    assert items == before + [items[j]] + after;
    MatchesAppend(before + [items[j]], after, response);
    MatchesAppend(before, [items[j]], response);
    MatchesNone(before, response);
    forall k | 0 <= k < |after|
      ensures !StartsWith(after[k], response)
    {
      assert after[k] == items[j + 1 + k];
    }
    MatchesNone(after, response);
    assert Matches([items[j]], response) == [items[j]] + Matches([], response);
  }

  /** Two positions whose items both start with the response give at least two matches. */
  lemma MatchesTwo(items: seq<string>, response: string, i: nat, j: nat)
    requires i < j < |items|
    requires StartsWith(items[i], response) && StartsWith(items[j], response)
    ensures |Matches(items, response)| >= 2
  {
    var before, after := items[..j], items[j..];
    assert items == before + after;
    MatchesAppend(before, after, response);
    assert items[i] == before[i];
    assert items[i] in Matches(before, response);
    assert items[j] == after[0];
    assert items[j] in Matches(after, response);
  }

  /** Whether `_check_response` selects by position: indexed mode and an
      all-digit response whose value is below the item count. */
  predicate SelectsByIndex(response: string, items: seq<string>, indexed: bool) {
    indexed && IsDigits(response) && DecimalValue(response) < |items|
  }

  /** `_check_response`. A selection is always an item or the default and
      comes with no diagnostic. */
  function Resolve(response: string, items: seq<string>, default: Option<string>, indexed: bool): (r: Response)
    ensures r.selection.Selected? ==> r.diagnostics == []
    ensures r.selection.Selected? ==>
      r.selection.item in items || default == Some(r.selection.item)
    ensures r.selection.Rejected? ==> r.diagnostics != []
  {
    if SelectsByIndex(response, items, indexed) then
      Response(Selected(items[DecimalValue(response)]), [])
    else
      var matches := Matches(items, response);
      if response == "" && default.None? then Response(Rejected, [WithNewline(EmptyResponseNotice)])
      else if response == "" then Response(Selected(default.value), [])
      else if |matches| == 0 then Response(Rejected, [WithNewline(NoMatchNotice(response))])
      else if |matches| == 1 then
        assert matches[0] in matches;
        Response(Selected(matches[0]), [])
      else Response(Rejected, AmbiguityReport(response, matches))
  }

  /** In indexed mode an all-digit in-range response selects by position and
      writes nothing; text matching and the default are not consulted. */
  lemma IndexedResponseSelects(response: string, items: seq<string>, default: Option<string>)
    requires IsDigits(response) && DecimalValue(response) < |items|
    ensures Resolve(response, items, default, true)
         == Response(Selected(items[DecimalValue(response)]), [])
  {
  }

  /** Typing the index a line of an indexed menu shows selects that line's item. */
  lemma ShownIndexSelects(items: seq<string>, k: nat, default: Option<string>)
    requires k < |items|
    ensures Resolve(NatToString(k), items, default, true) == Response(Selected(items[k]), [])
  {
    DecimalValueOfNatToString(k);
  }

  /** An all-digit response out of range falls through to text matching,
      exactly as if the menu were not indexed. */
  lemma OutOfRangeIndexFallsThrough(response: string, items: seq<string>, default: Option<string>)
    requires IsDigits(response) && DecimalValue(response) >= |items|
    ensures Resolve(response, items, default, true) == Resolve(response, items, default, false)
  {
  }

  /** An empty response gives the default, writing nothing, or, with no
      default, nothing and the empty-response notice. */
  lemma EmptyResponse(items: seq<string>, default: Option<string>, indexed: bool)
    ensures Resolve("", items, default, indexed)
      == if default.None? then Response(Rejected, [WithNewline(EmptyResponseNotice)])
         else Response(Selected(default.value), [])
  {
  }

  /** A non-empty text response no item starts with is rejected with the
      no-match notice. */
  lemma NoMatchRejected(response: string, items: seq<string>, default: Option<string>, indexed: bool)
    requires response != "" && !SelectsByIndex(response, items, indexed)
    requires forall k :: 0 <= k < |items| ==> !StartsWith(items[k], response)
    ensures Resolve(response, items, default, indexed) == Response(Rejected, [WithNewline(NoMatchNotice(response))])
  {
    MatchesNone(items, response);
  }

  /** A non-empty text response that exactly one position's item starts with
      selects that item and writes nothing. */
  lemma UniqueMatchSelects(response: string, items: seq<string>, default: Option<string>, indexed: bool, j: nat)
    requires response != "" && !SelectsByIndex(response, items, indexed)
    requires j < |items| && StartsWith(items[j], response)
    requires forall k :: 0 <= k < |items| && k != j ==> !StartsWith(items[k], response)
    ensures Resolve(response, items, default, indexed) == Response(Selected(items[j]), [])
  {
    MatchesSingle(items, response, j);
  }

  /** A non-empty text response that two positions' items start with is
      rejected; the report lists every match in item order. */
  lemma SeveralMatchesRejected(response: string, items: seq<string>, default: Option<string>, indexed: bool, i: nat, j: nat)
    requires response != "" && !SelectsByIndex(response, items, indexed)
    requires i < j < |items|
    requires StartsWith(items[i], response) && StartsWith(items[j], response)
    ensures Resolve(response, items, default, indexed)
         == Response(Rejected, AmbiguityReport(response, Matches(items, response)))
  {
    MatchesTwo(items, response, i, j);
  }

  const Colours := ["red", "blue", "green", "black", "grey", "white"]

  /** In the colour menu, `"b"` matches `blue` and `black`, in that order. */
  lemma ColourMatches()
    ensures Matches(Colours, "b") == ["blue", "black"]
  {
    DiffersAt("red", "b", 0);
    DiffersAt("green", "b", 0);
    DiffersAt("grey", "b", 0);
    DiffersAt("white", "b", 0);
    assert "blue"[..1] == "b" && "black"[..1] == "b";
    assert Matches(Colours[5..], "b") == [];
    assert Matches(Colours[4..], "b") == [];
    assert Matches(Colours[3..], "b") == ["black"];
    assert Matches(Colours[2..], "b") == ["black"];
    assert Matches(Colours[1..], "b") == ["blue", "black"];
  }

  /** In the colour menu, `"b"` is rejected with a report listing `blue`
      and then `black`. */
  lemma ColourAmbiguity()
    ensures Resolve("b", Colours, None, false)
         == Response(Rejected, Terminated([AmbiguityHeader("b"), MatchLine("blue"), MatchLine("black"), AmbiguityTrailer]))
  {
    ColourMatches();
    assert "blue"[..1] == "b" && "black"[..1] == "b";
    SeveralMatchesRejected("b", Colours, None, false, 1, 3);
    assert MatchLines(["blue", "black"]) == Terminated([MatchLine("blue"), MatchLine("black")]);
  }

  /** In the colour menu, `"bla"` selects `black`. */
  lemma ColourUniqueMatch()
    ensures Resolve("bla", Colours, None, false) == Response(Selected("black"), [])
  {
    DiffersAt("red", "bla", 0);
    DiffersAt("blue", "bla", 2);
    DiffersAt("green", "bla", 0);
    DiffersAt("grey", "bla", 0);
    DiffersAt("white", "bla", 0);
    assert "black"[..3] == "bla";
    UniqueMatchSelects("bla", Colours, None, false, 3);
  }

  /** Typing an item in full is still ambiguous when another item extends
      it: `"foo"` against `foo` and `foo bar` selects nothing. */
  lemma FullNameStillAmbiguous()
    ensures Resolve("foo", ["foo", "foo bar"], None, false)
         == Response(Rejected, AmbiguityReport("foo", ["foo", "foo bar"]))
  {
    var items := ["foo", "foo bar"];
    assert "foo"[..3] == "foo" && "foo bar"[..3] == "foo";
    SeveralMatchesRejected("foo", items, None, false, 0, 1);
    MatchesAll(items, "foo");
  }

  /** Indexed menu of numbers: `"1"` selects by position (`200`), `"3"` is out
      of range and selects `300` by prefix. */
  lemma NumberScenario()
    ensures var numbers := ["100", "200", "300"];
      && Resolve("1", numbers, None, true) == Response(Selected("200"), [])
      && Resolve("3", numbers, None, true) == Response(Selected("300"), [])
  {
    var numbers := ["100", "200", "300"];
    ShownIndexSelects(numbers, 1, None);
    assert NatToString(1) == "1";
    assert DecimalValue("3") == 3 by {
      assert "3"[..0] == "";
    }
    UniqueMatchSelects("3", numbers, None, true, 2);
  }

  /** `_check_response` run against a stream. */
  method CheckResponse(response: string, items: seq<string>, default: Option<string>,
                       indexed: bool, stream: Stream)
    returns (selection: Selection)
    modifies stream
    ensures selection == Resolve(response, items, default, indexed).selection
    ensures stream.writes == old(stream.writes) + Resolve(response, items, default, indexed).diagnostics
  {
    selection := Rejected;
    if indexed {
      if IsDigits(response) {
        var indexResponse := DecimalValue(response);
        if indexResponse < |items| {
          selection := Selected(items[indexResponse]);
        }
      }
    }
    if selection.Rejected? {
      var matches := Matches(items, response);
      var numMatches := |matches|;
      if response == "" && default.None? {
        stream.Write(WithNewline(EmptyResponseNotice));
      } else if response == "" {
        selection := Selected(default.value);
      } else if numMatches == 0 {
        stream.Write(WithNewline(NoMatchNotice(response)));
      } else if numMatches == 1 {
        selection := Selected(matches[0]);
      } else {
        stream.Write(WithNewline(AmbiguityHeader(response)));
        for k := 0 to |matches|
          invariant stream.writes == old(stream.writes) + [WithNewline(AmbiguityHeader(response))] + MatchLines(matches)[..k]
        {
          stream.Write(WithNewline(MatchLine(matches[k])));
          assert MatchLines(matches)[..k + 1] == MatchLines(matches)[..k] + [WithNewline(MatchLine(matches[k]))];
        }
        stream.Write(WithNewline(AmbiguityTrailer));
        assert MatchLines(matches)[..|matches|] == MatchLines(matches);
      }
    }
  }

  // =====================================================================
  // The prompt loop (`menu`)

  /** How a run of the prompt loop over a list of typed lines ends: the
      item chosen (`None` when the lines ran out first), how many lines it
      read, and everything it wrote. */
  datatype SessionEnd = SessionEnd(choice: Option<string>, used: nat, writes: seq<string>)

  /** The prompt loop: write the menu, read a line, resolve it; stop at the
      first line that selects. */
  function Session(menuText: string, items: seq<string>, default: Option<string>,
                   indexed: bool, responses: seq<string>): (s: SessionEnd)
    decreases |responses|
  {
    if responses == [] then SessionEnd(None, 0, [menuText])
    else
      var step := Resolve(responses[0], items, default, indexed);
      if step.selection.Selected? then
        SessionEnd(Some(step.selection.item), 1, [menuText] + step.diagnostics)
      else
        var rest := Session(menuText, items, default, indexed, responses[1..]);
        SessionEnd(rest.choice, rest.used + 1, [menuText] + step.diagnostics + rest.writes)
  }

  /** Every response in `responses` is rejected (see `AllRejectedEach`). */
  ghost predicate AllRejected(responses: seq<string>, items: seq<string>, default: Option<string>, indexed: bool)
    decreases |responses|
  {
    responses == [] ||
    (Resolve(responses[0], items, default, indexed).selection.Rejected?
     && AllRejected(responses[1..], items, default, indexed))
  }

  /** `AllRejected` holds exactly when each response, one by one, is rejected. */
  lemma {:induction false} AllRejectedEach(responses: seq<string>, items: seq<string>,
                                           default: Option<string>, indexed: bool)
    ensures AllRejected(responses, items, default, indexed) <==>
      forall j :: 0 <= j < |responses| ==> Resolve(responses[j], items, default, indexed).selection.Rejected?
    decreases |responses|
  {
    if responses != [] {
      AllRejectedEach(responses[1..], items, default, indexed);
      if forall j :: 0 <= j < |responses| ==> Resolve(responses[j], items, default, indexed).selection.Rejected? {
        forall j | 0 <= j < |responses| - 1
          ensures Resolve(responses[1..][j], items, default, indexed).selection.Rejected?
        {
          assert responses[1..][j] == responses[j + 1];
        }
      }
      if AllRejected(responses, items, default, indexed) {
        forall j | 0 <= j < |responses|
          ensures Resolve(responses[j], items, default, indexed).selection.Rejected?
        {
          if j > 0 {
            assert responses[j] == responses[1..][j - 1];
          }
        }
      }
    }
  }

  /** The loop reads at least the line that selects and never more lines
      than there are; when nothing selects it reads them all. */
  lemma {:induction false} SessionUsed(menuText: string, items: seq<string>, default: Option<string>,
                                       indexed: bool, responses: seq<string>)
    ensures var s := Session(menuText, items, default, indexed, responses);
      && s.used <= |responses|
      && (s.choice.Some? ==> s.used >= 1)
      && (s.choice.None? ==> s.used == |responses|)
    decreases |responses|
  {
    if responses != [] {
      SessionStep(menuText, items, default, indexed, responses);
      SessionUsed(menuText, items, default, indexed, responses[1..]);
    }
  }

  /** When the loop chooses, it chooses what the last line it read selects,
      and every earlier line was rejected. */
  lemma {:induction false} SessionChosen(menuText: string, items: seq<string>, default: Option<string>,
                                         indexed: bool, responses: seq<string>)
    ensures var s := Session(menuText, items, default, indexed, responses);
      s.choice.Some? ==>
        && 1 <= s.used <= |responses|
        && AllRejected(responses[..s.used - 1], items, default, indexed)
        && Resolve(responses[s.used - 1], items, default, indexed).selection == Selected(s.choice.value)
    decreases |responses|
  {
    SessionUsed(menuText, items, default, indexed, responses);
    if responses != [] {
      var step := Resolve(responses[0], items, default, indexed);
      if step.selection.Rejected? {
        var rest := responses[1..];
        SessionChosen(menuText, items, default, indexed, rest);
        var r := Session(menuText, items, default, indexed, rest);
        if r.choice.Some? {
          PrefixOfTail(responses, r.used);
          assert responses[r.used] == rest[r.used - 1];
        }
      }
    }
  }

  /** When the loop chooses nothing, every line was rejected. */
  lemma {:induction false} SessionExhausted(menuText: string, items: seq<string>, default: Option<string>,
                                            indexed: bool, responses: seq<string>)
    ensures Session(menuText, items, default, indexed, responses).choice.None? ==>
      AllRejected(responses, items, default, indexed)
    decreases |responses|
  {
    if responses != [] {
      var step := Resolve(responses[0], items, default, indexed);
      if step.selection.Rejected? {
        var rest := responses[1..];
        SessionExhausted(menuText, items, default, indexed, rest);
      }
    }
  }

  /** What the loop writes for the lines it reads: for each line in
      order, the menu and then that line's diagnostics. */
  function Rounds(menuText: string, items: seq<string>, default: Option<string>,
                  indexed: bool, responses: seq<string>): (w: seq<string>)
    decreases |responses|
  {
    if responses == [] then []
    else [menuText] + Resolve(responses[0], items, default, indexed).diagnostics
         + Rounds(menuText, items, default, indexed, responses[1..])
  }

  /** The whole output of the loop: one round for each line read, and the
      menu once more when input ends before any line selects. */
  lemma {:induction false} SessionWrites(menuText: string, items: seq<string>, default: Option<string>,
                                         indexed: bool, responses: seq<string>)
    ensures var s := Session(menuText, items, default, indexed, responses);
      && s.used <= |responses|
      && s.writes == Rounds(menuText, items, default, indexed, responses[..s.used])
                     + (if s.choice.None? then [menuText] else [])
    decreases |responses|
  {
    if responses != [] {
      var step := Resolve(responses[0], items, default, indexed);
      SessionStep(menuText, items, default, indexed, responses);
      if step.selection.Selected? {
        RoundsPrepend(menuText, items, default, indexed, responses[0], []);
        assert responses[..1] == [responses[0]] + [];
      } else {
        var rest := responses[1..];
        SessionWrites(menuText, items, default, indexed, rest);
        var r := Session(menuText, items, default, indexed, rest);
        PrefixOfTail(responses, r.used + 1);
        RoundsPrepend(menuText, items, default, indexed, responses[0], rest[..r.used]);
        var tail := if r.choice.None? then [menuText] else [];
        AppendAssoc([menuText] + step.diagnostics, Rounds(menuText, items, default, indexed, rest[..r.used]), tail);
      }
    }
  }

  /** A line read first gives its round first. */
  lemma RoundsPrepend(menuText: string, items: seq<string>, default: Option<string>,
                      indexed: bool, response: string, responses: seq<string>)
    ensures Rounds(menuText, items, default, indexed, [response] + responses)
         == [menuText] + Resolve(response, items, default, indexed).diagnostics
            + Rounds(menuText, items, default, indexed, responses)
  {
    assert ([response] + responses)[0] == response;
    assert ([response] + responses)[1..] == responses;
  }

  /** The loop chooses what the first selecting response selects, after
      reading exactly up to it; every earlier response was rejected; if no
      response selects, it reads them all and chooses nothing. */
  lemma SessionOutcome(menuText: string, items: seq<string>, default: Option<string>,
                       indexed: bool, responses: seq<string>)
    ensures var s := Session(menuText, items, default, indexed, responses);
      && s.used <= |responses|
      && (s.choice.Some? ==>
            && s.used >= 1
            && AllRejected(responses[..s.used - 1], items, default, indexed)
            && Resolve(responses[s.used - 1], items, default, indexed).selection == Selected(s.choice.value))
      && (s.choice.None? ==> s.used == |responses| && AllRejected(responses, items, default, indexed))
  {
    SessionUsed(menuText, items, default, indexed, responses);
    SessionChosen(menuText, items, default, indexed, responses);
    SessionExhausted(menuText, items, default, indexed, responses);
  }

  /** One round of the loop: the first response either selects, ending the
      loop after the menu was written once, or is rejected and the loop goes on. */
  lemma SessionStep(menuText: string, items: seq<string>, default: Option<string>,
                    indexed: bool, responses: seq<string>)
    requires responses != []
    ensures var step := Resolve(responses[0], items, default, indexed);
      var s := Session(menuText, items, default, indexed, responses);
      var rest := Session(menuText, items, default, indexed, responses[1..]);
      if step.selection.Selected? then
        s == SessionEnd(Some(step.selection.item), 1, [menuText] + step.diagnostics)
      else
        s == SessionEnd(rest.choice, rest.used + 1, [menuText] + step.diagnostics + rest.writes)
  {
  }

  /** The first `n` elements are the first one and then the first `n - 1`
      of the rest. */
  lemma PrefixOfTail<T>(xs: seq<T>, n: nat)
    requires 1 <= n <= |xs|
    ensures xs[..n][0] == xs[0] && xs[..n][1..] == xs[1..][..n - 1]
    ensures xs[..n] == [xs[0]] + xs[1..][..n - 1]
  {
  }

  lemma AppendAssoc<T>(a: seq<T>, b: seq<T>, c: seq<T>)
    ensures a + (b + c) == a + b + c
  {
  }

  lemma Regroup<T>(before: seq<T>, a: seq<T>, b: seq<T>, c: seq<T>, total: seq<T>)
    requires before + (a + b + c) == total
    ensures before + a + b + c == total
  {
  }

  /** The loop only ever chooses one of the items, given a default that is one. */
  lemma SessionChoiceIsItem(menuText: string, items: seq<string>, default: Option<string>,
                            indexed: bool, responses: seq<string>)
    requires default.None? || default.value in items
    ensures var s := Session(menuText, items, default, indexed, responses);
      s.choice.Some? ==> s.choice.value in items
  {
    SessionOutcome(menuText, items, default, indexed, responses);
  }

  /** `menu`: check the arguments, settle the post-prompt and the default,
      then prompt until a response selects an item. */
  method Menu(prePrompt: string, items: seq<string>, postPrompt: Option<string>,
              defaultIndex: IndexArg, indexed: bool, stream: Stream, stdin: Stdin)
    returns (result: Result<string, MenuError>)
    modifies stream, stdin
    ensures CheckArguments(items, defaultIndex).Some? ==>
      && result == Failure(BadArgument(CheckArguments(items, defaultIndex).value))
      && stream.writes == old(stream.writes)
      && stdin.pending == old(stdin.pending)
    ensures CheckArguments(items, defaultIndex).None? ==>
      var default := DefaultFor(items, defaultIndex);
      var text := MenuText(prePrompt, items, PostPromptFor(postPrompt, defaultIndex), default, indexed);
      var s := Session(text, items, default, indexed, old(stdin.pending));
      && result == (if s.choice.Some? then Success(s.choice.value) else Failure(InputEnded))
      && stream.writes == old(stream.writes) + s.writes
      && s.used <= |old(stdin.pending)|
      && stdin.pending == old(stdin.pending)[s.used..]
    ensures result.Success? ==> result.value in items
  {
    var e := CheckItems(items);
    if e.Some? {
      return Failure(BadArgument(e.value));
    }
    e := CheckDefaultIndex(items, defaultIndex);
    if e.Some? {
      return Failure(BadArgument(e.value));
    }
    var actualPostPrompt := if postPrompt.Some? then postPrompt.value else "";
    if postPrompt.None? {
      if defaultIndex.NoIndex? {
        actualPostPrompt := DefaultPostPrompt;
      } else {
        actualPostPrompt := DefaultPostPromptWithDefault;
      }
    }
    var default: Option<string> := None;
    if defaultIndex.IntIndex? {
      default := Some(items[defaultIndex.value]);
    }

    var choice := PromptLoop(prePrompt, items, actualPostPrompt, default, indexed, stream, stdin);
    SessionChoiceIsItem(MenuText(prePrompt, items, actualPostPrompt, default, indexed),
                        items, default, indexed, old(stdin.pending));
    if choice.None? {
      return Failure(InputEnded);
    }
    return Success(choice.value);
  }

  /** The `while not acceptable_response_given` loop of `menu`: prompt, check
      the response, and stop at the first response that selects. `None` when
      standard input runs out first. */
  method PromptLoop(prePrompt: string, items: seq<string>, postPrompt: string,
                    default: Option<string>, indexed: bool, stream: Stream, stdin: Stdin)
    returns (choice: Option<string>)
    modifies stream, stdin
    ensures var s := Session(MenuText(prePrompt, items, postPrompt, default, indexed),
                             items, default, indexed, old(stdin.pending));
      && choice == s.choice
      && stream.writes == old(stream.writes) + s.writes
      && s.used <= |old(stdin.pending)|
      && stdin.pending == old(stdin.pending)[s.used..]
  {
    ghost var text := MenuText(prePrompt, items, postPrompt, default, indexed);
    ghost var all := stdin.pending;
    ghost var s := Session(text, items, default, indexed, all);
    ghost var w0 := stream.writes;
    ghost var i := 0;

    var acceptableResponseGiven := false;
    var selection := Rejected;
    while !acceptableResponseGiven
      invariant 0 <= i <= |all| && stdin.pending == all[i..]
      invariant !acceptableResponseGiven ==>
        && Session(text, items, default, indexed, all[i..]).choice == s.choice
        && i + Session(text, items, default, indexed, all[i..]).used == s.used
        && stream.writes + Session(text, items, default, indexed, all[i..]).writes == w0 + s.writes
      invariant acceptableResponseGiven ==>
        && selection.Selected? && s.choice == Some(selection.item) && s.used == i
        && stream.writes == w0 + s.writes
      decreases |stdin.pending|
    {
      selection := Rejected;
      ghost var before := stream.writes;
      ghost var current := Session(text, items, default, indexed, all[i..]);
      var response := Prompt(prePrompt, items, postPrompt, default, indexed, stream, stdin);
      if response.None? {
        return None;
      }
      assert response.value == all[i];
      selection := CheckResponse(response.value, items, default, indexed, stream);
      SessionStep(text, items, default, indexed, all[i..]);
      assert all[i..][0] == all[i] && all[i..][1..] == all[i + 1..];
      ghost var step := Resolve(all[i], items, default, indexed);
      if selection.Selected? {
        acceptableResponseGiven := true;
        Regroup(before, [text], step.diagnostics, [], w0 + s.writes);
      } else {
        Regroup(before, [text], step.diagnostics,
                Session(text, items, default, indexed, all[i + 1..]).writes, w0 + s.writes);
      }
      i := i + 1;
    }
    return Some(selection.item);
  }
}
