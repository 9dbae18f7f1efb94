/** The first revision of pimento: a single `menu(pre_prompt, items,
    post_prompt)` with no argument checks, no default and no indexing, that
    prints the menu line by line and matches responses by prefix. Its rules
    are stated on their own here, and then shown to agree with the later
    `menu` run with no default and no indices. */
module PimentoFirst {
  import opened Wrappers
  import opened Text
  import opened Console
  import Pimento

  // =====================================================================
  // Showing the menu

  /** What one round writes before reading: the pre-prompt line, one
      indented line per item, and the post-prompt without a line break. */
  function PromptWrites(prePrompt: string, items: seq<string>, postPrompt: string): (w: seq<string>)
    ensures |w| == |items| + 2
    ensures w[0] == WithNewline(prePrompt) && w[|items| + 1] == postPrompt
    ensures forall k :: 0 < k <= |items| ==> w[k] == WithNewline(Pimento.Indent + items[k - 1])
  {
    Terminated([prePrompt] + Pimento.ItemLines(items, false)) + [postPrompt]
  }

  /** The round's output, put together, is the exact text the later `menu`
      writes in one go when it has no default and no indices. */
  lemma PromptWritesText(prePrompt: string, items: seq<string>, postPrompt: string)
    ensures Flatten(PromptWrites(prePrompt, items, postPrompt))
         == Pimento.MenuText(prePrompt, items, postPrompt, None, false)
  {
    var middle := [prePrompt] + Pimento.ItemLines(items, false);
    FlattenAppend(Terminated(middle), [postPrompt]);
    assert Flatten([postPrompt]) == postPrompt + Flatten([]);
    JoinTail(middle, postPrompt);
    assert [Pimento.Fill(prePrompt, None)] + Pimento.ItemLines(items, false) + [Pimento.Fill(postPrompt, None)]
        == middle + [postPrompt];
  }

  /** The `print` statements of the loop body: one write per line. */
  method ShowMenu(prePrompt: string, items: seq<string>, postPrompt: string, stream: Stream)
    modifies stream
    ensures stream.writes == old(stream.writes) + PromptWrites(prePrompt, items, postPrompt)
  {
    ghost var lines := [prePrompt] + Pimento.ItemLines(items, false);
    stream.Write(WithNewline(prePrompt));
    for k := 0 to |items|
      invariant stream.writes == old(stream.writes) + Terminated(lines)[..k + 1]
    {
      assert lines[k + 1] == Pimento.Indent + items[k];
      stream.Write(WithNewline(Pimento.Indent + items[k]));
      assert Terminated(lines)[..k + 2] == Terminated(lines)[..k + 1] + [WithNewline(lines[k + 1])];
    }
    assert Terminated(lines)[..|items| + 1] == Terminated(lines);
    stream.Write(postPrompt);
  }

  // =====================================================================
  // Checking a response

  /** The first revision's rule for one response: the empty response is
      always refused, even though every item starts with it; otherwise a
      response that starts exactly one item selects it, and no match or
      several matches are refused with a diagnostic. */
  function Respond(response: string, items: seq<string>): (r: Pimento.Response)
    ensures r.selection.Selected? ==> r.selection.item in items && StartsWith(r.selection.item, response)
    ensures r.selection.Selected? <==> r.diagnostics == []
    ensures response == "" ==> r.selection.Rejected?
  {
    var matches := Pimento.Matches(items, response);
    if response == "" then
      Pimento.Response(Pimento.Rejected, [WithNewline(Pimento.EmptyResponseNotice)])
    else if |matches| == 0 then
      Pimento.Response(Pimento.Rejected, [WithNewline(Pimento.NoMatchNotice(response))])
    else if |matches| == 1 then
      assert matches[0] in matches;
      Pimento.Response(Pimento.Selected(matches[0]), [])
    else
      Pimento.Response(Pimento.Rejected, Pimento.AmbiguityReport(response, matches))
  }

  /** The first revision's rule is the later rule with no default and no
      indices: same selection, same diagnostics. */
  lemma RespondAgreesWithLater(response: string, items: seq<string>)
    ensures Respond(response, items) == Pimento.Resolve(response, items, None, false)
  {
  }

  /** A response that starts exactly one item selects it, and nothing else
      selects anything. */
  lemma RespondSelectsUniqueMatch(response: string, items: seq<string>)
    ensures Respond(response, items).selection.Selected? <==>
      response != "" && |Pimento.Matches(items, response)| == 1
    ensures Respond(response, items).selection.Selected? ==>
      Respond(response, items).selection.item == Pimento.Matches(items, response)[0]
  {
  }

  /** The empty response is a prefix of every item, yet it is refused, so
      even a one-item menu needs a non-empty response. */
  lemma EmptyAlwaysRejected(items: seq<string>)
    ensures Pimento.Matches(items, "") == items
    ensures Respond("", items) == Pimento.Response(Pimento.Rejected, [WithNewline(Pimento.EmptyResponseNotice)])
  {
    Pimento.MatchesAll(items, "");
  }

  /** The `# Check for matches` part of the loop body, against a stream. */
  method CheckResponse(response: string, items: seq<string>, stream: Stream)
    returns (selection: Pimento.Selection)
    modifies stream
    ensures selection == Respond(response, items).selection
    ensures stream.writes == old(stream.writes) + Respond(response, items).diagnostics
  {
    selection := Pimento.Rejected;
    var matches := Pimento.Matches(items, response);
    var numMatches := |matches|;
    if response == "" {
      stream.Write(WithNewline(Pimento.EmptyResponseNotice));
    } else if numMatches == 0 {
      stream.Write(WithNewline(Pimento.NoMatchNotice(response)));
    } else if numMatches == 1 {
      selection := Pimento.Selected(matches[0]);
    } else {
      stream.Write(WithNewline(Pimento.AmbiguityHeader(response)));
      for k := 0 to |matches|
        invariant stream.writes == old(stream.writes) + [WithNewline(Pimento.AmbiguityHeader(response))]
                                   + Pimento.MatchLines(matches)[..k]
      {
        stream.Write(WithNewline(Pimento.MatchLine(matches[k])));
        assert Pimento.MatchLines(matches)[..k + 1]
            == Pimento.MatchLines(matches)[..k] + [WithNewline(Pimento.MatchLine(matches[k]))];
      }
      stream.Write(WithNewline(Pimento.AmbiguityTrailer));
      assert Pimento.MatchLines(matches)[..|matches|] == Pimento.MatchLines(matches);
    }
  }

  // =====================================================================
  // The prompt loop

  /** The loop over a list of typed lines: show the menu, read a line,
      check it; stop at the first line that selects. */
  function Session(prePrompt: string, items: seq<string>, postPrompt: string,
                   responses: seq<string>): (s: Pimento.SessionEnd)
    decreases |responses|
  {
    var shown := PromptWrites(prePrompt, items, postPrompt);
    if responses == [] then Pimento.SessionEnd(None, 0, shown)
    else
      var step := Respond(responses[0], items);
      if step.selection.Selected? then
        Pimento.SessionEnd(Some(step.selection.item), 1, shown + step.diagnostics)
      else
        var rest := Session(prePrompt, items, postPrompt, responses[1..]);
        Pimento.SessionEnd(rest.choice, rest.used + 1, shown + step.diagnostics + rest.writes)
  }

  /** What the loop prints for the lines it reads: for each line in order,
      the menu and then that line's diagnostics. */
  function Rounds(prePrompt: string, items: seq<string>, postPrompt: string,
                  responses: seq<string>): (w: seq<string>)
    decreases |responses|
  {
    if responses == [] then []
    else PromptWrites(prePrompt, items, postPrompt) + Respond(responses[0], items).diagnostics
         + Rounds(prePrompt, items, postPrompt, responses[1..])
  }

  /** The whole output of the loop: one round for each line read, and the
      menu once more when input ends before any line selects. */
  lemma {:induction false} SessionWrites(prePrompt: string, items: seq<string>, postPrompt: string,
                                         responses: seq<string>)
    ensures var s := Session(prePrompt, items, postPrompt, responses);
      && s.used <= |responses|
      && s.writes == Rounds(prePrompt, items, postPrompt, responses[..s.used])
                     + (if s.choice.None? then PromptWrites(prePrompt, items, postPrompt) else [])
    decreases |responses|
  {
    if responses != [] {
      var shown := PromptWrites(prePrompt, items, postPrompt);
      var step := Respond(responses[0], items);
      SessionStep(prePrompt, items, postPrompt, responses);
      if step.selection.Selected? {
        assert responses[..1] == [responses[0]];
        assert [responses[0]][1..] == [];
      } else {
        var rest := responses[1..];
        SessionWrites(prePrompt, items, postPrompt, rest);
        var r := Session(prePrompt, items, postPrompt, rest);
        Pimento.PrefixOfTail(responses, r.used + 1);
        var tail := if r.choice.None? then shown else [];
        Pimento.AppendAssoc(shown + step.diagnostics, Rounds(prePrompt, items, postPrompt, rest[..r.used]), tail);
      }
    }
  }

  /** The first revision's loop and the later one, given the same typed
      lines, choose the same item after reading the same number of lines,
      and write the same text (cut into more pieces by the first). */
  lemma {:induction false} SessionAgreesWithLater(prePrompt: string, items: seq<string>,
                                                  postPrompt: string, responses: seq<string>)
    ensures var first := Session(prePrompt, items, postPrompt, responses);
      var later := Pimento.Session(Pimento.MenuText(prePrompt, items, postPrompt, None, false),
                                   items, None, false, responses);
      && first.choice == later.choice
      && first.used == later.used
      && Flatten(first.writes) == Flatten(later.writes)
    decreases |responses|
  {
    var shown := PromptWrites(prePrompt, items, postPrompt);
    var text := Pimento.MenuText(prePrompt, items, postPrompt, None, false);
    PromptWritesText(prePrompt, items, postPrompt);
    assert Flatten([text]) == text + Flatten([]);
    if responses != [] {
      var step := Respond(responses[0], items);
      RespondAgreesWithLater(responses[0], items);
      FlattenAppend(shown, step.diagnostics);
      FlattenAppend([text], step.diagnostics);
      if step.selection.Rejected? {
        SessionAgreesWithLater(prePrompt, items, postPrompt, responses[1..]);
        var rest := Session(prePrompt, items, postPrompt, responses[1..]);
        var laterRest := Pimento.Session(text, items, None, false, responses[1..]);
        FlattenAppend(shown + step.diagnostics, rest.writes);
        FlattenAppend([text] + step.diagnostics, laterRest.writes);
      }
    }
  }

  /** The loop only ever chooses one of the items. */
  lemma SessionChoiceIsItem(prePrompt: string, items: seq<string>, postPrompt: string,
                            responses: seq<string>)
    ensures var s := Session(prePrompt, items, postPrompt, responses);
      s.choice.Some? ==> s.choice.value in items
  {
    SessionAgreesWithLater(prePrompt, items, postPrompt, responses);
    Pimento.SessionChoiceIsItem(Pimento.MenuText(prePrompt, items, postPrompt, None, false),
                                items, None, false, responses);
  }

  /** One round of the loop. */
  lemma SessionStep(prePrompt: string, items: seq<string>, postPrompt: string, responses: seq<string>)
    requires responses != []
    ensures var step := Respond(responses[0], items);
      var shown := PromptWrites(prePrompt, items, postPrompt);
      var s := Session(prePrompt, items, postPrompt, responses);
      var rest := Session(prePrompt, items, postPrompt, responses[1..]);
      if step.selection.Selected? then
        s == Pimento.SessionEnd(Some(step.selection.item), 1, shown + step.diagnostics)
      else
        s == Pimento.SessionEnd(rest.choice, rest.used + 1, shown + step.diagnostics + rest.writes)
  {
  }

  /** `menu`: prompt until a response selects an item; `None` when standard
      input runs out first. */
  method Menu(prePrompt: string, items: seq<string>, postPrompt: string, stream: Stream, stdin: Stdin)
    returns (selection: Option<string>)
    modifies stream, stdin
    ensures var s := Session(prePrompt, items, postPrompt, old(stdin.pending));
      && selection == s.choice
      && stream.writes == old(stream.writes) + s.writes
      && s.used <= |old(stdin.pending)|
      && stdin.pending == old(stdin.pending)[s.used..]
    ensures selection.Some? ==> selection.value in items
  {
    ghost var all := stdin.pending;
    ghost var s := Session(prePrompt, items, postPrompt, all);
    ghost var w0 := stream.writes;
    ghost var shown := PromptWrites(prePrompt, items, postPrompt);
    ghost var i := 0;
    SessionChoiceIsItem(prePrompt, items, postPrompt, all);

    var acceptableResponseGiven := false;
    var chosen := Pimento.Rejected;
    while !acceptableResponseGiven
      invariant 0 <= i <= |all| && stdin.pending == all[i..]
      invariant !acceptableResponseGiven ==>
        && Session(prePrompt, items, postPrompt, all[i..]).choice == s.choice
        && i + Session(prePrompt, items, postPrompt, all[i..]).used == s.used
        && stream.writes + Session(prePrompt, items, postPrompt, all[i..]).writes == w0 + s.writes
      invariant acceptableResponseGiven ==>
        && chosen.Selected? && s.choice == Some(chosen.item) && s.used == i
        && stream.writes == w0 + s.writes
      decreases |stdin.pending|
    {
      chosen := Pimento.Rejected;
      ghost var before := stream.writes;
      ShowMenu(prePrompt, items, postPrompt, stream);
      var response := stdin.ReadLine();
      if response.None? {
        return None;
      }
      assert response.value == all[i];
      chosen := CheckResponse(response.value, items, stream);
      SessionStep(prePrompt, items, postPrompt, all[i..]);
      assert all[i..][0] == all[i] && all[i..][1..] == all[i + 1..];
      ghost var step := Respond(all[i], items);
      if chosen.Selected? {
        acceptableResponseGiven := true;
        Pimento.Regroup(before, shown, step.diagnostics, [], w0 + s.writes);
      } else {
        Pimento.Regroup(before, shown, step.diagnostics,
                        Session(prePrompt, items, postPrompt, all[i + 1..]).writes, w0 + s.writes);
      }
      i := i + 1;
    }
    return Some(chosen.item);
  }
}
