# pimento in Dafny

pimento makes simple command-line menus. `menu(pre_prompt, items, ...)`
writes a pre-prompt, one indented line per item and a post-prompt, reads a
line from standard input and checks it against the items. An in-range index
selects by position, but only in indexed mode. An empty line selects the
default item, if there is one. Otherwise a line that starts exactly one item
selects that item. Every other line is refused with a `[!]` diagnostic, and
the menu is shown again until some line selects.

The project models two revisions of that menu:

- `pimento.dfy` (module `Pimento`) is the current `menu` of `pimento/__init__.py`.
  - The argument checks: `_check_items` and `_check_default_index`.
  - The choice of post-prompt and the default lookup.
  - The menu text `_prompt` builds.
  - The way one response is resolved (`_check_response`).
  - The prompt loop.
- `pimento_first.dfy` (module `PimentoFirst`) is the first revision, `pimento.py`.
  - It prints the menu line by line.
  - It has no checks, no default and no indices.
  - It refuses the empty response even though every item starts with it.
  - It is proved to agree with the current `menu` run with no default and no indices.
- `text.dfy` (module `Text`) holds the Python string operations the menu relies on, on `seq<char>`:
  - `startswith` and `'{}' in s`;
  - one-argument `format` and `'\n'.join`;
  - `isdigit`, `int` and `str` on naturals;
  - a reference `split('\n')`, used to state what the joined menu text holds line by line.
- `console.dfy` (module `Console`) holds the two I/O collaborators:
  - `Stream` records each `write` call as one entry of `writes`;
  - `Stdin` is the finite list of lines the user will type.
- `wrappers.dfy` holds `Option` and `Result`.

The prompt loops are imperative methods over `Stream` and `Stdin`. Each is
proved against a specification function, `Pimento.Session` or
`PimentoFirst.Session`. That function says, for a given list of typed lines:

- which item the loop returns;
- how many lines it reads;
- exactly what it writes.

The lemmas about `Session` state what the loop promises. The loop chooses
what the first selecting line selects. Every earlier line was refused. The
choice is always one of the items. What it writes is one round per line read,
the menu and then that line's diagnostics, plus the menu once more when input
ends before any line selects.

A read from an empty input list gives `None`. This stands for the `EOFError`
that `raw_input` raises. The current `menu` then returns
`Failure(InputEnded)`, and the first revision returns `None`.

## Model

| member | source | states |
|---|---|---|
| Pimento.CheckItems | pimento/__init__.py:106-120 | an error exactly when the item list is empty; it is the empty-list error, raised as `ValueError` |
| Pimento.CheckDefaultIndex | pimento/__init__.py:123-131 | passes exactly for no index or an in-range integer; otherwise the type error comes first, then too large, then negative; the error is a `TypeError` exactly when the index is not an integer, else a `ValueError` |
| Pimento.CheckArguments | pimento/__init__.py:221-223 | passes exactly for a non-empty list with no index or an in-range one; the item check comes before the index check |
| Pimento.DefaultFor | pimento/__init__.py:236-238 | there is a default exactly when an index is given, and it is `items[default_index]` |
| Pimento.StockPostPromptShowsDefault | pimento/__init__.py:227-232 | with no post-prompt and a default index, the post-prompt shown is `Enter an option to continue [<default item>]: ` |
| Pimento.StockPostPromptWithoutDefault | pimento/__init__.py:227-230 | with no post-prompt and no default index, the post-prompt shown is `Enter an option to continue: `, whatever the default |
| Pimento.PostPromptFor | pimento/__init__.py:226-232 | a given post-prompt is used as it is; when none is given, the stock one, which begins with `Enter an option to continue` |
| Pimento.Fill | pimento/__init__.py:27-32 | a prompt is shown unchanged when there is no default or when it holds no `{}`; otherwise its first `{}` becomes the default |
| Pimento.ItemLine | pimento/__init__.py:33-47 | every item line begins with the two-space indent and ends with the item itself |
| Pimento.ItemLines | pimento/__init__.py:37-48 | one line per item, the line for position `k` rendered from `items[k]` and `k` |
| Pimento.MenuText | pimento/__init__.py:27-51 | the filled pre-prompt, the item lines and the filled post-prompt joined by `\n`; what it holds line by line is `MenuLines` |
| Pimento.MenuLines | pimento/__init__.py:27-51 | the menu text, read line by line, is the filled pre-prompt, one line per item in order, and the filled post-prompt, with no trailing line break |
| Pimento.RenderItems | pimento/__init__.py:33-48 | the item loop builds, for each position in order, `"  " + item`, or `"  [" + index + "] " + item` when indexed |
| Pimento.Prompt | pimento/__init__.py:21-56 | writes the whole menu text in one `write`, then takes the next input line, or none when input has ended |
| Pimento.Matches | pimento/__init__.py:72 | a string is a match exactly when it is an item that starts with the response; there are no more matches than items |
| Pimento.MatchesAppend | pimento/__init__.py:72 | the filter keeps the item order: the matches of `a + b` are those of `a` followed by those of `b` |
| Pimento.MatchesNone | pimento/__init__.py:72 | when no item starts with the response there is no match |
| Pimento.MatchesAll | pimento/__init__.py:72 | when every item starts with the response, every item matches, in order |
| Pimento.MatchesSingle | pimento/__init__.py:72-73 | when exactly one position's item starts with the response, that item is the only match |
| Pimento.MatchesTwo | pimento/__init__.py:72-73 | two positions whose items start with the response give at least two matches |
| Pimento.SelectsByIndex | pimento/__init__.py:64-67 | a response selects by position exactly in indexed mode, when it is all digits and its value is below the item count |
| Pimento.Resolve | pimento/__init__.py:59-95 | a selection is an item or the default and writes nothing; a rejection always writes a diagnostic |
| Pimento.IndexedResponseSelects | pimento/__init__.py:64-68 | in indexed mode an in-range all-digit response selects the item at that position and writes nothing, whatever the default |
| Pimento.ShownIndexSelects | pimento/__init__.py:45-68 | typing the index an indexed line shows selects that line's item |
| Pimento.OutOfRangeIndexFallsThrough | pimento/__init__.py:64-72 | an out-of-range all-digit response is resolved exactly as in a menu without indices |
| Pimento.EmptyResponse | pimento/__init__.py:74-78 | the empty response selects the default and writes nothing; with no default it selects nothing and writes the empty-response notice |
| Pimento.NoMatchRejected | pimento/__init__.py:79-83 | a non-empty response that no item starts with selects nothing and writes the no-match notice |
| Pimento.UniqueMatchSelects | pimento/__init__.py:84-86 | a non-empty response that exactly one item starts with selects it and writes nothing |
| Pimento.SeveralMatchesRejected | pimento/__init__.py:87-94 | a non-empty response that two items start with selects nothing and writes the header, one line per match in item order, and the trailer |
| Pimento.ColourMatches | test_pimento.py:112-117 | in the colour menu, `b` matches `blue` and `black`, in that order |
| Pimento.ColourAmbiguity | test_pimento.py:112-118 | in the colour menu, `b` is refused with a report listing `blue`, then `black` |
| Pimento.ColourUniqueMatch | test_pimento.py:129-131 | in the colour menu, `bla` selects `black` |
| Pimento.FullNameStillAmbiguous | pimento/__init__.py:72-94 | `foo` typed in full is refused as ambiguous when `foo bar` is also an item |
| Pimento.NumberScenario | test_pimento.py:157-176 | in the indexed menu `100`, `200`, `300`, the response `1` selects `200` by position and `3` selects `300` by prefix |
| Pimento.CheckResponse | pimento/__init__.py:59-95 | the method selects what `Resolve` selects and writes exactly its diagnostics, in order |
| Pimento.AllRejectedEach | pimento/__init__.py:243-251 | the loop's "every line was refused" holds exactly when each line, one by one, resolves to no selection |
| Pimento.Session | pimento/__init__.py:240-252 | the loop over a list of typed lines: each round writes the menu and reads a line; the first line that selects ends it; the choice, the lines read and everything written |
| Pimento.Rounds | pimento/__init__.py:243-251 | for each line read, in order, the menu text followed by that line's diagnostics |
| Pimento.SessionWrites | pimento/__init__.py:243-252 | everything the loop writes is one round per line read, plus the menu once more when input ends before any line selects |
| Pimento.SessionUsed | pimento/__init__.py:243-252 | the loop never reads more lines than there are; when it chooses nothing it has read them all |
| Pimento.SessionChosen | pimento/__init__.py:243-252 | when the loop chooses, its choice is what the last line read selects, and every earlier line was refused |
| Pimento.SessionExhausted | pimento/__init__.py:243-252 | when the loop chooses nothing, every line was refused |
| Pimento.SessionOutcome | pimento/__init__.py:240-252 | the three facts above together: the choice is the first selecting line's selection, after reading exactly up to it |
| Pimento.SessionChoiceIsItem | pimento/__init__.py:236-252 | with the default taken from the items, the loop only ever chooses an item |
| Pimento.PromptLoop | pimento/__init__.py:240-252 | the loop returns the session's choice, writes exactly the session's writes, and consumes exactly the lines the session reads |
| Pimento.Menu | pimento/__init__.py:191-252 | bad arguments fail with their error and touch no I/O; otherwise the result, writes and lines read are the session's for the chosen post-prompt and default; a success is an item |
| PimentoFirst.PromptWritesText | pimento.py:21-27 | the lines printed in one round, put together, are exactly the text the current `menu` writes with no default and no indices |
| PimentoFirst.PromptWrites | pimento.py:21-27 | what one round prints: the pre-prompt line first, then for each item in order its indented line, then the post-prompt without a line break |
| PimentoFirst.ShowMenu | pimento.py:21-28 | prints the pre-prompt line, one indented line per item in order, and the post-prompt without a line break |
| PimentoFirst.Respond | pimento.py:31-49 | a selection is an item that starts with the response and writes nothing; a rejection writes something; the empty response is always refused |
| PimentoFirst.RespondAgreesWithLater | pimento.py:31-49 | the first revision's rule is the current rule with no default and no indices, diagnostics included |
| PimentoFirst.RespondSelectsUniqueMatch | pimento.py:34-42 | a response selects exactly when it is non-empty and starts exactly one item, and then it selects that item |
| PimentoFirst.EmptyAlwaysRejected | pimento.py:32-35 | every item starts with the empty response, yet it is refused with the empty-response notice |
| PimentoFirst.CheckResponse | pimento.py:31-49 | the method selects what `Respond` selects and prints exactly its diagnostics, in order |
| PimentoFirst.Session | pimento.py:19-49 | the loop over a list of typed lines: each round prints the menu and reads a line; the first line that selects ends it; the choice, the lines read and everything printed |
| PimentoFirst.Rounds | pimento.py:19-49 | for each line read, in order, the printed menu followed by that line's diagnostics |
| PimentoFirst.SessionWrites | pimento.py:19-49 | everything the loop prints is one round per line read, plus the menu once more when input ends before any line selects |
| PimentoFirst.SessionAgreesWithLater | pimento.py:12-50 | given the same typed lines, both revisions choose the same item after reading the same number of lines, and write the same text |
| PimentoFirst.SessionChoiceIsItem | pimento.py:40-50 | the loop only ever chooses an item |
| PimentoFirst.Menu | pimento.py:12-50 | the loop returns the session's choice, prints exactly the session's writes, consumes exactly the lines the session reads, and a choice is an item |
| Text.DiffersAt | pimento/__init__.py:72 | a string that differs from the prefix at a shared position does not start with it |
| Text.StartsWith | pimento/__init__.py:72 | `s.startswith(prefix)`: the prefix is no longer than `s` and equals its first characters |
| Text.Substitute | pimento/__init__.py:28-32 | a string with no `{}` is unchanged by substitution |
| Text.HasPlaceholder | pimento/__init__.py:29-31 | `'{}' in s`: some position holds `{` followed by `}` |
| Text.NoBraceNoPlaceholder | pimento/__init__.py:29-31 | a string without `{` holds no `{}` |
| Text.SubstituteAt | pimento/__init__.py:30-32 | in `a + "{}" + b` with no `{}` in `a`, substitution puts the default exactly where the braces were |
| Text.SubstituteFirst | pimento/__init__.py:30-32 | a string holding `{}` splits at its first `{}`, and substitution replaces that one |
| Text.SubstituteNoNewline | pimento/__init__.py:28-32 | substitution introduces no line break that neither string had |
| Text.Join | pimento/__init__.py:50-51 | `'\n'.join(parts)`: the parts with one `\n` between neighbours; `SplitJoin` and `JoinSplit` pin it down |
| Text.SplitJoin | pimento/__init__.py:50-51 | joining line-break-free parts with `\n` and splitting again gives the parts back |
| Text.JoinSplit | pimento/__init__.py:51 | splitting at `\n` and joining again gives the text back |
| Text.JoinTail | pimento/__init__.py:50-51 | joining with `\n` is the same as ending each part but the last with a line break |
| Text.IsDigits | pimento/__init__.py:65 | `s.isdigit()`: non-empty and every character an ASCII digit |
| Text.DecimalValue | pimento/__init__.py:66 | `int(s)` on a digit string: its value in base ten |
| Text.NatToString | pimento/__init__.py:36-46 | an index is rendered as `str(index)`: decimal digits, `0` for zero, and no leading zero otherwise |
| Text.DecimalValueOfNatToString | pimento/__init__.py:65-66 | reading a rendered index back gives the index |
| Text.DecimalValueLeadingZero | pimento/__init__.py:65-66 | `int` ignores a leading zero, so `01` reads as 1 |
| Console.Stream.Write | pimento/__init__.py:52 | a write appends its string to the stream and changes nothing else |
| Console.Stdin.ReadLine | pimento/__init__.py:55 | takes the next typed line, or gives none when no line is left |

## Left out

- Real I/O is not modelled. `stream.flush()`, terminal echo and the unbounded wait for input are out. Input is a finite list of typed lines, and the end of that list stands for `EOFError`.
- `print s` in the first revision is modelled as one write of `s + "\n"`. Python 2 writes the string and the line break separately, but the text is the same.
- `_check_prompts` and `_check_stream` are not modelled. Prompts and the stream are taken to be a string and a file. These are dynamic type checks that have no counterpart in a typed model.
- `_check_items`' `TypeError` for an object with no `len()` is not modelled. The items are a sequence, so they always have a length.
- `str(i)` applied to each item is not modelled. The items are already strings.
- `Pimento.IndexArg` gives three cases for `default_index`: `None`, an `int`, or anything else, which goes to the `TypeError`. Python's `bool` counts as an `int` and is taken to be given as its integer value.
- `str.format` is modelled for one `{}` only: the first `{}` is replaced by the default. Other braces, escaped braces and several fields are not modelled. A prompt holding them would make Python raise or print differently.
- Python 2 `str` is a byte string, while the model uses `seq<char>`. Prefix tests agree on the characters of well-formed text but can differ on malformed bytes.
- A `long` default index such as `1L` is not an `int`, so Python raises `TypeError`; the model maps it to `OtherIndex`.
- `isdigit` is modelled as ASCII digits only. The locale is not modelled.
- `_cli` and its argparse options, `setup.py`, `test-getch.py` and `test-termio.py` are not part of this model. They are the command-line front end, packaging, and terminal experiments.
- Behaviour that `test_pimento.py` expects only of a later revision is not modelled: fuzzy and substring search, case-insensitive matching and deduplication, whitespace stripping, empty-item dropping, tab completion, exact-match tie-breaking, the items-first call form and Ctrl-C handling. The code modelled here has none of these; `Pimento.FullNameStillAmbiguous` shows that an exact match is not preferred.
