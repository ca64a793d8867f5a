# NBA betting strategies: text and table normalisation

The program collects basketball statistics for a player and the next
opponent. It scrapes TeamRankings and StatMuse pages, passes the results
through a language model and prints a "bid up / bid down" verdict. Almost all
of it is network, browser and language-model I/O. This project models the
deterministic steps the program does itself, all in
`pp_betting_strategies.py`:

- building the TeamRankings URL from a team name: lower case, spaces to
  dashes, fixed prefix;
- removing newlines from the team names the language model returns;
- splitting the model's comma-separated answer with the last game points
  into trimmed tokens, and the bound that makes the average's divisor
  non-zero;
- turning the rendered StatMuse table into `data`: the header names, then
  one list of trimmed cell texts per `tr`.

Modules:

- `Wrappers` (`wrappers.dfy`): `Option`.
- `PyStr` (`pystr.dfy`): the Python `str` methods these steps use, as
  functions. These are `lower()`, one-character `replace`, `strip()` and
  `split(",")`. `Join` (`",".join`) is not a step of the scraper. It is
  there to state that `Split` loses nothing (`JoinSplit`, `SplitJoin`).
- `Normalise` (`normalise.dfy`): the URL, team-name and points-list steps.
- `StatTable` (`stattable.dfy`): the parsed table as a value, and the
  row-assembly loop of `search_statmuse` as a method with loop invariants.

The parsed HTML is an abstract input. A `ParsedTable` holds the cells found
under `thead` (`None` when there is none) and every `tr` in document order.
Each cell is a `th` or a `td` with its untrimmed text.

Three behaviours of the code that the model keeps:

- The code does not check the number of point tokens.
- A split always yields at least one token, so the division on lines
  209-210 cannot fail because of an empty list. Only `float()` can fail
  there.
- A table without any `tr` yields `[column_names]`, not an empty list.

## Model

| member | source | states |
|---|---|---|
| `PyStr.Lower` | pp_betting_strategies.py:29 | same length, and every character is replaced by its lower-case form (ASCII letters) |
| `PyStr.LowerCharSpec` | pp_betting_strategies.py:29 | the lowered character is never an upper-case letter; `A`-`Z` move to `a`-`z`; every other character is unchanged |
| `PyStr.ReplaceChar` | pp_betting_strategies.py:30 | same length; each occurrence of the old character becomes the new one and every other position is unchanged |
| `Normalise.TeamSlug` | pp_betting_strategies.py:29-30 | the slug has the name's length and no space; capitals become lower case, spaces become dashes, and every other character stays in place |
| `Normalise.TeamSlugIdempotent` | pp_betting_strategies.py:29-30 | taking the slug of a slug changes nothing |
| `Normalise.TeamSlugIgnoresCase` | pp_betting_strategies.py:29 | names that differ only in letter case give the same slug |
| `Normalise.TeamSlugIgnoresSpaceDash` | pp_betting_strategies.py:30 | names that differ only in spaces against dashes give the same slug |
| `Normalise.TeamRankingsUrl` | pp_betting_strategies.py:31 | the URL is exactly `https://www.teamrankings.com/nba/team/` followed by the slug |
| `Normalise.TeamRankingsUrlInjective` | pp_betting_strategies.py:31 | two names give the same URL if and only if they give the same slug |
| `PyStr.Delete` | pp_betting_strategies.py:99 | the result has no occurrence of the character, and its length is the input length minus the number of occurrences |
| `PyStr.DeleteAppend` | pp_betting_strategies.py:99 | deletion distributes over concatenation, so kept characters stay in order |
| `PyStr.DeleteAbsent` | pp_betting_strategies.py:99 | a string without the character is returned unchanged |
| `PyStr.DeleteMultiset` | pp_betting_strategies.py:99 | exactly the occurrences of the character are removed; every other character keeps its multiplicity |
| `PyStr.DeleteIdempotent` | pp_betting_strategies.py:99 | deleting twice is the same as deleting once |
| `Normalise.TeamNameFromAnswer` | pp_betting_strategies.py:98-99 | the cleaned answer has no `'\n'`, its length drops by the newline count, and every other character is kept with its multiplicity |
| `Normalise.TeamNameFromAnswerProperties` | pp_betting_strategies.py:111-112 | cleaning distributes over concatenation, leaves a newline-free answer unchanged and is idempotent |
| `PyStr.SkipSpaces` | pp_betting_strategies.py:206 | the forward scan of `strip` passes whitespace only, and stops at the end or at a non-whitespace character |
| `PyStr.BackSpaces` | pp_betting_strategies.py:206 | the backward scan of `strip` passes whitespace only, and stops at its lower bound or after a non-whitespace character |
| `PyStr.Strip` | pp_betting_strategies.py:206 | the result is trimmed and no longer than the input |
| `PyStr.StripSlice` | pp_betting_strategies.py:206 | the result is the slice of the input that starts after the leading whitespace, with only whitespace after it |
| `PyStr.StripKeepsOut` | pp_betting_strategies.py:206 | a character absent from the input is absent from the stripped result |
| `PyStr.StripFramed` | pp_betting_strategies.py:206 | converse of `Strip`: stripping trimmed text framed by whitespace gives back exactly that text |
| `PyStr.StripTrimmed` | pp_betting_strategies.py:207 | strip leaves a string unchanged if and only if it has no leading or trailing whitespace |
| `PyStr.StripIdempotent` | pp_betting_strategies.py:207 | stripping twice is the same as stripping once |
| `PyStr.Split` | pp_betting_strategies.py:206 | the split yields the separator count plus one pieces (never zero), and no piece holds the separator |
| `PyStr.JoinSplit` | pp_betting_strategies.py:206 | joining the pieces with the separator reproduces the input |
| `PyStr.SplitJoin` | pp_betting_strategies.py:206 | splitting a join of a non-empty list of separator-free pieces gives back the list |
| `Normalise.PointTokens` | pp_betting_strategies.py:206-207 | the number of tokens is the comma count of the stripped answer plus one; every token is trimmed and holds no comma |
| `Normalise.PointTokensPieces` | pp_betting_strategies.py:206-207 | token k is the stripped k-th piece of the stripped answer; the untrimmed pieces joined by commas are the stripped answer; stripping a token again changes nothing |
| `Normalise.PointTokensTypical` | pp_betting_strategies.py:206-207 | `" 10, 20 ,5\n"` gives the tokens `10`, `20` and `5` |
| `Normalise.PointTokensEmpty` | pp_betting_strategies.py:206-207 | an empty answer gives one empty token |
| `Normalise.PointTokensEmptyField` | pp_betting_strategies.py:206-207 | `"7,,9"` gives `7`, an empty token and `9`, in that order |
| `Normalise.ParseAll` | pp_betting_strategies.py:206 | the comprehension succeeds if and only if every token parses; value k is then the parse of token k |
| `Normalise.ParsePoints` | pp_betting_strategies.py:206-210 | parsing fails only when a token fails to parse; on success the number of values, the divisor of the average, is the comma count plus one, so at least 1 |
| `StatTable.CellTexts` | pp_betting_strategies.py:78 | one trimmed text per cell of the requested tag |
| `StatTable.CellTextsAppend` | pp_betting_strategies.py:76-78 | texts are collected cell by cell in document order, so the texts of a concatenation are the concatenated texts |
| `StatTable.CellTextsSingle` | pp_betting_strategies.py:76-78 | a matching cell contributes its stripped text, any other cell contributes nothing |
| `StatTable.CellTextsNone` | pp_betting_strategies.py:76-78 | a row with no cell of the tag (a `th`-only header row looked at for `td`) gives the empty list |
| `StatTable.CellTextsAll` | pp_betting_strategies.py:76-78 | when all cells carry the tag, entry k is the stripped text of cell k |
| `StatTable.HeaderNames` | pp_betting_strategies.py:67-70 | empty when there is no `thead`; otherwise one trimmed text per `th` under `thead` |
| `StatTable.RowTexts` | pp_betting_strategies.py:76-78 | one trimmed text per `td` of the row |
| `StatTable.AssembleRows` | pp_betting_strategies.py:72-79 | `data` has one entry more than there are `tr`s; entry 0 is the header names; entry i+1 is the td texts of row i; every text is trimmed |

## Left out

- Network and browser I/O is not modelled: `requests.get`, the headless
  Chrome session, the 120-second `WebDriverWait` and `driver.quit()` (lines
  32, 51-63, 82, 93, 108).
- The calls to the language model and all prompt text are not modelled.
  They are foreign calls with nondeterministic output. The model takes
  their answers as string inputs.
- BeautifulSoup and lxml parsing, the XPath lookup and the `h1` lookup are
  not modelled, because their behaviour lives in those libraries. The
  parsed table is an input. Nested tables are not represented.
- Writing the debug HTML file (lines 38-39) is filesystem I/O and is not
  modelled.
- `float()`, `sum`, `/` and `round` (lines 206-210) are floating-point
  numerics. `float()` is a parameter `parse`, with `None` standing for its
  `ValueError`. The mean itself is not modelled.
- `str(data)` (line 84) is Python's repr format and is not modelled.
- The StatMuse query URLs (lines 50, 91-92, 106-107) are not modelled. They
  are plain f-string concatenations with no normalisation.
- The module-level script and the Streamlit UI in comments (lines 305-328)
  are not modelled.
- `PyStr.Lower`: lowers only ASCII `A`-`Z`. Python also lowers non-ASCII
  letters, and for a few of them the length changes. The model
  assumes ASCII input.
- `PyStr.Strip`: counts only ASCII whitespace: 9-13, 28-31 and 32, as
  Python's `isspace` does there. Non-ASCII whitespace such as U+00A0 is
  kept.
