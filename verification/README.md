# Movie chat slot filling, modelled in Dafny

The system is a small chat backend that recommends movies. Each request carries the
conversation so far and a conversation id. The handler takes the last user message and
strips it. It rejects text that is not English, keeps a per-conversation session of
three slots (genre, length label, audience flag), and asks a language model for the
intent of the message. A greeting or an unrelated message gets a fixed reply. Any other
message goes through slot filling: an exact button reply sets one slot, and every slot
still unset is filled when the model's classification matches. The reply then asks for the first
missing slot. Once all three slots are set, the handler filters the catalog, takes the
modal cluster of the matching rows, and samples up to 40 movies from that whole cluster.

The model is a set of pure functions. Every answer of the language model is a parameter
(`Dialogue.Answers`): the intent, the three `classify` answers and the raw mood-genre
suggestion. A turn is therefore deterministic, and so is the recommendation step up to the
random sample.

Modules, following the handler's structure:

- `base.dfy` (`Base`): `Option`.
- `text.dfy` (`Text`): the Python string operations used: `isspace`, `strip` with and
  without a character set, `lower`, `title`, `split`, `replace(c, "")` and substring `in`.
- `string_order.dfy` (`StringOrder`): Python's string order and `sorted(set(...))`.
- `options.dfy` (`Options`): `LENGTH_OPTIONS`, `ADULT_OPTIONS`, the mapping of
  classifier answers to slots, and the parse that builds `GENRE_OPTIONS`.
- `catalog.dfy` (`Catalog`): the row filter, the modal cluster, the cluster pool and the
  sample size.
- `dialogue.dfy` (`Dialogue`): the session, the English check and one turn.
- `server.dfy` (`Server`): the request reduction, the session map and histories of requests.

Behaviour of the handler worth knowing:

- The length buckets are `[0, 90]`, `[91, 120]` and `[121, 1000]` minutes, bounds
  included. A runtime below 0, strictly between 90 and 91, strictly between 120 and 121,
  or above 1000 is in no bucket.
- Every request answers one message; there is no paging through earlier results. The
  mood fallback is a model suggestion checked against the genre table.
- The recommended pool is the whole modal cluster of the catalog. Its movies need not pass
  the filter (`Catalog.PoolNeedNotPassFilter`), so a "Short" request can return long movies.
- A greeting can fill the genre slot (`Dialogue.GreetingCanSetGenre`) and can overwrite a
  genre already set (`Dialogue.GreetingOverwritesGenre`).
- All three slots, the audience included, must be set before the catalog is filtered.

## Model

| member | source | states |
|---|---|---|
| Text.Strip | app.py:95 | The result is what `str.strip()` leaves: a slice of the input with only whitespace (Python's `isspace` set) cut off at either end, and no whitespace left at either end. |
| Text.Trim | app.py:22 | `strip("[]")` and `strip()` for any character set: the result is the unique trim of the input (see `Text.TrimUnique`). |
| Text.TrimUnique | app.py:22 | Any two results meeting the strip characterisation are equal, so the trim is pinned down by its contract. |
| Text.TrimIdempotent | app.py:22 | Stripping an already stripped string changes nothing. |
| Text.Split | app.py:22 | `split(",")` yields at least one piece, no piece holds a comma, and joining the pieces with commas gives the input back. |
| Text.RemoveAll | app.py:22 | `replace("'", "")` leaves no quote and keeps every other character with its multiplicity. |
| Text.RemoveAllAppend | app.py:22 | Deleting a character distributes over concatenation, so the kept characters stay in their order. |
| Text.RemoveAllSingle | app.py:22 | A one-character string is kept exactly when it is not the deleted character; with `Text.RemoveAllAppend` this determines the result. |
| Text.Lower | app.py:138-140 | `lower()` on ASCII: same length, no capital left, every non-capital kept, and every capital replaced by the small letter whose capital it is. |
| Text.Title | app.py:20 | `title()` on ASCII: the same text up to case, non-letters kept, and a letter is a capital exactly when it starts a word (no letter before it). |
| Text.TitleIdempotent | app.py:20 | Title-casing is idempotent, so table names are fixed points of `title()`. |
| StringOrder.LessTransitive | app.py:20 | Python's string order is transitive. |
| StringOrder.LessTotal | app.py:20 | Any two different strings are ordered one way or the other. |
| StringOrder.Insert | app.py:20 | Inserting into a strictly sorted sequence keeps it strictly sorted, and adds exactly the new name. |
| StringOrder.SortedSet | app.py:20-22 | `sorted({...})` is strictly increasing and holds exactly the distinct input names. |
| StringOrder.SortedUnique | app.py:20 | Two strictly sorted sequences with the same members are equal, so `SortedSet` is the only possible `sorted` result. |
| StringOrder.SortedDistinct | app.py:20 | A strictly sorted table has no duplicates. |
| Options.GenreOptions | app.py:20-22 | `GENRE_OPTIONS` is strictly sorted, holds only non-empty names, and holds exactly the title-cased stripped non-blank pieces of the genre cells. |
| Options.GenreOptionsTitled | app.py:20-22 | Every table name is already title-cased. |
| Options.LengthOption | app.py:24-28 | A message names a length label exactly when it equals that label's key text; otherwise no label is named. |
| Options.LengthOptionRoundTrip | app.py:24-28 | Each label's key text reads back as that label. |
| Options.AudienceOption | app.py:30-33 | "Adults Only" reads as true and "All Audiences" as false; no other text names an audience. |
| Options.AudienceOptionRoundTrip | app.py:30-33 | Each audience key text reads back as its flag. |
| Options.FirstFit | app.py:139-142 | The loop stops at the position of a label the answer fits, with no earlier label fitting. It finds nothing exactly when no label fits. |
| Options.MatchLength | app.py:137-142 | The answer yields label l exactly when the lower-cased label contains the lower-cased answer and no earlier label in Short, Medium, Long order does. It yields nothing exactly when no label does. |
| Options.MatchAudience | app.py:144-149 | True exactly when the lower-cased answer contains "adult"; false exactly when it contains "all" but not "adult". |
| Options.LengthVocabulary | app.py:137-142 | The classifier words Short, Medium and Long each map to the label they name. |
| Options.LengthFallbacks | app.py:137-142 | An empty answer picks Short. "Unknown" leaves the slot unset. |
| Options.AudienceVocabulary | app.py:144-149 | The classifier answers "Adults Only" and "All Audiences" map to the same flag as the buttons; "Unknown" sets nothing. |
| Catalog.Select | app.py:164-168 | Boolean-mask selection keeps exactly the rows satisfying the condition, with their multiplicities. |
| Catalog.Filter | app.py:164-168 | A row is kept exactly when it is in the catalog, its lower-cased genres contain the lower-cased genre, its runtime is within the label's inclusive bounds, and its adult flag equals the slot. Kept rows keep their multiplicity. |
| Catalog.Count | app.py:173 | A cluster's count is positive exactly when some row has that cluster. |
| Catalog.BestCluster | app.py:173 | The chosen cluster occurs among the candidates, no candidate's cluster is more frequent, and it is the least among equally frequent ones. |
| Catalog.ModalCluster | app.py:173 | `mode().iloc[0]` is the least of the most frequent cluster ids of the filtered rows. |
| Catalog.LeastModeUnique | app.py:173 | The least mode is unique, so the choice does not depend on row order. |
| Catalog.ClusterPool | app.py:174 | The pool holds exactly the catalog rows of the chosen cluster, each as often as in the catalog, and its size is that cluster's count. |
| Catalog.SelectCount | app.py:174 | Selecting one cluster yields as many rows as the cluster has. |
| Catalog.Recommend | app.py:164-176 | No recommendation exactly when no row passes the filter. Otherwise the cluster is the least mode of the filtered rows, the pool is the whole cluster with every duplicate row, and the sample size is min(40, cluster size), which is at least 1. |
| Catalog.PoolNeedNotPassFilter | app.py:173-174 | A concrete catalog where a pool movie fails the filter. |
| Dialogue.FixedText | app.py:98-171 | Every response except a recommendation has a fixed text: the exact reply strings at lines 98, 106, 108, 153-157 and 171. |
| Dialogue.FixedTextsDistinct | app.py:98-171 | No two fixed responses share a text, so the reply alone tells a client which one it got. |
| Dialogue.IsEnglishIsRegex | app.py:37-38 | `is_english` holds exactly when the regex accepts. The `$`-before-final-newline case adds nothing, because a newline is in the class. |
| Dialogue.MoodGenre | app.py:85-86 | A mood suggestion survives exactly when it is a table name, and then unchanged. |
| Dialogue.InferGenre | app.py:128-135 | A table-name classifier answer is taken as it is. Otherwise a genre is learned exactly when the mood suggestion is a non-empty table name. Whatever is learned is a table name. |
| Dialogue.Greet | app.py:107-117 | A greeting leaves length and audience alone. When the model yields a genre (a table-name classifier answer, else a non-empty table-name mood suggestion) it replaces the genre slot, set or not; otherwise the session is unchanged. |
| Dialogue.PressButton | app.py:119-125 | The message is checked against genre, then length, then audience. The first match sets that one slot, and with no match the session is unchanged. |
| Dialogue.Merge | app.py:127-149 | A set slot is kept. An unset genre takes the inferred genre if any. An unset length becomes `MatchLength` of the answer. An unset audience becomes `MatchAudience` of the answer. |
| Dialogue.Conclude | app.py:151-176 | The reply asks for genre exactly when genre is falsy. It asks for length exactly when genre is set and length is not, and for audience exactly when only audience is missing. It filters exactly when all three are set, with "no movies" exactly when no row passes. |
| Dialogue.Turn | app.py:95-176 | A non-English message gets the fixed error and changes nothing. "unrelated" gets the redirect and changes nothing. "greeting" gets the greeting, sets the genre to the genre the model yields (overwriting a set one) and otherwise changes nothing. Every turn keeps the genre in the table and never clears a set slot. The ask order holds, and filtering happens only with all slots set. |
| Dialogue.SlotFillingReply | app.py:151-176 | On the slot-filling path the reply asks for exactly the first missing slot. It is "no movies" exactly when the slots are complete and no row passes, and a recommendation exactly when some row does. |
| Dialogue.ButtonReply | app.py:119-149 | A genre button leaves the genre set to it. A length button, when not a genre, leaves the length set to its label. An audience button, when neither of those, leaves the flag set to its value. |
| Dialogue.ClassifierFill | app.py:137-149 | An unset length not set by a button ends as the first label the classifier answer fits, or unset. An unset audience not set by a button ends true on "adult", false on "all", or unset. |
| Dialogue.GreetingCanSetGenre | app.py:107-117 | A concrete greeting turn that fills the genre slot of an empty session. |
| Dialogue.GreetingOverwritesGenre | app.py:107-117 | A concrete greeting turn that replaces a set genre "Drama" with the classifier's "Comedy". |
| Server.LastUserContent | app.py:95 | The content of the last message whose role is "user", or "" when there is none. |
| Server.Load | app.py:14-22 | The genre table is built from the catalog's own genre column: well formed, and exactly the names parsed from those cells. |
| Server.Chat | app.py:91-102 | A non-English message leaves the session map untouched. Otherwise the map gains the request's id if it was missing, the other sessions are unchanged, and the id's session is the turn's result from the stored or new session. Table-valued genres are kept. |
| Server.ReplayInvariant | app.py:100-149 | Over any history of requests, no session disappears, no set slot is cleared, and stored genres stay table names. |

## Left out

- Flask routing, the JSON envelope and CORS are transport. A request is modelled as its
  message list and optional session id.
- The OpenAI calls in `detect_intent`, `classify` and `suggest_genre_by_mood` are network
  calls. Only their returned strings are modelled, as parameters. A failed call is the
  string `detect_intent` or `classify` returns on failure. The membership check on the mood suggestion is
  modelled.
- CSV loading, `dropna` and `astype(bool)` are library I/O. The catalog is a sequence of
  complete rows.
- The weighted random sample and its `random.randint` seed are randomness. The model
  stops at the pool and the sample size; which movies are drawn, and in what order, is
  not modelled.
- The sample and the movie cards can fail where the model replies with recommendations.
  `sample` (app.py:176) raises when a pool score is negative, when the scores sum to zero,
  or when fewer scores are non-zero than the sample size, since it draws without
  replacement. `int(row['release_year'])` (app.py:181) raises on a missing year, because
  `release_year` is not among the columns `dropna` checks (app.py:15). These failures
  depend on the weights and columns the model leaves out.
- Score rounding and the card text are float formatting and presentation. Only the fixed
  reply texts are modelled (`Dialogue.FixedText`).
- The process-wide `SESSIONS` dict under concurrent requests is concurrency. Requests are
  applied one at a time to an immutable map.
- Text.Lower: ASCII letters only. For classifier answers matched against the ASCII labels,
  "adult" and "all", this is exact: the only non-ASCII characters whose Python lower case
  contains ASCII letters are the Kelvin sign (to "k") and capital dotted I (to "i" plus a
  combining dot), and neither letter can complete a match. For the genre filter on
  non-ASCII genre text the model can differ from Python.
- Text.Title: ASCII letters only, and other characters count as uncased. A genre name with
  non-ASCII letters can be cased differently from Python's `title()`.
- Catalog.Filter: the genre is matched as a literal substring. pandas `str.contains`
  treats it as a regular expression, so a genre with regex metacharacters can behave
  differently.
- A request whose `session_id` is JSON `null` uses `None` as its key in the source. The
  model's id is a string or absent, and an absent id becomes "default".
- The stripping of the user message (app.py:95) uses the same whitespace set as `\s`. The
  model's message is a Dafny `string` of Unicode scalar values; surrogate code points
  cannot occur.
