# word_search in Dafny

A model of the word-search utility in `main.py`. It has two parts.

- **Loading the word list** (`load_words`, `_norm`). Every line of the word file is stripped of surrounding whitespace and put in NFC form. Each non-empty result becomes a record `(orig, lower, length)`. Line order and duplicates are kept. The list is built on the first call and cached for all later calls (`lru_cache(maxsize=1)`).
- **Answering a query** (`_filter_iter`, `search`). A lazy generator walks the records and yields the original of each record that passes every given filter: prefix, suffix and substring tests on the lower-cased word with lower-cased needles, an exact length, and a regular-expression search anywhere in the original word. `search` skips `offset` matches, collects matches, and stops the generator as soon as it holds `limit` of them.

Files and modules:

- `wrappers.dfy`, module `Wrappers`: `Option` (Python's `X | None`) and `Result` (a value or a raised error).
- `pytext.dfy`, module `PyText`: the Python string operations the code uses. `strip` is defined over Python's `str.isspace` character set. `startswith`, `endswith` and `in` are defined on code-point sequences. NFC normalisation, `str.lower`, `re.compile` and `Pattern.search` are library code that the model does not see. They are fields of a `Host` value that the operations receive as a parameter.
- `words.dfy`, module `Words`: the record type, the specification function `Loaded`, the loop of `load_words` (`ReadRecords`), and the cache as a class `WordStore`. Its field `cache` is filled once. A ghost counter `fileReads` records how often the file was read.
- `query.dfy`, module `QueryEngine`: the query, the set-up at the top of `_filter_iter` (`Prepare`), the guard chain (`Keep`), and the generator's output (`Filtered`, and `MatchesFrom` for the generator resumed at a given record). `Filtered` and `MatchesFrom` define the same matches, once over the remaining records and once over a resumption index; `MatchesFromIsFiltered` proves them equal. The loops reason about the index form, which keeps their proofs small. `NextMatch` resumes the generator up to its next `yield`. `TakePage` is the loop of `search`, and `Page` is its specification. `Search` ties them to the cached store.
- `scenarios.dfy`, module `Scenarios`: worked queries over the list `котка, кот, кіт, акт`. They assume only that NFC and `lower` leave these four words and the needles `т` and `кот` unchanged (they are already lower-case NFC), and, for the pattern `^а.т$`, that the engine finds it in `акт` and in none of the other three words.

Behaviour the model keeps as the code has it:

- Truthiness. A needle that is `None` or `""` imposes nothing, and so does a needle whose lower-cased form is `""`. A pattern `""` is never compiled and imposes nothing. `len_eq` is tested with `is not None`, so `0` is a real constraint.
- Pagination. A negative `offset` skips nothing. Because a match is appended before its count is compared with `limit`, a `limit` of `0` or less still returns one match when one exists past the offset.
- Error order. Both `load_words()` and `re.compile` run inside the generator, on the first `next()`. So an invalid pattern is reported after the store has been loaded, and the store stays loaded (`Search`).

## Model

| member | source | states |
|---|---|---|
| `PyText.StripTrims` | main.py:16 | `strip` returns a contiguous middle slice of the line, removes only whitespace, and leaves no whitespace at either end |
| `PyText.EmptyNeedle` | main.py:35-37 | the empty needle passes `startswith`, `endswith` and `in`, so an empty lower-cased needle filters nothing |
| `Words.LoadedSingle` | main.py:16-18 | one line yields exactly the record `(w, lower(w), len(w))` for `w = NFC(strip(line))` when `w` is non-empty, and nothing otherwise |
| `Words.LoadedAppend` | main.py:15-18 | loading the concatenation of two line sequences gives the records of the first followed by those of the second (line order is kept) |
| `Words.BlankLineIgnored` | main.py:17 | inserting a line that is empty after stripping and normalising changes nothing |
| `Words.DuplicatesKept` | main.py:15-18 | a repeated line gives one record per occurrence, in place |
| `Words.LoadedBound` | main.py:15-18 | there are at most as many records as lines |
| `Words.LoadedProvenance` | main.py:15-18 | every record is well formed (non-empty, `lower` and `length` agree with `orig`) and is the record of the word of some line |
| `Words.LoadedComplete` | main.py:15-18 | every line whose stripped, normalised word is non-empty has its record in the list |
| `Words.ReadRecords` | main.py:13-18 | the append loop over the lines produces exactly `Loaded(lines)` |
| `Words.WordStore.constructor` | main.py:11 | a fresh store has an empty cache and has not read the file |
| `Words.WordStore.LoadWords` | main.py:11-19 | every call returns `Loaded(file)` and leaves it cached; the file is read on the first call only; a later call returns the cached list unchanged |
| `QueryEngine.KeepMeans` | main.py:29-39 | a record is kept if and only if each given needle, lower-cased, is a prefix, suffix or substring of its lower-cased form, its length equals a given `len_eq`, and a given pattern is found in its original form; absent or empty arguments impose nothing |
| `QueryEngine.FilteredAppend` | main.py:34-40 | the generator's output over concatenated stores is the concatenation of the outputs |
| `QueryEngine.FilteredMembership` | main.py:34-40 | a word is yielded if and only if some stored record with that original passes every guard |
| `QueryEngine.FilteredSubsequence` | main.py:34-40 | the yielded words are a subsequence of the stored originals, in store order |
| `QueryEngine.CaseInsensitiveNeedles` | main.py:29-31 | queries whose needles lower-case alike (or are all absent) and whose length and pattern agree give identical results |
| `QueryEngine.MatchesFromIsFiltered` | main.py:34-40 | the generator resumed at record `i` yields just what filtering the records from `i` on yields |
| `QueryEngine.MatchesFromSuffix` | main.py:34-40 | resuming the generator later yields a suffix of what resuming it earlier yields |
| `QueryEngine.NextMatch` | main.py:34-40 | resuming the generator at record `from` tests records in order and stops at the first that passes every guard; all records skipped fail a guard; what remains to be yielded is that record's original followed by what the generator yields after it, or nothing when the store is exhausted |
| `QueryEngine.TakePage` | main.py:53-61 | the loop over the generator returns `Page(matches, limit, offset)`; it draws at most `max(offset,0) + max(limit,1)` matches; it stops before the end of the store only when exactly that many were drawn, and then right after the record whose match filled the page; the generator is left where the matches not drawn are exactly those it would still yield |
| `QueryEngine.Scanned` | main.py:53-61 | when the generator is left at record `i` after `pulled` matches were drawn, the records before `i` yield exactly the first `pulled` matches |
| `QueryEngine.PageIsWindow` | main.py:53-62 | for `limit >= 1` the page is the matches from position `max(offset,0)` on, at most `limit` of them, as many as remain |
| `QueryEngine.PageBeyondEnd` | main.py:53-62 | an offset at or past the number of matches gives an empty page, not an error |
| `QueryEngine.PageNonPositiveLimit` | main.py:59-61 | with `limit <= 0` the page is the one match at position `max(offset,0)` if there is one, and empty otherwise |
| `QueryEngine.PagesCompose` | main.py:53-62 | for `L, L2 >= 1`, the page `(L, 0)` followed by the page `(L2, L)` is the page `(L + L2, 0)` |
| `QueryEngine.PageWithin` | main.py:53-62 | every word of a page is one of the matches |
| `QueryEngine.SearchPagesCompose` | main.py:42-62 | the same composition for whole `search` results: the three calls fail or succeed together, and on success the pages concatenate |
| `QueryEngine.ResultsMatch` | main.py:34-62 | every word `search` returns is the original of a stored record that passes every given filter |
| `QueryEngine.LengthFilterExact` | main.py:18 | over a loaded store and with `len_eq = n`, every returned word has exactly `n` code points |
| `QueryEngine.Search` | main.py:28-62 | `search` loads the store through the cache, fails with `InvalidPattern` when the non-empty pattern does not compile, and otherwise returns the page of the filtered store |
| `Scenarios.ScenarioLoad` | main.py:13-18 | the four-line file gives four records in file order |
| `Scenarios.ScenarioEndsWith` | main.py:42-62 | the suffix `т` selects `кот, кіт, акт` in file order |
| `Scenarios.ScenarioContainsLimit` | main.py:42-62 | the substring `кот` with limit 1 returns only `котка` |
| `Scenarios.ScenarioRegex` | main.py:39 | a pattern that the engine finds in `акт` and in none of the other three words returns just `акт` |

## Left out

- File access and UTF-8 decoding (main.py:14): the file is given as its sequence of lines. Errors opening or decoding the file are not modelled.
- The command line (`main`, main.py:65-79): argument parsing and printing only pass values to `search`.
- Unicode NFC normalisation and `str.lower` (main.py:9, 18, 29-31): these are library functions, kept as opaque fields of `Host`. The general lemmas assume nothing about them; the worked scenarios assume only that these functions leave their four words and needles unchanged. For example, the model does not assume that `lower` keeps a string non-empty or that NFC is idempotent.
- The regular-expression engine (main.py:32, 39): whether a pattern compiles and whether it is found in a word are opaque fields of `Host`. Only `ScenarioRegex` assumes outcomes of it: that `^а.т$` compiles, and whether it is found in each of the four words.
- Generator mechanics: the generator is modelled by its resumption point (`NextMatch` returns the index to resume after). No coroutine state is modelled.
- Thread safety of `lru_cache` is not modelled, because the code is single-threaded.
- The default arguments `limit=50` and `offset=0` of `search` (main.py:48-49): `Search` takes both explicitly. The command line always passes both (main.py:72-75), so no behaviour is lost.
- The function-level cache in the source is modelled as a store object whose lines are fixed when the store is created. It has no global singleton.
