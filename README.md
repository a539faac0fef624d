# π digit engine — a Dafny model

The π visualizer keeps one million decimal digits of π in memory. It answers
three requests over them: find a digit sequence, give the frequency of each
digit, and give simple randomness statistics. This project models the engine
behind the first two requests (`backend/utils.py`), and the decisions the
`/search` handler makes on top of it (`backend/app.py`). It proves the
properties those functions promise.

- `utils.dfy`, module `Utils`:
  - `Find` is a loop that models Python's `str.find(sub, start)`.
  - `SearchAllOccurrences` is the `find` loop of `search_all_occurrences`. It
    is proved equal to the reference definition `Occurrences`, which checks
    every index. The lemmas about `Occurrences` prove that the search is
    sound, in bounds, strictly increasing and complete (overlapping matches
    included).
  - `GetSnippet` is `get_snippet`, built from Python's clamped slicing
    (`Slice`).
  - `DigitDistribution` is the `for` loop of `digit_distribution`. It is
    proved equal to `Distribution`. That function lists one entry per distinct
    character, ascending, each with its count and its exact percentage.
- `app.dfy`, module `App`: `Search` is the decision logic of `search()`, as a
  pure function. It maps the corpus and an optional request body to either a
  validation error or a response. The corpus, which the service loads once and
  keeps in a module global, is a parameter.

Percentages are exact `real`s with no rounding. Strings are `seq<char>`. The
highlight markup of the snippet is kept verbatim as constants, and no lemma
depends on its text.

Three behaviours of the code worth stating:
- The distribution has entries only for characters that occur. It does not
  always have ten entries. With a corpus made of digits, that means at most
  ten entries, keyed `'0'..'9'` (`DistributionOfDigits`). An empty corpus gives
  an empty distribution, and no division takes place.
- No separate rule handles a query longer than the corpus: `find` returns -1
  and the result is empty.
- The empty query never reaches the engine, because `search()` rejects it. If
  it did reach the engine, the `find` loop would still stop, after reporting
  every position `1 .. |digits| + 1` (`EmptyQueryOccurrences`).

## Model

| member | source | states |
|---|---|---|
| `Utils.Find` | backend/utils.py:25 | `digits.find(sequence, start)` returns -1 or an index `>= start` where the query occurs, and no match lies between `start` and that index (or anywhere from `start` on, when it returns -1) |
| `Utils.FindStep` | backend/utils.py:25-27 | one `find` call from `start` accounts for every occurrence from `start` on: there are none when it returns -1; otherwise they are the returned match followed by the occurrences from one index after it |
| `Utils.SearchAllOccurrences` | backend/utils.py:19-28 | the loop that resumes at `pos + 1` after each hit terminates, and returns exactly `Occurrences(sequence, digits)` |
| `Utils.OccurrencesSound` | backend/utils.py:25-26 | every reported position `p` satisfies `1 <= p <= |digits| - |seq| + 1` and `digits[p-1 .. p-1+|seq|] == seq` |
| `Utils.OccurrencesComplete` | backend/utils.py:24-27 | every index where the query occurs is reported, overlapping occurrences included |
| `Utils.OccurrencesIncreasing` | backend/utils.py:24-27 | the reported positions are strictly increasing |
| `Utils.OccurrencesEmptyIff` | backend/utils.py:23-28 | the result is empty if and only if the query occurs nowhere in the corpus |
| `Utils.OccurrencesFirstIsLeftmost` | backend/utils.py:24-27 | the first reported position is a match and no match lies before it |
| `Utils.OverlapExample` | backend/utils.py:24-27 | searching `"11"` in `"111"` gives `[1, 2]` |
| `Utils.EmptyQueryOccurrences` | backend/utils.py:23-28 | for the empty query the loop still stops, reporting `1 .. |digits| + 1` |
| `Utils.Slice` | backend/utils.py:38-40 | Python's `s[i:j]` for non-negative bounds clamps to the string: its length is `max(0, min(j, |s|) - i)`; its k-th character is `s[i + k]`; within bounds it is `s[i..j]` |
| `Utils.GetSnippet` | backend/utils.py:30-42 | the snippet starts and ends with `"..."` and is at most `2 * length` characters of context plus the highlighted query and the ellipses |
| `Utils.SnippetAtMatch` | backend/utils.py:34-42 | at a real match, `before` is `digits[max(0, p-1-L) .. p-1]`, `after` is `digits[p-1+|seq| .. min(|digits|, p-1+|seq|+L)]`, each exactly `L` long unless cut by a corpus bound, the highlighted text is the corpus text of the match, and `before + seq + after` is the contiguous slice `digits[start..end]` |
| `Utils.InsertKey` | backend/utils.py:51 | inserting a character into an ascending list of distinct characters keeps it ascending and distinct and adds exactly that character |
| `Utils.SortedKeys` | backend/utils.py:49-51 | `sorted(Counter(digits).keys())` is strictly ascending and holds exactly the characters that occur in `digits` |
| `Utils.Entries` | backend/utils.py:51-54 | the entry built for each key, in key order, has that key, its count, and its percentage of the corpus length |
| `Utils.DigitDistribution` | backend/utils.py:44-55 | the loop returns `Distribution(digits)`: keys strictly ascending; a key for a character if and only if it occurs; each count is the number of occurrences of its key; each percent is `count / |digits| * 100` |
| `Utils.DistributionTotalCount` | backend/utils.py:48-54 | the counts of the distribution sum to the corpus length |
| `Utils.DistributionTotalPercent` | backend/utils.py:53-54 | for a non-empty corpus the exact percentages sum to 100 |
| `Utils.DistributionPercentBounds` | backend/utils.py:52-53 | each percentage lies between 0 and 100 |
| `Utils.DistributionOfEmpty` | backend/utils.py:48-51 | the empty corpus has the empty distribution |
| `Utils.DistributionOfDigits` | backend/utils.py:49-51 | over a corpus of digits every key is one of `'0'..'9'` and there are at most ten entries |
| `App.Search` | backend/app.py:17-44 | a missing body or a missing `sequence` field gives "'sequence' not provided". Otherwise an empty or non-digit sequence gives "Invalid sequence provided". Otherwise a sequence longer than 50 gives "Sequence is too long (max 50 digits)". Each error holds exactly when its condition does and the earlier ones do not. Every other input gets a response |
| `App.SearchAccepted` | backend/app.py:29-42 | for an accepted sequence the response is found if and only if the sequence occurs. A found response has `occurrences` = the number of positions, `first_position` = the leftmost match, and the snippet built there with context 20. Otherwise the response is `NotFound`, with no other field |
| `App.NonDigitBeforeLength` | backend/app.py:23-27 | a sequence longer than 50 that contains a non-digit gets the invalid-sequence error, not the length error |
| `App.PiPrefixOccurrences` | backend/utils.py:19-28 | `"14159"` occurs in `"3141592653589793"` only at position 2 |
| `App.PiPrefixSnippet` | backend/utils.py:30-42 | the snippet around that match is `"..." + "3" + highlight("14159") + "2653589793" + "..."` |
| `App.PiExample` | backend/app.py:29-40 | searching `"14159"` in `"3141592653589793"` gives found, 1 occurrence, first position 2, and that snippet |

## Left out

- `load_pi_digits` (backend/utils.py:5-17) reads a file, prints a message and raises if the file is missing. File I/O is not part of this model, so the corpus is a parameter of every operation.
- `randomness_stats` (backend/utils.py:57-78) uses floating-point `math.log2` and `round`. Floating point is not part of this model.
- `round(percentage, 2)` (backend/utils.py:54): percentages are exact reals.
- Flask, CORS, `jsonify` and `app.run` (backend/app.py:1-14, 44-56) are not modelled. The 400 status code of the error responses is transport, and so is the JSON encoding of the error text. The error texts are kept in `App.Message`.
- The `/digit-distribution` and `/randomness-stats` routes (backend/app.py:46-52) return the values computed once at start-up. For the distribution, that value is `Utils.Distribution(corpus)`.
- `App.Search` models only a body that is absent or a JSON object with string values. Other JSON bodies (a list, a string, a number) and a non-string `sequence` value, which makes `isdigit` raise, are not modelled.
- `App.IsDigitString`: `str.isdigit` also accepts non-ASCII digits. The model accepts only `'0'..'9'`.
- `Utils.GetSnippet`: requires `position >= 1` and takes a non-negative `length`. With a position of 0 or less, Python's negative slice indices would wrap around. The only caller passes a found position and the default length 20.
- `Utils.SearchAllOccurrences`: states only that its result equals `Occurrences`. Soundness, bounds, order and completeness are proved about `Occurrences` by the lemmas in the table.
- frontend/frontend.py is a Streamlit interface and HTTP client. Its only logic is formatting, and it is not part of this model.
