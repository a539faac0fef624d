/**
 * The digit engine of the π visualizer (backend/utils.py): overlapping
 * substring search over the digit corpus, the context snippet shown around a
 * match, and the per-digit frequency distribution.
 *
 * Strings are `seq<char>`; the corpus is any string (in the deployed service it
 * holds only the characters '0'..'9', see `App.IsDigitString`).
 */
module Utils {

  function Max(a: int, b: int): (r: int) { if a < b then b else a }

  function Min(a: int, b: int): (r: int) { if a < b then a else b }

  // ---------------------------------------------------------------------------
  // Occurrence search (search_all_occurrences)
  // ---------------------------------------------------------------------------

  /** `sub` occurs in `s` at the 0-based index `i`. */
  predicate MatchAt(s: string, sub: string, i: nat) {
    i + |sub| <= |s| && s[i..i + |sub|] == sub
  }

  /**
   * Python's `s.find(sub, start)` for a non-negative `start`: the least index
   * `i >= start` at which `sub` occurs in `s`, or -1 when there is none. The
   * empty `sub` occurs at every index up to and including `|s|`.
   */
  method Find(sub: string, s: string, start: nat) returns (r: int)
    ensures r == -1 || (start <= r && MatchAt(s, sub, r))
    ensures forall i: nat :: start <= i && (r == -1 || i < r) ==> !MatchAt(s, sub, i)
  {
    var i := start;
    while i + |sub| <= |s|
      invariant start <= i
      invariant forall k: nat :: start <= k < i ==> !MatchAt(s, sub, k)
      decreases |s| - i
    {
      if s[i..i + |sub|] == sub {
        return i;
      }
      i := i + 1;
    }
    return -1;
  }

  /**
   * Reference definition: the 1-based positions, in scan order, of every
   * occurrence of `sub` in `s` that starts at 0-based index `i` or later.
   */
  function OccurrencesFrom(sub: string, s: string, i: nat): (r: seq<nat>)
    decreases |s| - i
  {
    if i + |sub| > |s| then []
    else (if MatchAt(s, sub, i) then [i + 1] else []) + OccurrencesFrom(sub, s, i + 1)
  }

  /** Every 1-based position at which `sub` occurs in `s`, overlaps included. */
  function Occurrences(sub: string, s: string): (r: seq<nat>) {
    OccurrencesFrom(sub, s, 0)
  }

  lemma {:induction false} OccurrencesFromSound(sub: string, s: string, i: nat, k: nat)
    requires k < |OccurrencesFrom(sub, s, i)|
    ensures i + 1 <= OccurrencesFrom(sub, s, i)[k]
    ensures MatchAt(s, sub, OccurrencesFrom(sub, s, i)[k] - 1)
    decreases |s| - i
  {
    var head: seq<nat> := if MatchAt(s, sub, i) then [i + 1] else [];
    assert OccurrencesFrom(sub, s, i) == head + OccurrencesFrom(sub, s, i + 1);
    if k >= |head| {
      OccurrencesFromSound(sub, s, i + 1, k - |head|);
    }
  }

  lemma {:induction false} OccurrencesFromComplete(sub: string, s: string, i: nat, j: nat)
    requires i <= j && MatchAt(s, sub, j)
    ensures j + 1 in OccurrencesFrom(sub, s, i)
    decreases j - i
  {
    if i < j {
      OccurrencesFromComplete(sub, s, i + 1, j);
    }
  }

  lemma {:induction false} OccurrencesFromIncreasing(sub: string, s: string, i: nat, a: nat, b: nat)
    requires a < b < |OccurrencesFrom(sub, s, i)|
    ensures OccurrencesFrom(sub, s, i)[a] < OccurrencesFrom(sub, s, i)[b]
    decreases |s| - i
  {
    var head: seq<nat> := if MatchAt(s, sub, i) then [i + 1] else [];
    assert OccurrencesFrom(sub, s, i) == head + OccurrencesFrom(sub, s, i + 1);
    if a < |head| {
      OccurrencesFromSound(sub, s, i + 1, b - |head|);
    } else {
      OccurrencesFromIncreasing(sub, s, i + 1, a - |head|, b - |head|);
    }
  }

  /** Indices without a match contribute nothing: the scan may jump over them. */
  lemma {:induction false} OccurrencesFromSkip(sub: string, s: string, i: nat, j: nat)
    requires i <= j
    requires forall k: nat :: i <= k < j ==> !MatchAt(s, sub, k)
    ensures OccurrencesFrom(sub, s, i) == OccurrencesFrom(sub, s, j)
    decreases j - i
  {
    if i < j && i + |sub| <= |s| {
      OccurrencesFromSkip(sub, s, i + 1, j);
    }
  }

  lemma {:induction false} OccurrencesFromNone(sub: string, s: string, i: nat)
    requires forall k: nat :: i <= k ==> !MatchAt(s, sub, k)
    ensures OccurrencesFrom(sub, s, i) == []
    decreases |s| - i
  {
    if i + |sub| <= |s| {
      OccurrencesFromNone(sub, s, i + 1);
    }
  }

  /** Every reported position is a real match, and lies within the bounds. */
  lemma OccurrencesSound(sub: string, s: string)
    ensures forall k :: 0 <= k < |Occurrences(sub, s)| ==>
      1 <= Occurrences(sub, s)[k] <= |s| - |sub| + 1 &&
      s[Occurrences(sub, s)[k] - 1..Occurrences(sub, s)[k] - 1 + |sub|] == sub
  {
    forall k | 0 <= k < |Occurrences(sub, s)|
      ensures 1 <= Occurrences(sub, s)[k] <= |s| - |sub| + 1
      ensures s[Occurrences(sub, s)[k] - 1..Occurrences(sub, s)[k] - 1 + |sub|] == sub
    {
      OccurrencesFromSound(sub, s, 0, k);
    }
  }

  /** Every index at which `sub` occurs is reported, overlapping ones too. */
  lemma OccurrencesComplete(sub: string, s: string)
    ensures forall i: nat :: MatchAt(s, sub, i) ==> i + 1 in Occurrences(sub, s)
  {
    forall i: nat | MatchAt(s, sub, i) ensures i + 1 in Occurrences(sub, s) {
      OccurrencesFromComplete(sub, s, 0, i);
    }
  }

  /** Reported positions are strictly increasing. */
  lemma OccurrencesIncreasing(sub: string, s: string)
    ensures forall a, b :: 0 <= a < b < |Occurrences(sub, s)| ==>
      Occurrences(sub, s)[a] < Occurrences(sub, s)[b]
  {
    forall a, b | 0 <= a < b < |Occurrences(sub, s)|
      ensures Occurrences(sub, s)[a] < Occurrences(sub, s)[b]
    {
      OccurrencesFromIncreasing(sub, s, 0, a, b);
    }
  }

  /** The result is empty exactly when `sub` does not occur in `s`. */
  lemma OccurrencesEmptyIff(sub: string, s: string)
    ensures Occurrences(sub, s) == [] <==> forall i: nat :: !MatchAt(s, sub, i)
  {
    if forall i: nat :: !MatchAt(s, sub, i) {
      OccurrencesFromNone(sub, s, 0);
    } else {
      var i: nat :| MatchAt(s, sub, i);
      OccurrencesFromComplete(sub, s, 0, i);
    }
  }

  /** The first reported position is the leftmost occurrence. */
  lemma OccurrencesFirstIsLeftmost(sub: string, s: string)
    requires Occurrences(sub, s) != []
    ensures 1 <= Occurrences(sub, s)[0] && MatchAt(s, sub, Occurrences(sub, s)[0] - 1)
    ensures forall i: nat :: i < Occurrences(sub, s)[0] - 1 ==> !MatchAt(s, sub, i)
  {
    OccurrencesFromSound(sub, s, 0, 0);
    forall i: nat | i < Occurrences(sub, s)[0] - 1 ensures !MatchAt(s, sub, i) {
      if MatchAt(s, sub, i) {
        OccurrencesComplete(sub, s);
        var k :| 0 <= k < |Occurrences(sub, s)| && Occurrences(sub, s)[k] == i + 1;
        if k > 0 {
          OccurrencesIncreasing(sub, s);
        }
        assert false;
      }
    }
  }

  /** Overlapping matches are all reported: "11" occurs in "111" at 1 and 2. */
  lemma OverlapExample()
    ensures Occurrences("11", "111") == [1, 2]
  {
    assert MatchAt("111", "11", 0);
    assert MatchAt("111", "11", 1);
    assert OccurrencesFrom("11", "111", 2) == [];
    assert OccurrencesFrom("11", "111", 1) == [2];
  }

  /** The empty query occurs at every index, so the search reports 1 .. |s| + 1. */
  lemma {:induction false} EmptyQueryOccurrences(s: string, i: nat)
    requires i <= |s| + 1
    ensures |OccurrencesFrom("", s, i)| == |s| + 1 - i
    ensures forall k :: 0 <= k < |OccurrencesFrom("", s, i)| ==> OccurrencesFrom("", s, i)[k] == i + 1 + k
    decreases |s| + 1 - i
  {
    if i <= |s| {
      assert MatchAt(s, "", i);
      EmptyQueryOccurrences(s, i + 1);
    }
  }

  /**
   * What one call of `find` from `start` contributes: nothing more when it
   * fails, and otherwise the position of the match it returns, after which the
   * scan resumes one index later.
   */
  lemma FindStep(sub: string, s: string, start: nat, pos: int)
    requires pos == -1 || (start <= pos && MatchAt(s, sub, pos))
    requires forall i: nat :: start <= i && (pos == -1 || i < pos) ==> !MatchAt(s, sub, i)
    ensures pos == -1 ==> OccurrencesFrom(sub, s, start) == []
    ensures pos != -1 ==>
      pos + 1 <= |s| + 1 && OccurrencesFrom(sub, s, start) == [pos + 1] + OccurrencesFrom(sub, s, pos + 1)
  {
    if pos == -1 {
      OccurrencesFromNone(sub, s, start);
    } else {
      OccurrencesFromSkip(sub, s, start, pos);
    }
  }

  /**
   * search_all_occurrences: repeatedly `find` the query from `start`, record
   * the 1-based position and resume one index after the match (not after its
   * end), so overlapping matches are found.
   */
  method SearchAllOccurrences(sequence: string, digits: string) returns (positions: seq<nat>)
    ensures positions == Occurrences(sequence, digits)
  {
    positions := [];
    var start: nat := 0;
    while true
      invariant start <= |digits| + 1
      invariant positions + OccurrencesFrom(sequence, digits, start) == Occurrences(sequence, digits)
      decreases |digits| + 1 - start
    {
      var pos := Find(sequence, digits, start);
      FindStep(sequence, digits, start, pos);
      if pos == -1 {
        break;
      }
      positions := positions + [pos + 1];
      start := pos + 1;
    }
  }

  // ---------------------------------------------------------------------------
  // Snippet window (get_snippet)
  // ---------------------------------------------------------------------------

  /** Python's slice `s[i:j]` for non-negative bounds: clamped to the string. */
  function Slice(s: string, i: nat, j: nat): (r: string)
    ensures |r| == Max(0, Min(j, |s|) - i)
    ensures forall k :: 0 <= k < |r| ==> r[k] == s[i + k]
    ensures i <= j <= |s| ==> r == s[i..j]
  {
    if j <= i || |s| <= i then [] else s[i..Min(j, |s|)]
  }

  const Ellipsis: string := "..."
  const HighlightOpen: string := "<span style=\"color:red; font-weight:bold\">"
  const HighlightClose: string := "</span>"
  /** Context characters shown on each side when the caller gives no length. */
  const DefaultSnippetLength: nat := 20

  /** The markup that marks the matched text in a snippet. */
  function Highlight(sequence: string): (r: string) {
    HighlightOpen + sequence + HighlightClose
  }

  /** First corpus index of the snippet: `length` before the match, clamped at 0. */
  function SnippetStart(position: nat, length: nat): (r: nat)
    requires 1 <= position
  {
    Max(0, position - 1 - length)
  }

  /** End (exclusive) of the snippet: `length` after the match, clamped at `|digits|`. */
  function SnippetEnd(digits: string, position: nat, sequence: string, length: nat): (r: nat)
    requires 1 <= position
  {
    Min(|digits|, position - 1 + |sequence| + length)
  }

  /**
   * get_snippet: up to `length` characters of context on each side of the
   * query placed at the 1-based `position`, the query highlighted, the whole
   * wrapped in ellipses.
   */
  function GetSnippet(digits: string, position: nat, sequence: string, length: nat): (r: string)
    requires 1 <= position
    ensures |r| <= 2 * |Ellipsis| + 2 * length + |Highlight(sequence)|
    ensures |Ellipsis| <= |r| && r[..|Ellipsis|] == Ellipsis && r[|r| - |Ellipsis|..] == Ellipsis
  {
    var p := position - 1;
    var body := Slice(digits, SnippetStart(position, length), p) + Highlight(sequence)
                + Slice(digits, p + |sequence|, SnippetEnd(digits, position, sequence, length));
    assert (Ellipsis + body + Ellipsis)[..|Ellipsis|] == Ellipsis;
    assert (Ellipsis + body + Ellipsis)[|Ellipsis + body|..] == Ellipsis;
    Ellipsis + body + Ellipsis
  }

  /**
   * At a real match, the snippet's flanks are the corpus slices just before
   * and just after the match, as long as `length` allows (shorter only at the
   * corpus bounds), the highlighted text is the matched corpus text, and the
   * flanks and the match together are one contiguous slice of the corpus.
   */
  lemma SnippetAtMatch(digits: string, position: nat, sequence: string, length: nat)
    requires 1 <= position && MatchAt(digits, sequence, position - 1)
    ensures var p, start, end := position - 1, SnippetStart(position, length), SnippetEnd(digits, position, sequence, length);
      start <= p && p + |sequence| <= end <= |digits| &&
      p - start == Min(p, length) &&
      end - (p + |sequence|) == Min(|digits| - (p + |sequence|), length) &&
      GetSnippet(digits, position, sequence, length) ==
        Ellipsis + digits[start..p] + Highlight(digits[p..p + |sequence|]) + digits[p + |sequence|..end] + Ellipsis &&
      digits[start..p] + sequence + digits[p + |sequence|..end] == digits[start..end]
  {
    var p, start, end := position - 1, SnippetStart(position, length), SnippetEnd(digits, position, sequence, length);
    assert digits[start..end] == digits[start..p] + digits[p..p + |sequence|] + digits[p + |sequence|..end];
  }

  // ---------------------------------------------------------------------------
  // Digit distribution (digit_distribution)
  // ---------------------------------------------------------------------------

  /** One entry of the distribution: a character, its count and its percentage. */
  datatype Entry = Entry(digit: char, count: nat, percent: real)

  predicate StrictlyIncreasing(keys: seq<char>) {
    forall i, j :: 0 <= i < j < |keys| ==> keys[i] < keys[j]
  }

  /** Insert `c` into an ascending sequence of distinct characters. */
  function InsertKey(keys: seq<char>, c: char): (r: seq<char>)
    requires StrictlyIncreasing(keys)
    ensures StrictlyIncreasing(r)
    ensures forall x :: x in r <==> x in keys || x == c
  {
    if keys == [] then [c]
    else if c == keys[0] then keys
    else if c < keys[0] then [c] + keys
    else
      var rest := InsertKey(keys[1..], c);
      assert forall j :: 0 <= j < |rest| ==> keys[0] < rest[j] by {
        forall j | 0 <= j < |rest| ensures keys[0] < rest[j] {
          assert rest[j] in rest;
          if rest[j] != c {
            var m :| 0 <= m < |keys[1..]| && keys[1..][m] == rest[j];
            assert keys[1 + m] == rest[j];
          }
        }
      }
      [keys[0]] + rest
  }

  /** `sorted(Counter(digits).keys())`: the distinct characters of `digits`, ascending. */
  function SortedKeys(digits: string): (keys: seq<char>)
    ensures StrictlyIncreasing(keys)
    ensures forall c :: c in keys <==> c in digits
  {
    if digits == [] then []
    else
      assert digits == digits[..|digits| - 1] + [digits[|digits| - 1]];
      InsertKey(SortedKeys(digits[..|digits| - 1]), digits[|digits| - 1])
  }

  /** `Counter(digits)[c]`. */
  function Count(digits: string, c: char): (r: nat) {
    multiset(digits)[c]
  }

  /** `(count / total) * 100`, exact and unrounded. */
  function Percent(count: nat, total: nat): (r: real)
    requires total > 0
  {
    count as real / total as real * 100.0
  }

  function EntryFor(digits: string, c: char): (e: Entry)
    requires c in digits
  {
    Entry(c, Count(digits, c), Percent(Count(digits, c), |digits|))
  }

  /** The entries for `keys`, in the order of `keys`. */
  function Entries(digits: string, keys: seq<char>): (es: seq<Entry>)
    requires forall c :: c in keys ==> c in digits
    ensures |es| == |keys|
    ensures forall i :: 0 <= i < |keys| ==> es[i] == EntryFor(digits, keys[i])
  {
    if keys == [] then []
    else Entries(digits, keys[..|keys| - 1]) + [EntryFor(digits, keys[|keys| - 1])]
  }

  /** The distribution, one entry per distinct character, ascending by character. */
  function Distribution(digits: string): (r: seq<Entry>) {
    Entries(digits, SortedKeys(digits))
  }

  /**
   * digit_distribution: for each distinct character, in ascending order, its
   * count and its percentage of the corpus length.
   */
  method DigitDistribution(digits: string) returns (distribution: seq<Entry>)
    ensures distribution == Distribution(digits)
    ensures forall i, j :: 0 <= i < j < |distribution| ==> distribution[i].digit < distribution[j].digit
    ensures forall c :: c in digits <==> exists i :: 0 <= i < |distribution| && distribution[i].digit == c
    ensures forall i :: 0 <= i < |distribution| ==>
      distribution[i].count == multiset(digits)[distribution[i].digit] &&
      distribution[i].percent == distribution[i].count as real / |digits| as real * 100.0
  {
    var total := |digits|;
    var keys := SortedKeys(digits);
    distribution := [];
    for i := 0 to |keys|
      invariant distribution == Entries(digits, keys[..i])
    {
      var digit := keys[i];
      assert digit in digits;
      var count := Count(digits, digit);
      var percentage := count as real / total as real * 100.0;
      assert keys[..i + 1][..i] == keys[..i];
      distribution := distribution + [Entry(digit, count, percentage)];
    }
    assert keys[..|keys|] == keys;
    forall c | c in digits ensures exists i :: 0 <= i < |distribution| && distribution[i].digit == c {
      var i :| 0 <= i < |keys| && keys[i] == c;
      assert distribution[i].digit == c;
    }
  }

  function TotalCount(es: seq<Entry>): (r: nat) {
    if es == [] then 0 else TotalCount(es[..|es| - 1]) + es[|es| - 1].count
  }

  function TotalPercent(es: seq<Entry>): (r: real) {
    if es == [] then 0.0 else TotalPercent(es[..|es| - 1]) + es[|es| - 1].percent
  }

  /** The sum of `Count(digits, k)` over the keys `keys`. */
  function CountSum(digits: string, keys: seq<char>): (r: nat) {
    if keys == [] then 0 else CountSum(digits, keys[..|keys| - 1]) + Count(digits, keys[|keys| - 1])
  }

  lemma {:induction false} EntriesTotalCount(digits: string, keys: seq<char>)
    requires forall c :: c in keys ==> c in digits
    ensures TotalCount(Entries(digits, keys)) == CountSum(digits, keys)
  {
    if keys != [] {
      var init := keys[..|keys| - 1];
      EntriesTotalCount(digits, init);
      assert Entries(digits, keys)[..|keys| - 1] == Entries(digits, init);
    }
  }

  lemma PercentAdd(a: nat, b: nat, n: nat)
    requires n > 0
    ensures Percent(a, n) + Percent(b, n) == Percent(a + b, n)
  {
    var x, y := a as real / n as real, b as real / n as real;
    assert x * n as real == a as real && y * n as real == b as real;
    assert (x + y) * n as real == (a + b) as real;
  }

  lemma PercentOfWhole(n: nat)
    requires n > 0
    ensures Percent(n, n) == 100.0
  {
    assert n as real / n as real == 1.0;
  }

  lemma {:induction false} EntriesTotalPercent(digits: string, keys: seq<char>)
    requires |digits| > 0
    requires forall c :: c in keys ==> c in digits
    ensures TotalPercent(Entries(digits, keys)) == Percent(CountSum(digits, keys), |digits|)
  {
    if keys != [] {
      var init, last := keys[..|keys| - 1], keys[|keys| - 1];
      var es := Entries(digits, keys);
      assert TotalPercent(es) == TotalPercent(Entries(digits, init)) + Percent(Count(digits, last), |digits|) by {
        assert es[..|keys| - 1] == Entries(digits, init);
      }
      EntriesTotalPercent(digits, init);
      PercentAdd(CountSum(digits, init), Count(digits, last), |digits|);
    }
  }

  lemma {:induction false} CountSumOfEmpty(keys: seq<char>)
    ensures CountSum([], keys) == 0
  {
    if keys != [] {
      CountSumOfEmpty(keys[..|keys| - 1]);
    }
  }

  lemma {:induction false} CountSumAppend(digits: string, c: char, keys: seq<char>)
    ensures CountSum(digits + [c], keys) == CountSum(digits, keys) + multiset(keys)[c]
  {
    if keys != [] {
      var init := keys[..|keys| - 1];
      CountSumAppend(digits, c, init);
      assert keys == init + [keys[|keys| - 1]];
    }
  }

  lemma {:induction false} DistinctMultiplicity(keys: seq<char>, c: char)
    requires StrictlyIncreasing(keys)
    ensures multiset(keys)[c] == if c in keys then 1 else 0
  {
    if keys != [] {
      var init := keys[..|keys| - 1];
      DistinctMultiplicity(init, c);
      assert keys == init + [keys[|keys| - 1]];
    }
  }

  /** Over distinct keys that cover every character, the counts sum to the length. */
  lemma {:induction false} CountSumCovers(digits: string, keys: seq<char>)
    requires StrictlyIncreasing(keys)
    requires forall c :: c in digits ==> c in keys
    ensures CountSum(digits, keys) == |digits|
  {
    if digits == [] {
      CountSumOfEmpty(keys);
    } else {
      var init := digits[..|digits| - 1];
      var c := digits[|digits| - 1];
      assert digits == init + [c];
      CountSumCovers(init, keys);
      CountSumAppend(init, c, keys);
      DistinctMultiplicity(keys, c);
    }
  }

  /** The counts of the distribution sum to the corpus length. */
  lemma DistributionTotalCount(digits: string)
    ensures TotalCount(Distribution(digits)) == |digits|
  {
    EntriesTotalCount(digits, SortedKeys(digits));
    CountSumCovers(digits, SortedKeys(digits));
  }

  /** The exact percentages of a non-empty corpus sum to 100. */
  lemma DistributionTotalPercent(digits: string)
    requires |digits| > 0
    ensures TotalPercent(Distribution(digits)) == 100.0
  {
    var keys := SortedKeys(digits);
    EntriesTotalPercent(digits, keys);
    CountSumCovers(digits, keys);
    PercentOfWhole(|digits|);
  }

  /** Every percentage lies between 0 and 100. */
  lemma DistributionPercentBounds(digits: string, i: nat)
    requires i < |Distribution(digits)|
    ensures 0.0 <= Distribution(digits)[i].percent <= 100.0
  {
    var c := SortedKeys(digits)[i];
    assert Count(digits, c) <= |digits| by {
      assert multiset(digits)[c] <= |multiset(digits)|;
    }
  }

  /** The empty corpus has the empty distribution; no division takes place. */
  lemma DistributionOfEmpty()
    ensures Distribution("") == []
  {
  }

  lemma {:induction false} IncreasingSpread(keys: seq<char>, i: nat)
    requires StrictlyIncreasing(keys) && i < |keys|
    ensures keys[i] as int - keys[0] as int >= i
  {
    if i > 0 {
      IncreasingSpread(keys, i - 1);
    }
  }

  /**
   * Over a corpus of decimal digits, every key is one of '0'..'9' (a digit that
   * never appears gets no entry) and there are at most ten entries.
   */
  lemma DistributionOfDigits(digits: string)
    requires forall i :: 0 <= i < |digits| ==> '0' <= digits[i] <= '9'
    ensures forall i :: 0 <= i < |Distribution(digits)| ==> '0' <= Distribution(digits)[i].digit <= '9'
    ensures |Distribution(digits)| <= 10
  {
    var keys := SortedKeys(digits);
    forall i | 0 <= i < |keys| ensures '0' <= keys[i] <= '9' {
      assert keys[i] in digits;
      var j :| 0 <= j < |digits| && digits[j] == keys[i];
    }
    if keys != [] {
      IncreasingSpread(keys, |keys| - 1);
    }
  }
}
