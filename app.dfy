/**
 * The decision logic of the `/search` request handler (backend/app.py): the
 * validation of the request body, in its fixed order, and the construction of
 * the found / not-found response from the search engine's result.
 *
 * The corpus, which the service loads once at start-up and keeps in a module
 * global, is an explicit parameter here.
 */
module App {
  import opened Utils

  datatype Option<T> = None | Some(value: T)

  /** A decoded JSON object body whose values are strings. */
  type Body = map<string, string>

  datatype SearchError = SequenceNotProvided | InvalidSequence | SequenceTooLong

  /** The `error` text of the 400 response for each validation error. */
  function Message(e: SearchError): (r: string) {
    match e
    case SequenceNotProvided => "'sequence' not provided"
    case InvalidSequence => "Invalid sequence provided"
    case SequenceTooLong => "Sequence is too long (max 50 digits)"
  }

  /** `{found: true, occurrences, first_position, snippet}` or `{found: false}`. */
  datatype Response = Found(occurrences: nat, firstPosition: nat, snippet: string) | NotFound

  datatype Result = Ok(response: Response) | Err(error: SearchError)

  const SequenceKey: string := "sequence"
  const MaxSequenceLength: nat := 50

  predicate IsDigit(c: char) { '0' <= c <= '9' }

  /** Python's `str.isdigit` over ASCII digits: false for the empty string. */
  predicate IsDigitString(s: string) {
    |s| > 0 && forall i :: 0 <= i < |s| ==> IsDigit(s[i])
  }

  /** The `sequence` field of the body, when there is a body and it has one. */
  function SequenceField(body: Option<Body>): (r: Option<string>) {
    if body.Some? && SequenceKey in body.value then Some(body.value[SequenceKey]) else None
  }

  /**
   * search(): reject a missing body or field, then a non-digit (or empty)
   * sequence, then one longer than 50; otherwise search the corpus and report
   * the number of occurrences, the first one and the snippet around it.
   */
  function Search(corpus: string, body: Option<Body>): (r: Result)
    ensures r == Err(SequenceNotProvided) <==> SequenceField(body).None?
    ensures r == Err(InvalidSequence) <==>
      SequenceField(body).Some? && !IsDigitString(SequenceField(body).value)
    ensures r == Err(SequenceTooLong) <==>
      SequenceField(body).Some? && IsDigitString(SequenceField(body).value) &&
      |SequenceField(body).value| > MaxSequenceLength
    ensures r.Ok? <==>
      SequenceField(body).Some? && IsDigitString(SequenceField(body).value) &&
      |SequenceField(body).value| <= MaxSequenceLength
  {
    if body.None? || body.value == map[] || SequenceKey !in body.value then Err(SequenceNotProvided)
    else
      var sequence := body.value[SequenceKey];
      if !IsDigitString(sequence) || |sequence| == 0 then Err(InvalidSequence)
      else if |sequence| > MaxSequenceLength then Err(SequenceTooLong)
      else
        var positions := Occurrences(sequence, corpus);
        var count := |positions|;
        if count > 0 then
          OccurrencesFromSound(sequence, corpus, 0, 0);
          var firstPos := positions[0];
          Ok(Found(count, firstPos, GetSnippet(corpus, firstPos, sequence, DefaultSnippetLength)))
        else
          Ok(NotFound)
  }

  /**
   * For an accepted sequence the response is `Found` exactly when the sequence
   * occurs in the corpus; then `occurrences` is the number of positions the
   * search reports, `firstPosition` is the leftmost match and the snippet is
   * built around it. Otherwise the response carries no other field.
   */
  lemma SearchAccepted(corpus: string, body: Option<Body>, s: string)
    requires SequenceField(body) == Some(s) && IsDigitString(s) && |s| <= MaxSequenceLength
    ensures Search(corpus, body).Ok?
    ensures Search(corpus, body).response.Found? <==> exists i: nat :: MatchAt(corpus, s, i)
    ensures Search(corpus, body).response == NotFound <==> forall i: nat :: !MatchAt(corpus, s, i)
    ensures Search(corpus, body).response.Found? ==>
      var resp := Search(corpus, body).response;
      resp.occurrences == |Occurrences(s, corpus)| && resp.occurrences >= 1 &&
      1 <= resp.firstPosition && MatchAt(corpus, s, resp.firstPosition - 1) &&
      (forall i: nat :: i < resp.firstPosition - 1 ==> !MatchAt(corpus, s, i)) &&
      resp.snippet == GetSnippet(corpus, resp.firstPosition, s, DefaultSnippetLength)
  {
    OccurrencesEmptyIff(s, corpus);
    if Occurrences(s, corpus) != [] {
      OccurrencesFirstIsLeftmost(s, corpus);
    }
  }

  /** The digit check comes first: a long sequence with a non-digit is "invalid", not "too long". */
  lemma NonDigitBeforeLength(corpus: string, body: Option<Body>, s: string, k: nat)
    requires SequenceField(body) == Some(s) && |s| > MaxSequenceLength
    requires k < |s| && !IsDigit(s[k])
    ensures Search(corpus, body) == Err(InvalidSequence)
  {
  }

  const PiPrefix: string := "3141592653589793"

  lemma PiPrefixOccurrences()
    ensures Occurrences("14159", PiPrefix) == [2]
  {
    assert MatchAt(PiPrefix, "14159", 1);
    forall i: nat | i != 1 ensures !MatchAt(PiPrefix, "14159", i) {
      if i + 5 <= |PiPrefix| {
        assert PiPrefix[i..i + 5][0] == PiPrefix[i];
        assert PiPrefix[i..i + 5][1] == PiPrefix[i + 1];
      }
    }
    OccurrencesFromSkip("14159", PiPrefix, 0, 1);
    OccurrencesFromNone("14159", PiPrefix, 2);
  }

  lemma PiPrefixSnippet()
    ensures GetSnippet(PiPrefix, 2, "14159", DefaultSnippetLength) ==
      Ellipsis + "3" + Highlight("14159") + "2653589793" + Ellipsis
  {
    var before, after := "3", "2653589793";
    assert PiPrefix == before + "14159" + after;
    assert PiPrefix[0..1] == before && PiPrefix[1..6] == "14159" && PiPrefix[6..16] == after;
    SnippetAtMatch(PiPrefix, 2, "14159", DefaultSnippetLength);
  }

  /** The π scenario: "14159" occurs once in "3141592653589793", at position 2. */
  lemma PiExample()
    ensures Search(PiPrefix, Some(map[SequenceKey := "14159"])) ==
      Ok(Found(1, 2, Ellipsis + "3" + Highlight("14159") + "2653589793" + Ellipsis))
  {
    PiPrefixOccurrences();
    PiPrefixSnippet();
    assert IsDigitString("14159");
  }
}
