/**
 * GET /strings/filter-by-natural-language: a handful of fixed phrase rules
 * read filters out of the lowercased query, and the stored records are
 * narrowed by them exactly as GET /strings would.
 */
module NaturalLanguage {
  import opened Base
  import opened JsText
  import opened Analyzer
  import opened StringStore
  import opened QueryFilter

  const LongerThan := "longer than "

  /** `/longer than (\d+)/` matches at position `i` of `lq`. */
  predicate LongerThanAt(lq: string, i: nat) {
    OccursAt(lq, LongerThan, i) && i + |LongerThan| < |lq| && IsDigit(lq[i + |LongerThan|])
  }

  function LongerThanMatch(lq: string): nat -> bool {
    (i: nat) => LongerThanAt(lq, i)
  }

  /**
   * The group `(\d+)` of the leftmost match of `/longer than (\d+)/`: the
   * whole run of digits after the phrase.
   */
  function LongerThanDigits(lq: string): (r: Option<string>)
    ensures r.Some? ==> r.value != [] && forall k :: 0 <= k < |r.value| ==> IsDigit(r.value[k])
  {
    match FindFirst(LongerThanMatch(lq), 0, |lq|)
    case None => None
    case Some(i) =>
      var t := lq[i + |LongerThan|..];
      Some(t[..SpanLength(t, IsDigit)])
  }

  /** `/contain[s]? [a-zA-Z]/` matches at position `i` of `lq`. */
  predicate ContainAt(lq: string, i: nat) {
    && OccursAt(lq, "contain", i)
    && (|| (i + 9 <= |lq| && lq[i + 7] == ' ' && IsAsciiLetter(lq[i + 8]))
        || (i + 10 <= |lq| && lq[i + 7] == 's' && lq[i + 8] == ' ' && IsAsciiLetter(lq[i + 9])))
  }

  predicate ContainRule(lq: string) {
    exists i: nat :: i < |lq| && ContainAt(lq, i)
  }

  /**
   * `/with.*letter [a-zA-Z]/` matches from `with` at `i` to `letter ` at `j`:
   * `.` crosses no line terminator.
   */
  predicate WithLetterAt(lq: string, i: nat, j: nat) {
    && OccursAt(lq, "with", i)
    && i + 4 <= j
    && OccursAt(lq, "letter ", j)
    && j + 7 < |lq|
    && IsAsciiLetter(lq[j + 7])
    && forall k :: i + 4 <= k < j ==> !IsLineTerminator(lq[k])
  }

  predicate WithLetterRule(lq: string) {
    exists i: nat, j: nat :: i <= j < |lq| && WithLetterAt(lq, i, j)
  }

  /** `/[a-zA-Z](?=\s|$)/` matches at `i`: a letter followed by whitespace or the end. */
  predicate StandaloneLetterAt(lq: string, i: nat) {
    i < |lq| && IsAsciiLetter(lq[i]) && (i + 1 == |lq| || IsSpace(lq[i + 1]))
  }

  function StandaloneLetter(lq: string): nat -> bool {
    (i: nat) => StandaloneLetterAt(lq, i)
  }

  /** `is_palindrome`: the query mentions "palindrome". */
  function PalindromeFilter(lq: string): Option<bool> {
    if Includes(lq, "palindrome") then Some(true) else None
  }

  /** `word_count`: the query mentions "single word". */
  function WordCountFilter(lq: string): Option<int> {
    if Includes(lq, "single word") then Some(1) else None
  }

  /** `min_length`: one more than the number `parseInt` reads from the captured digits. */
  function MinLengthFilter(lq: string): Option<int> {
    match LongerThanDigits(lq)
    case None => None
    case Some(d) => Some(NumeralValue(d, 10) + 1)
  }

  /** `contains_character`: on a containment phrase, the first standalone letter. */
  function CharacterFilter(lq: string): Option<string> {
    if ContainRule(lq) || WithLetterRule(lq) then
      match FindFirst(StandaloneLetter(lq), 0, |lq|)
      case None => None
      case Some(i) => Some([lq[i]])
    else None
  }

  /** The filters the rules read from the lowercased query `lq`. */
  function Interpret(lq: string): Criteria {
    Criteria(PalindromeFilter(lq), MinLengthFilter(lq), None, WordCountFilter(lq), CharacterFilter(lq))
  }

  /** `parseInt(digits) + 1` for the captured run of digits. */
  method OneMoreThan(digits: string) returns (m: int)
    requires digits != [] && forall k :: 0 <= k < |digits| ==> IsDigit(digits[k])
    ensures m == NumeralValue(digits, 10) + 1
  {
    var n := ParseInt(digits);
    ParseDigitRun(digits);
    m := n.value + 1;
  }

  /** The 400 response for a missing or empty `query`. */
  datatype NlError = QueryRequired

  /** The body of a successful answer: the records and `interpreted_query`. */
  datatype NlListing = NlListing(data: seq<Record>, count: nat, original: string, parsedFilters: Criteria)

  /** The `filters` object, built one rule at a time from the lowercased query. */
  method ParseQuery(lq: string) returns (filters: Criteria)
    ensures filters == Interpret(lq)
  {
    filters := NoCriteria;
    if Includes(lq, "palindrome") {
      filters := filters.(isPalindrome := Some(true));
    }
    if Includes(lq, "single word") {
      filters := filters.(wordCount := Some(1));
    }
    var longer := LongerThanDigits(lq);
    if longer.Some? {
      var minLength := OneMoreThan(longer.value);
      filters := filters.(minLength := Some(minLength));
    }
    assert filters == NoCriteria.(isPalindrome := PalindromeFilter(lq), wordCount := WordCountFilter(lq), minLength := MinLengthFilter(lq));
    if ContainRule(lq) || WithLetterRule(lq) {
      var found := FindFirst(StandaloneLetter(lq), 0, |lq|);
      if found.Some? {
        filters := filters.(containsCharacter := Some([lq[found.value]]));
      }
    }
  }

  /** The parsed filters applied in the order palindrome, word count, minimum length, character. */
  method ApplyParsed(all: seq<Record>, filters: Criteria) returns (matched: seq<Record>)
    requires filters.maxLength == None
    ensures matched == Select(all, filters)
  {
    matched := all;
    ghost var c := NoCriteria;
    SelectNoCriteria(all);
    if filters.isPalindrome.Some? {
      NarrowByPalindrome(all, c, filters.isPalindrome.value);
      matched := Keep(matched, PalindromeIs(filters.isPalindrome.value));
      c := c.(isPalindrome := filters.isPalindrome);
    }
    if filters.wordCount.Some? {
      NarrowByWordCount(all, c, filters.wordCount.value);
      matched := Keep(matched, WordCountIs(filters.wordCount.value));
      c := c.(wordCount := filters.wordCount);
    }
    if filters.minLength.Some? {
      NarrowByMinLength(all, c, filters.minLength.value);
      matched := Keep(matched, LengthAtLeast(filters.minLength.value));
      c := c.(minLength := filters.minLength);
    }
    if filters.containsCharacter.Some? {
      NarrowByCharacter(all, c, filters.containsCharacter.value);
      matched := Keep(matched, ValueIncludes(filters.containsCharacter.value));
      c := c.(containsCharacter := filters.containsCharacter);
    }
    assert c == filters;
  }

  /**
   * GET /strings/filter-by-natural-language with parameter `query`: a
   * missing or empty query is refused, anything else is lowercased,
   * interpreted and applied to `Object.values(strings)`.
   */
  method FilterByNaturalLanguage(store: Store, query: Option<string>) returns (r: Result<NlListing, NlError>)
    requires store.Valid()
    ensures r.Failure? <==> query == None || query == Some("")
    ensures r.Success? ==>
      var filters := Interpret(Lower(query.value));
      && r.value.parsedFilters == filters
      && r.value.original == query.value
      && r.value.data == Select(store.Records(), filters)
      && r.value.count == |r.value.data|
  {
    if query == None || query == Some("") {
      return Failure(QueryRequired);
    }
    var lq := Lower(query.value);
    var filters := ParseQuery(lq);
    var all := store.Records();
    var matched := ApplyParsed(all, filters);
    r := Success(NlListing(matched, |matched|, query.value, filters));
  }

  /** No maximum length is ever read from a query. */
  lemma NeverMaxLength(lq: string)
    ensures Interpret(lq).maxLength == None
  {
  }

  /**
   * `min_length` is set exactly when `longer than` is followed by a digit
   * somewhere in the query.
   */
  lemma MinLengthWhenLongerThan(lq: string)
    ensures MinLengthFilter(lq).Some? <==> exists i: nat :: i < |lq| && LongerThanAt(lq, i)
  {
    var p := LongerThanMatch(lq);
    if FindFirst(p, 0, |lq|).None? {
      forall i: nat | i < |lq|
        ensures !LongerThanAt(lq, i)
      {
        assert !p(i);
      }
    } else {
      assert p(FindFirst(p, 0, |lq|).value);
    }
  }

  /**
   * When set, `min_length` is one more than the value of the whole run of
   * digits after the leftmost `longer than `.
   */
  lemma MinLengthIsStrictlyLonger(lq: string)
    requires MinLengthFilter(lq).Some?
    ensures exists i: nat, d: string ::
      && LongerThanAt(lq, i)
      && (forall j: nat :: j < i ==> !LongerThanAt(lq, j))
      && i + |LongerThan| + |d| <= |lq|
      && d == lq[i + |LongerThan|..i + |LongerThan| + |d|]
      && d != [] && (forall k :: 0 <= k < |d| ==> IsDigit(d[k]))
      && (i + |LongerThan| + |d| == |lq| || !IsDigit(lq[i + |LongerThan| + |d|]))
      && MinLengthFilter(lq).value == NumeralValue(d, 10) + 1
  {
    var p := LongerThanMatch(lq);
    var i := FindFirst(p, 0, |lq|).value;
    var t := lq[i + |LongerThan|..];
    var d := t[..SpanLength(t, IsDigit)];
    assert LongerThanAt(lq, i) by {
      assert p(i);
    }
    forall j: nat | j < i
      ensures !LongerThanAt(lq, j)
    {
      assert !p(j);
    }
    assert d == lq[i + |LongerThan|..i + |LongerThan| + |d|];
    if i + |LongerThan| + |d| < |lq| {
      assert lq[i + |LongerThan| + |d|] == t[|d|];
    }
  }

  /**
   * `contains_character` is set exactly when a containment phrase matches and
   * some letter stands before whitespace or the end.
   */
  lemma CharacterWhenPhraseAndLetter(lq: string)
    ensures CharacterFilter(lq).Some? <==>
      (ContainRule(lq) || WithLetterRule(lq)) && exists i: nat :: StandaloneLetterAt(lq, i)
  {
    var p := StandaloneLetter(lq);
    if FindFirst(p, 0, |lq|).None? {
      forall i: nat
        ensures !StandaloneLetterAt(lq, i)
      {
        if i < |lq| {
          assert !p(i);
        }
      }
    } else {
      assert p(FindFirst(p, 0, |lq|).value);
    }
  }

  /**
   * When set, `contains_character` is the first letter followed by
   * whitespace or the end, wherever it stands in the query.
   */
  lemma CharacterIsFirstStandaloneLetter(lq: string)
    requires CharacterFilter(lq).Some?
    ensures exists i: nat ::
      && StandaloneLetterAt(lq, i)
      && (forall j: nat :: j < i ==> !StandaloneLetterAt(lq, j))
      && CharacterFilter(lq).value == [lq[i]]
  {
    var p := StandaloneLetter(lq);
    var i := FindFirst(p, 0, |lq|).value;
    assert StandaloneLetterAt(lq, i) by {
      assert p(i);
    }
    forall j: nat | j < i
      ensures !StandaloneLetterAt(lq, j)
    {
      assert !p(j);
    }
  }

  /** When no rule fires the filter set is empty and every stored record is listed. */
  lemma NoRuleListsAll(lq: string, all: seq<Record>)
    requires !Includes(lq, "palindrome") && !Includes(lq, "single word")
    requires forall i: nat :: i < |lq| ==> !LongerThanAt(lq, i)
    requires !ContainRule(lq) && !WithLetterRule(lq)
    ensures Interpret(lq) == NoCriteria
    ensures Select(all, Interpret(lq)) == all
  {
    var p := LongerThanMatch(lq);
    assert forall i: nat :: i < |lq| ==> !p(i);
    SelectNoCriteria(all);
  }

  const PalindromesQuery := "palindromes longer than 5"
  const LetterQuery := "strings that contain the letter a"
  const GibberishQuery := "gibberish xyz"

  /** The example queries are already lowercase, so they are interpreted as written. */
  lemma ExamplesAreLowercase(q: string)
    requires q == PalindromesQuery || q == LetterQuery || q == GibberishQuery
    ensures Lower(q) == q
  {
    LowerUnchanged(q);
  }

  lemma PalindromesQueryLongerThanAt()
    ensures FindFirst(LongerThanMatch(PalindromesQuery), 0, |PalindromesQuery|) == Some(12)
  {
    var lq := PalindromesQuery;
    var p := LongerThanMatch(lq);
    forall r: nat | r < 12
      ensures !p(r)
    {
      assert lq[r] != 'l' || lq[r + 1] != 'o';
      assert lq[r..r + 12][0] == lq[r] && lq[r..r + 12][1] == lq[r + 1];
    }
    OccursAtByChars(lq, LongerThan, 12);
    assert p(12);
  }

  lemma PalindromesQueryFilters()
    ensures PalindromeFilter(PalindromesQuery) == Some(true)
    ensures WordCountFilter(PalindromesQuery) == None
    ensures MinLengthFilter(PalindromesQuery) == Some(6)
    ensures CharacterFilter(PalindromesQuery) == None
  {
    var lq := PalindromesQuery;
    assert OccursAt(lq, "palindrome", 0);
    NotIncludes(lq, "single word", 7);
    PalindromesQueryLongerThanAt();
    var t := lq[24..];
    assert t == "5";
    assert SpanLength(t, IsDigit) == 1;
    NotIncludes(lq, "contain", 0);
    NotIncludes(lq, "with", 0);
  }

  /**
   * "palindromes longer than 5" asks for palindromes
   * of length 6 or more.
   */
  lemma PalindromesLongerThanFive()
    ensures Interpret(PalindromesQuery) == Criteria(Some(true), Some(6), None, None, None)
  {
    PalindromesQueryFilters();
  }

  lemma LetterQueryFirstStandalone()
    ensures FindFirst(StandaloneLetter(LetterQuery), 0, |LetterQuery|) == Some(6)
  {
    var lq := LetterQuery;
    var p := StandaloneLetter(lq);
    forall r: nat | r < 6
      ensures !p(r)
    {
      assert IsAsciiLetter(lq[r + 1]);
    }
    assert p(6);
  }

  /**
   * "strings that contain the letter a" asks for the letter `s`: the last
   * letter of "strings" is the first one followed by a space.
   */
  lemma ContainTheLetterPicksFirstStandalone()
    ensures Interpret(LetterQuery).containsCharacter == Some("s")
  {
    var lq := LetterQuery;
    assert OccursAt(lq, "contain", 13) && ContainAt(lq, 13);
    LetterQueryFirstStandalone();
  }

  lemma GibberishFilters()
    ensures Interpret(GibberishQuery) == NoCriteria
  {
    var lq := GibberishQuery;
    NotIncludes(lq, "palindrome", 0);
    NotIncludes(lq, "single word", 7);
    NotIncludes(lq, "contain", 1);
    NotIncludes(lq, "with", 0);
    var p := LongerThanMatch(lq);
    NotIncludes(lq, LongerThan, 0);
    forall i: nat | i < |lq|
      ensures !p(i)
    {
      assert !OccursAt(lq, LongerThan, i);
    }
  }

  /** "gibberish xyz" fires no rule, so it lists every stored record. */
  lemma GibberishListsAll(all: seq<Record>)
    ensures Interpret(GibberishQuery) == NoCriteria
    ensures Select(all, Interpret(GibberishQuery)) == all
  {
    GibberishFilters();
    SelectNoCriteria(all);
  }
}
