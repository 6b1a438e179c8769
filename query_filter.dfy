/**
 * GET /strings: the stored records narrowed by the query parameters
 * `is_palindrome`, `min_length`, `max_length`, `word_count` and
 * `contains_character`, each applied as one more order-preserving filter.
 * The criteria themselves, and the selection they make, are shared with the
 * natural-language endpoint.
 */
module QueryFilter {
  import opened Base
  import opened JsText
  import opened Analyzer
  import opened StringStore

  /** The filters in force; `None` means the filter is not applied. */
  datatype Criteria = Criteria(
    isPalindrome: Option<bool>,
    minLength: Option<int>,
    maxLength: Option<int>,
    wordCount: Option<int>,
    containsCharacter: Option<string>)

  const NoCriteria := Criteria(None, None, None, None, None)

  /** `rec` passes every filter that `c` applies. */
  predicate Satisfies(rec: Record, c: Criteria) {
    && (c.isPalindrome.Some? ==> rec.properties.isPalindrome == c.isPalindrome.value)
    && (c.minLength.Some? ==> rec.properties.length >= c.minLength.value)
    && (c.maxLength.Some? ==> rec.properties.length <= c.maxLength.value)
    && (c.wordCount.Some? ==> rec.properties.wordCount == c.wordCount.value)
    && (c.containsCharacter.Some? ==> Includes(rec.value, c.containsCharacter.value))
  }

  /** `Array.prototype.filter`: the elements of `s` that pass `p`, in their order. */
  function Keep<T(!new)>(s: seq<T>, p: T -> bool): (r: seq<T>)
    ensures |r| <= |s|
    ensures forall x :: x in r <==> x in s && p(x)
    ensures (forall i :: 0 <= i < |s| ==> p(s[i])) ==> r == s
  {
    if s == [] then []
    else if p(s[0]) then [s[0]] + Keep(s[1..], p)
    else Keep(s[1..], p)
  }

  /** Filtering keeps order: it distributes over concatenation. */
  lemma {:induction false} KeepAppend<T(!new)>(a: seq<T>, b: seq<T>, p: T -> bool)
    ensures Keep(a + b, p) == Keep(a, p) + Keep(b, p)
  {
    if a == [] {
      assert a + b == b;
    } else {
      assert (a + b)[1..] == a[1..] + b;
      KeepAppend(a[1..], b, p);
    }
  }

  /** Two filters in a row are one filter by the conjunction. */
  lemma {:induction false} KeepKeep<T(!new)>(s: seq<T>, p: T -> bool, q: T -> bool, both: T -> bool)
    requires forall x :: both(x) == (p(x) && q(x))
    ensures Keep(Keep(s, p), q) == Keep(s, both)
  {
    if s != [] {
      KeepKeep(s[1..], p, q, both);
    }
  }

  /** The records of `s` that satisfy `c`, in order. */
  function Select(s: seq<Record>, c: Criteria): seq<Record> {
    Keep(s, rec => Satisfies(rec, c))
  }

  /** Exactly the records satisfying every criterion are selected. */
  lemma SelectExactly(s: seq<Record>, c: Criteria)
    ensures forall rec :: rec in Select(s, c) <==> rec in s && Satisfies(rec, c)
    ensures |Select(s, c)| <= |s|
  {
  }

  /** With no criteria every record is selected. */
  lemma SelectNoCriteria(s: seq<Record>)
    ensures Select(s, NoCriteria) == s
  {
  }

  /** Narrowing a selection by `p` is the selection by the criteria `c'` that add `p` to `c`. */
  lemma SelectThenKeep(s: seq<Record>, c: Criteria, p: Record -> bool, c': Criteria)
    requires forall rec :: Satisfies(rec, c') == (Satisfies(rec, c) && p(rec))
    ensures Keep(Select(s, c), p) == Select(s, c')
  {
    KeepKeep(s, rec => Satisfies(rec, c), p, rec => Satisfies(rec, c'));
  }

  /** The single filters, as the callbacks handed to `filter`. */
  function PalindromeIs(want: bool): Record -> bool {
    (rec: Record) => rec.properties.isPalindrome == want
  }

  function LengthAtLeast(m: int): Record -> bool {
    (rec: Record) => rec.properties.length >= m
  }

  function LengthAtMost(m: int): Record -> bool {
    (rec: Record) => rec.properties.length <= m
  }

  function WordCountIs(w: int): Record -> bool {
    (rec: Record) => rec.properties.wordCount == w
  }

  function ValueIncludes(ch: string): Record -> bool {
    (rec: Record) => Includes(rec.value, ch)
  }

  /** Each single filter, applied after the criteria `c`, adds its criterion to `c`. */
  lemma NarrowByPalindrome(s: seq<Record>, c: Criteria, want: bool)
    requires c.isPalindrome.None?
    ensures Keep(Select(s, c), PalindromeIs(want)) == Select(s, c.(isPalindrome := Some(want)))
  {
    SelectThenKeep(s, c, PalindromeIs(want), c.(isPalindrome := Some(want)));
  }

  lemma NarrowByMinLength(s: seq<Record>, c: Criteria, m: int)
    requires c.minLength.None?
    ensures Keep(Select(s, c), LengthAtLeast(m)) == Select(s, c.(minLength := Some(m)))
  {
    SelectThenKeep(s, c, LengthAtLeast(m), c.(minLength := Some(m)));
  }

  lemma NarrowByMaxLength(s: seq<Record>, c: Criteria, m: int)
    requires c.maxLength.None?
    ensures Keep(Select(s, c), LengthAtMost(m)) == Select(s, c.(maxLength := Some(m)))
  {
    SelectThenKeep(s, c, LengthAtMost(m), c.(maxLength := Some(m)));
  }

  lemma NarrowByWordCount(s: seq<Record>, c: Criteria, w: int)
    requires c.wordCount.None?
    ensures Keep(Select(s, c), WordCountIs(w)) == Select(s, c.(wordCount := Some(w)))
  {
    SelectThenKeep(s, c, WordCountIs(w), c.(wordCount := Some(w)));
  }

  lemma NarrowByCharacter(s: seq<Record>, c: Criteria, ch: string)
    requires c.containsCharacter.None?
    ensures Keep(Select(s, c), ValueIncludes(ch)) == Select(s, c.(containsCharacter := Some(ch)))
  {
    SelectThenKeep(s, c, ValueIncludes(ch), c.(containsCharacter := Some(ch)));
  }

  /** The 400 responses of GET /strings, one per malformed parameter. */
  datatype FilterError =
    | MinLengthNotNumber
    | MaxLengthNotNumber
    | WordCountNotNumber
    | ContainsCharacterNotSingle

  /** The parameters GET /strings reads. */
  const FilterNames: set<string> := {"is_palindrome", "min_length", "max_length", "word_count", "contains_character"}

  /** The parameters that can be malformed, in the order they are checked. */
  const CheckedNames: seq<string> := ["min_length", "max_length", "word_count", "contains_character"]

  /** Parameter `name` is present and its value is rejected. */
  predicate Malformed(q: map<string, string>, name: string) {
    name in q && if name == "contains_character" then |q[name]| != 1 else ParseInt(q[name]).None?
  }

  /** The error that names parameter `name`. */
  function ErrorFor(name: string): FilterError {
    if name == "min_length" then MinLengthNotNumber
    else if name == "max_length" then MaxLengthNotNumber
    else if name == "word_count" then WordCountNotNumber
    else ContainsCharacterNotSingle
  }

  /** `is_palindrome`: present and exactly `true`, present and anything else, or absent. */
  function Palindrome(q: map<string, string>): Option<bool> {
    if "is_palindrome" in q then Some(q["is_palindrome"] == "true") else None
  }

  /** `parseInt(q[name])` when the parameter is present and numeric. */
  function Number(q: map<string, string>, name: string): Option<int> {
    if name in q then ParseInt(q[name]) else None
  }

  /** `contains_character` as given. */
  function Character(q: map<string, string>): Option<string> {
    if "contains_character" in q then Some(q["contains_character"]) else None
  }

  /** The criteria the query parameters `q` ask for, or the first error among them. */
  function ParseCriteria(q: map<string, string>): Result<Criteria, FilterError> {
    if Malformed(q, "min_length") then Failure(MinLengthNotNumber)
    else if Malformed(q, "max_length") then Failure(MaxLengthNotNumber)
    else if Malformed(q, "word_count") then Failure(WordCountNotNumber)
    else if Malformed(q, "contains_character") then Failure(ContainsCharacterNotSingle)
    else
      Success(Criteria(
        Palindrome(q),
        Number(q, "min_length"),
        Number(q, "max_length"),
        Number(q, "word_count"),
        Character(q)))
  }

  /** Position `i` of the checking order holds a malformed parameter. */
  function MalformedAt(q: map<string, string>): nat -> bool {
    (i: nat) => i < |CheckedNames| && Malformed(q, CheckedNames[i])
  }

  /** The position of the first malformed parameter in checking order, if any. */
  function FirstMalformed(q: map<string, string>): Option<nat> {
    FindFirst(MalformedAt(q), 0, |CheckedNames|)
  }

  /**
   * The request fails exactly when some checked parameter is malformed, and
   * then the error names the first malformed one in checking order.
   */
  lemma ErrorIsFirstMalformed(q: map<string, string>)
    ensures ParseCriteria(q).Failure? <==> FirstMalformed(q).Some?
    ensures FirstMalformed(q).Some? ==> ParseCriteria(q).error == ErrorFor(CheckedNames[FirstMalformed(q).value])
  {
    var first := FirstMalformed(q);
    var p := MalformedAt(q);
    if first.Some? {
      var i := first.value;
      assert p(i);
      assert i == 0 || i == 1 || i == 2 || i == 3;
      if i >= 1 { assert !p(0); }
      if i >= 2 { assert !p(1); }
      if i >= 3 { assert !p(2); }
    } else {
      assert !p(0) && !p(1) && !p(2) && !p(3);
    }
  }

  /**
   * On success every present parameter is in force: a numeric one with the
   * value `parseInt` reads, `is_palindrome` as "is it exactly `true`", and an
   * absent one not at all.
   */
  lemma CriteriaFromParameters(q: map<string, string>)
    requires ParseCriteria(q).Success?
    ensures var c := ParseCriteria(q).value;
      && (c.isPalindrome.Some? <==> "is_palindrome" in q)
      && (c.isPalindrome == Some(true) <==> "is_palindrome" in q && q["is_palindrome"] == "true")
      && (c.minLength.Some? <==> "min_length" in q)
      && (c.maxLength.Some? <==> "max_length" in q)
      && (c.wordCount.Some? <==> "word_count" in q)
      && (c.minLength.Some? ==> Some(c.minLength.value) == ParseInt(q["min_length"]))
      && (c.maxLength.Some? ==> Some(c.maxLength.value) == ParseInt(q["max_length"]))
      && (c.wordCount.Some? ==> Some(c.wordCount.value) == ParseInt(q["word_count"]))
      && (c.containsCharacter.Some? <==> "contains_character" in q)
      && (c.containsCharacter.Some? ==> c.containsCharacter.value == q["contains_character"])
      && (c.containsCharacter.Some? ==> |c.containsCharacter.value| == 1)
  {
  }

  /** The raw value of each parameter of `names` that was given. */
  function Given(q: map<string, string>, names: set<string>): (e: map<string, string>)
    ensures forall k :: k in e <==> k in q && k in names
    ensures forall k :: k in e ==> e[k] == q[k]
  {
    map k | k in q && k in names :: q[k]
  }

  /** Copying one more parameter, when it was given. */
  lemma GivenAdd(q: map<string, string>, names: set<string>, k: string)
    ensures Given(q, names + {k}) == if k in q then Given(q, names)[k := q[k]] else Given(q, names)
  {
  }

  /** `filters_applied`: the raw value of each filter parameter that was given. */
  function Echo(q: map<string, string>): map<string, string> {
    Given(q, FilterNames)
  }

  /** The body of a successful GET /strings. */
  datatype Listing = Listing(data: seq<Record>, count: nat, filtersApplied: map<string, string>)

  /**
   * The filtering half of GET /strings: each parameter present narrows
   * `matched` by one more `filter`; a malformed one stops with its error.
   */
  method ApplyFilters(all: seq<Record>, q: map<string, string>) returns (r: Result<Criteria, FilterError>, matched: seq<Record>)
    ensures r == ParseCriteria(q)
    ensures r.Success? ==> matched == Select(all, r.value)
  {
    matched := all;
    var c := NoCriteria;
    SelectNoCriteria(all);
    if "is_palindrome" in q {
      var want := q["is_palindrome"] == "true";
      NarrowByPalindrome(all, c, want);
      matched := Keep(matched, PalindromeIs(want));
      c := c.(isPalindrome := Some(want));
    }
    if "min_length" in q {
      var minLen := ParseInt(q["min_length"]);
      if minLen.None? {
        return Failure(MinLengthNotNumber), [];
      }
      NarrowByMinLength(all, c, minLen.value);
      matched := Keep(matched, LengthAtLeast(minLen.value));
      c := c.(minLength := minLen);
    }
    if "max_length" in q {
      var maxLen := ParseInt(q["max_length"]);
      if maxLen.None? {
        return Failure(MaxLengthNotNumber), [];
      }
      NarrowByMaxLength(all, c, maxLen.value);
      matched := Keep(matched, LengthAtMost(maxLen.value));
      c := c.(maxLength := maxLen);
    }
    if "word_count" in q {
      var wordCount := ParseInt(q["word_count"]);
      if wordCount.None? {
        return Failure(WordCountNotNumber), [];
      }
      NarrowByWordCount(all, c, wordCount.value);
      matched := Keep(matched, WordCountIs(wordCount.value));
      c := c.(wordCount := wordCount);
    }
    if "contains_character" in q {
      var ch := q["contains_character"];
      if |ch| != 1 {
        return Failure(ContainsCharacterNotSingle), [];
      }
      NarrowByCharacter(all, c, ch);
      matched := Keep(matched, ValueIncludes(ch));
      c := c.(containsCharacter := Some(ch));
    }
    r := Success(c);
  }

  /** The `filtersApplied` object, one field per parameter present. */
  method FiltersApplied(q: map<string, string>) returns (applied: map<string, string>)
    ensures applied == Echo(q)
  {
    applied := map[];
    ghost var names: set<string> := {};
    if "is_palindrome" in q {
      applied := applied["is_palindrome" := q["is_palindrome"]];
    }
    GivenAdd(q, names, "is_palindrome");
    names := names + {"is_palindrome"};
    assert applied == Given(q, names);
    if "min_length" in q {
      applied := applied["min_length" := q["min_length"]];
    }
    GivenAdd(q, names, "min_length");
    names := names + {"min_length"};
    assert applied == Given(q, names);
    if "max_length" in q {
      applied := applied["max_length" := q["max_length"]];
    }
    GivenAdd(q, names, "max_length");
    names := names + {"max_length"};
    assert applied == Given(q, names);
    if "word_count" in q {
      applied := applied["word_count" := q["word_count"]];
    }
    GivenAdd(q, names, "word_count");
    names := names + {"word_count"};
    assert applied == Given(q, names);
    if "contains_character" in q {
      applied := applied["contains_character" := q["contains_character"]];
    }
    GivenAdd(q, names, "contains_character");
    names := names + {"contains_character"};
    assert names == FilterNames;
  }

  /**
   * GET /strings with query parameters `q`, on `Object.values(strings)`.
   */
  method FilterStrings(store: Store, q: map<string, string>) returns (r: Result<Listing, FilterError>)
    requires store.Valid()
    ensures r.Failure? <==> ParseCriteria(q).Failure?
    ensures r.Failure? ==> r.error == ParseCriteria(q).error
    ensures r.Success? ==>
      && r.value.data == Select(store.Records(), ParseCriteria(q).value)
      && r.value.count == |r.value.data|
      && r.value.filtersApplied == Echo(q)
  {
    var all := store.Records();
    var criteria, matched := ApplyFilters(all, q);
    if criteria.Failure? {
      return Failure(criteria.error);
    }
    var applied := FiltersApplied(q);
    r := Success(Listing(matched, |matched|, applied));
  }

  /**
   * Without any filter parameter GET /strings lists every stored record,
   * oldest first, `count` is the number stored and nothing is echoed.
   */
  lemma NoFiltersListsAll(q: map<string, string>, all: seq<Record>)
    requires forall k :: k in FilterNames ==> k !in q
    ensures ParseCriteria(q) == Success(NoCriteria)
    ensures Select(all, ParseCriteria(q).value) == all
    ensures Echo(q) == map[]
  {
    assert Echo(q) == map[];
    SelectNoCriteria(all);
  }
}
