/**
 * `analyzeString` (app.js): the properties record computed for a stored string.
 * Strings are sequences of code points; `length` counts them.
 */
module Analyzer {
  import opened JsText

  /** The `properties` object of a stored string. */
  datatype Properties = Properties(
    length: nat,
    isPalindrome: bool,
    uniqueCharacters: nat,
    wordCount: nat,
    sha256Hash: string,
    characterFrequencyMap: map<char, nat>)

  // ---------------------------------------------------------------- palindrome

  /** `[a-z0-9]`. */
  predicate IsLowerAlnum(c: char) { 'a' <= c <= 'z' || '0' <= c <= '9' }

  /** `replace(/[^a-z0-9]/g, '')`: keeps the characters in `[a-z0-9]`, in order. */
  function KeepLowerAlnum(s: string): (r: string)
    ensures |r| <= |s|
    ensures forall i :: 0 <= i < |r| ==> IsLowerAlnum(r[i])
    ensures forall c :: c in r <==> c in s && IsLowerAlnum(c)
  {
    if s == [] then []
    else (if IsLowerAlnum(s[0]) then [s[0]] else []) + KeepLowerAlnum(s[1..])
  }

  /** The text the palindrome test compares: lowercased, then only `[a-z0-9]` kept. */
  function Normalized(text: string): string {
    KeepLowerAlnum(Lower(text))
  }

  /** `split('').reverse().join('')`. */
  function Reverse(s: string): (r: string)
    ensures |r| == |s|
    ensures forall i :: 0 <= i < |s| ==> r[i] == s[|s| - 1 - i]
  {
    if s == [] then [] else Reverse(s[1..]) + [s[0]]
  }

  /** `is_palindrome`: the normalized text equals its own reversal. */
  predicate IsPalindrome(text: string) {
    var clean := Normalized(text);
    clean == Reverse(clean)
  }

  /** The palindrome test reads the normalized text the same from both ends. */
  lemma PalindromeIsMirror(text: string)
    ensures var c := Normalized(text);
      IsPalindrome(text) <==> forall i :: 0 <= i < |c| ==> c[i] == c[|c| - 1 - i]
  {
    var c := Normalized(text);
    if forall i :: 0 <= i < |c| ==> c[i] == c[|c| - 1 - i] {
      assert forall i :: 0 <= i < |c| ==> c[i] == Reverse(c)[i];
    }
  }

  lemma {:induction false} KeepAppend(a: string, b: string)
    ensures KeepLowerAlnum(a + b) == KeepLowerAlnum(a) + KeepLowerAlnum(b)
  {
    if a != [] {
      assert (a + b)[1..] == a[1..] + b;
      KeepAppend(a[1..], b);
    } else {
      assert a + b == b;
    }
  }

  lemma ReverseAppend(a: string, b: string)
    ensures Reverse(a + b) == Reverse(b) + Reverse(a)
  {
    var l, r := Reverse(a + b), Reverse(b) + Reverse(a);
    assert |l| == |r|;
    forall i | 0 <= i < |l|
      ensures l[i] == r[i]
    {
      if i < |b| {
        assert l[i] == (a + b)[|a| + |b| - 1 - i];
      } else {
        assert l[i] == (a + b)[|a| + |b| - 1 - i];
      }
    }
  }

  lemma ReverseInvolutive(s: string)
    ensures Reverse(Reverse(s)) == s
  {
    assert forall i :: 0 <= i < |s| ==> Reverse(Reverse(s))[i] == s[i];
  }

  lemma {:induction false} KeepReverse(s: string)
    ensures KeepLowerAlnum(Reverse(s)) == Reverse(KeepLowerAlnum(s))
  {
    if s != [] {
      var head := KeepLowerAlnum([s[0]]);
      assert Reverse(s) == Reverse(s[1..]) + [s[0]];
      KeepAppend(Reverse(s[1..]), [s[0]]);
      KeepReverse(s[1..]);
      assert [s[0]] + s[1..] == s;
      KeepAppend([s[0]], s[1..]);
      ReverseAppend(head, KeepLowerAlnum(s[1..]));
      assert |head| <= 1;
      assert Reverse(head) == head;
    }
  }

  lemma LowerReverse(s: string)
    ensures Lower(Reverse(s)) == Reverse(Lower(s))
  {
    assert forall i :: 0 <= i < |s| ==> Lower(Reverse(s))[i] == Reverse(Lower(s))[i];
  }

  /** Reading the text backwards does not change whether it is a palindrome. */
  lemma PalindromeUnderReversal(text: string)
    ensures IsPalindrome(Reverse(text)) == IsPalindrome(text)
  {
    var c := Normalized(text);
    LowerReverse(text);
    KeepReverse(Lower(text));
    assert Normalized(Reverse(text)) == Reverse(c);
    ReverseInvolutive(c);
  }

  /** Case does not matter to the palindrome test: "Anna" and "anna" agree. */
  lemma PalindromeIgnoresCase(text: string)
    ensures IsPalindrome(Lower(text)) == IsPalindrome(text)
  {
    LowerIdempotent(text);
  }

  lemma {:induction false} KeepNone(s: string)
    requires forall i :: 0 <= i < |s| ==> !IsLowerAlnum(s[i])
    ensures KeepLowerAlnum(s) == []
  {
    if s != [] {
      KeepNone(s[1..]);
    }
  }

  /** Text with no letter or digit, the empty text among it, is a palindrome. */
  lemma NoAlnumIsPalindrome(text: string)
    requires forall i :: 0 <= i < |text| ==> !IsLowerAlnum(LowerChar(text[i]))
    ensures IsPalindrome(text)
  {
    KeepNone(Lower(text));
  }

  // ---------------------------------------------------------------- words

  /** Length of the leading run of non-whitespace characters. */
  function WordEnd(s: string): (n: nat)
    ensures n <= |s|
    ensures n < |s| ==> IsSpace(s[n])
  {
    if s == [] || IsSpace(s[0]) then 0 else 1 + WordEnd(s[1..])
  }

  /** Length of the leading run of whitespace characters. */
  function GapEnd(s: string): (n: nat)
    ensures n <= |s|
  {
    if s == [] || !IsSpace(s[0]) then 0 else 1 + GapEnd(s[1..])
  }

  /**
   * `split(/\s+/)`: the pieces between maximal runs of whitespace; a run at
   * either end leaves an empty piece there.
   */
  function SplitOnSpaceRuns(s: string): seq<string>
    decreases |s|
  {
    var i := WordEnd(s);
    if i == |s| then [s]
    else
      var j := i + GapEnd(s[i..]);
      assert IsSpace(s[i..][0]);
      [s[..i]] + SplitOnSpaceRuns(s[j..])
  }

  /** `filter(w => w)`: drops the empty pieces. */
  function NonEmpty(parts: seq<string>): (r: seq<string>)
    ensures forall w :: w in r <==> w in parts && w != []
  {
    if parts == [] then []
    else (if parts[0] != [] then [parts[0]] else []) + NonEmpty(parts[1..])
  }

  /** `text.trim().split(/\s+/).filter(w => w)`. */
  function Words(text: string): seq<string> {
    NonEmpty(SplitOnSpaceRuns(Trim(text)))
  }

  /** `word_count`. */
  function WordCount(text: string): nat {
    |Words(text)|
  }


  /**
   * Reference count of words: the maximal runs of non-whitespace characters.
   * A run starts at a non-whitespace character that opens the text or follows
   * whitespace (`atBoundary`).
   */
  function RunsFrom(s: string, atBoundary: bool): nat {
    if s == [] then 0
    else (if atBoundary && !IsSpace(s[0]) then 1 else 0) + RunsFrom(s[1..], IsSpace(s[0]))
  }

  function Runs(s: string): nat {
    RunsFrom(s, true)
  }

  predicate AllSpace(s: string) {
    forall i :: 0 <= i < |s| ==> IsSpace(s[i])
  }

  predicate NoSpace(s: string) {
    forall i :: 0 <= i < |s| ==> !IsSpace(s[i])
  }

  lemma {:induction false} RunsOfWord(w: string, t: string, b: bool)
    requires w != [] && NoSpace(w)
    ensures RunsFrom(w + t, b) == (if b then 1 else 0) + RunsFrom(t, false)
  {
    assert (w + t)[0] == w[0];
    assert (w + t)[1..] == w[1..] + t;
    if |w| > 1 {
      RunsOfWord(w[1..], t, false);
    }
  }

  lemma {:induction false} RunsAfterSpaces(sp: string, t: string, b: bool)
    requires sp != [] && AllSpace(sp)
    ensures RunsFrom(sp + t, b) == RunsFrom(t, true)
  {
    assert (sp + t)[0] == sp[0];
    assert (sp + t)[1..] == sp[1..] + t;
    if |sp| > 1 {
      RunsAfterSpaces(sp[1..], t, true);
    }
  }

  lemma {:induction false} RunsOfAllSpace(sp: string, b: bool)
    requires AllSpace(sp)
    ensures RunsFrom(sp, b) == 0
  {
    if sp != [] {
      RunsOfAllSpace(sp[1..], true);
    }
  }

  lemma {:induction false} RunsIgnoreTrailingSpace(m: string, sp: string, b: bool)
    requires AllSpace(sp)
    ensures RunsFrom(m + sp, b) == RunsFrom(m, b)
  {
    if m == [] {
      assert m + sp == sp;
      RunsOfAllSpace(sp, b);
    } else {
      assert (m + sp)[0] == m[0];
      assert (m + sp)[1..] == m[1..] + sp;
      RunsIgnoreTrailingSpace(m[1..], sp, IsSpace(m[0]));
    }
  }

  lemma RunsOfTrim(s: string)
    ensures Runs(Trim(s)) == Runs(s)
  {
    var ts := TrimStart(s);
    var lead := s[..|s| - |ts|];
    assert AllSpace(lead);
    if lead != [] {
      RunsAfterSpaces(lead, ts, true);
    } else {
      assert s == ts;
    }
    var te := TrimEnd(ts);
    assert AllSpace(ts[|te|..]);
    RunsIgnoreTrailingSpace(te, ts[|te|..], true);
  }

  lemma NonEmptyCons(w: string, rest: seq<string>)
    ensures NonEmpty([w] + rest) == (if w != [] then [w] else []) + NonEmpty(rest)
  {
    assert ([w] + rest)[1..] == rest;
  }

  /** A word and the whitespace run after it contribute one run, or none when the word is empty. */
  lemma RunsOfPiece(s: string, i: nat, j: nat)
    requires i < j <= |s| && NoSpace(s[..i]) && AllSpace(s[i..j])
    ensures Runs(s) == (if i > 0 then 1 else 0) + Runs(s[j..])
  {
    var sp := s[i..j];
    assert s[i..] == sp + s[j..];
    RunsAfterSpaces(sp, s[j..], i == 0);
    if i > 0 {
      assert s == s[..i] + s[i..];
      RunsOfWord(s[..i], s[i..], true);
    } else {
      assert s == s[i..];
    }
  }

  /** The leading run of non-whitespace holds no whitespace. */
  lemma {:induction false} WordEndSpaceFree(s: string)
    ensures forall k :: 0 <= k < WordEnd(s) ==> !IsSpace(s[k])
  {
    if s != [] && !IsSpace(s[0]) {
      WordEndSpaceFree(s[1..]);
      forall k | 1 <= k < WordEnd(s)
        ensures !IsSpace(s[k])
      {
        assert s[k] == s[1..][k - 1];
      }
    }
  }

  /** The leading run of whitespace is all whitespace. */
  lemma {:induction false} GapEndAllSpace(s: string)
    ensures forall k :: 0 <= k < GapEnd(s) ==> IsSpace(s[k])
  {
    if s != [] && IsSpace(s[0]) {
      GapEndAllSpace(s[1..]);
      forall k | 1 <= k < GapEnd(s)
        ensures IsSpace(s[k])
      {
        assert s[k] == s[1..][k - 1];
      }
    }
  }

  /** One unfolding of the split where a word stops before the end. */
  lemma {:induction false} SplitUnfold(s: string)
    requires WordEnd(s) < |s|
    ensures var i := WordEnd(s);
      var j := i + GapEnd(s[i..]);
      && i < j <= |s|
      && SplitOnSpaceRuns(s) == [s[..i]] + SplitOnSpaceRuns(s[j..])
  {
    var i := WordEnd(s);
    assert IsSpace(s[i..][0]);
  }

  /** The first piece of a split that does not end the text, and the rest. */
  lemma {:induction false} SplitStep(s: string)
    requires WordEnd(s) < |s|
    ensures var i := WordEnd(s);
      var j := i + GapEnd(s[i..]);
      && i < j <= |s|
      && NoSpace(s[..i]) && AllSpace(s[i..j])
      && SplitOnSpaceRuns(s) == [s[..i]] + SplitOnSpaceRuns(s[j..])
  {
    var i := WordEnd(s);
    var n := GapEnd(s[i..]);
    SplitUnfold(s);
    WordEndSpaceFree(s);
    GapEndAllSpace(s[i..]);
    forall k | 0 <= k < i
      ensures !IsSpace(s[..i][k])
    {
      assert s[..i][k] == s[k];
    }
    forall k | 0 <= k < n
      ensures IsSpace(s[i..][..n][k])
    {
      assert s[i..][..n][k] == s[i..][k];
    }
    assert s[i..i + n] == s[i..][..n];
  }

  /** No piece of a split holds whitespace. */
  lemma {:induction false} SplitPiecesSpaceFree(s: string)
    ensures forall w :: w in SplitOnSpaceRuns(s) ==> NoSpace(w)
    decreases |s|
  {
    var i := WordEnd(s);
    if i == |s| {
      WordEndSpaceFree(s);
    } else {
      var j := i + GapEnd(s[i..]);
      var rest := SplitOnSpaceRuns(s[j..]);
      SplitStep(s);
      SplitPiecesSpaceFree(s[j..]);
      forall w | w in [s[..i]] + rest
        ensures NoSpace(w)
      {
        if w != s[..i] {
          assert w in rest;
        }
      }
    }
  }

  /** Every word is non-empty and holds no whitespace. */
  lemma WordsAreSpaceFree(text: string)
    ensures forall w :: w in Words(text) ==> w != [] && NoSpace(w)
  {
    SplitPiecesSpaceFree(Trim(text));
  }

  /** Text without whitespace is one piece, and one run unless it is empty. */
  lemma {:induction false} RunsOfLastPiece(s: string)
    requires WordEnd(s) == |s|
    ensures |NonEmpty(SplitOnSpaceRuns(s))| == Runs(s)
  {
    WordEndSpaceFree(s);
    assert NonEmpty([s]) == (if s != [] then [s] else []) by {
      NonEmptyCons(s, []);
    }
    if s != [] {
      RunsOfWord(s, [], true);
      assert s + [] == s;
    }
  }

  lemma {:induction false} RunsOfSplit(s: string)
    ensures |NonEmpty(SplitOnSpaceRuns(s))| == Runs(s)
    decreases |s|
  {
    var i := WordEnd(s);
    if i == |s| {
      RunsOfLastPiece(s);
    } else {
      var j := i + GapEnd(s[i..]);
      var rest := SplitOnSpaceRuns(s[j..]);
      SplitStep(s);
      calc {
        |NonEmpty(SplitOnSpaceRuns(s))|;
        |NonEmpty([s[..i]] + rest)|;
        { NonEmptyCons(s[..i], rest); }
        |(if s[..i] != [] then [s[..i]] else [])| + |NonEmpty(rest)|;
        { RunsOfSplit(s[j..]); }
        (if i > 0 then 1 else 0) + Runs(s[j..]);
        { RunsOfPiece(s, i, j); }
        Runs(s);
      }
    }
  }

  /** `word_count` is the number of maximal runs of non-whitespace characters. */
  lemma WordCountIsRuns(text: string)
    ensures WordCount(text) == Runs(text)
  {
    RunsOfSplit(Trim(text));
    RunsOfTrim(text);
  }

  lemma {:induction false} RunsZeroIffAllSpace(s: string)
    ensures Runs(s) == 0 <==> AllSpace(s)
  {
    if s != [] {
      RunsZeroIffAllSpace(s[1..]);
      if IsSpace(s[0]) {
        assert AllSpace(s) <==> AllSpace(s[1..]);
      }
    }
  }

  /** `word_count` is 0 exactly for empty or whitespace-only text. */
  lemma WordCountZeroIffBlank(text: string)
    ensures WordCount(text) == 0 <==> forall i :: 0 <= i < |text| ==> IsSpace(text[i])
  {
    WordCountIsRuns(text);
    RunsZeroIffAllSpace(text);
  }

  // ---------------------------------------------------------------- characters

  /** `new Set([...text]).size`: the number of distinct code points. */
  function UniqueCharacters(text: string): nat {
    |set c | c in text|
  }

  /** The `character_frequency_map` the loop in `analyzeString` builds: each code point to its count. */
  ghost function FrequencyMap(text: string): map<char, nat> {
    map c | c in text :: multiset(text)[c]
  }

  /** Adding one character to the text bumps its count, starting from 0. */
  lemma FrequencyMapSnoc(s: string, c: char)
    ensures FrequencyMap(s + [c]) ==
      FrequencyMap(s)[c := (if c in FrequencyMap(s) then FrequencyMap(s)[c] else 0) + 1]
  {
    var l, r := FrequencyMap(s + [c]), FrequencyMap(s)[c := (if c in FrequencyMap(s) then FrequencyMap(s)[c] else 0) + 1];
    assert multiset(s + [c]) == multiset(s) + multiset{c};
    forall x
      ensures x in l <==> x in r
    {
      assert x in s + [c] <==> x in s || x == c;
    }
    forall x | x in l
      ensures l[x] == r[x]
    {
      if x != c {
        assert x in s;
      } else if c !in s {
        assert multiset(s)[c] == 0;
      }
    }
  }

  /**
   * The loop of `analyzeString` that builds `character_frequency_map`:
   * `freq[c] = (freq[c] || 0) + 1` for every code point in turn.
   */
  method CharacterFrequency(text: string) returns (freq: map<char, nat>)
    ensures freq == FrequencyMap(text)
  {
    freq := map[];
    for i := 0 to |text|
      invariant freq == FrequencyMap(text[..i])
    {
      var c := text[i];
      FrequencyMapSnoc(text[..i], c);
      assert text[..i + 1] == text[..i] + [c];
      freq := freq[c := (if c in freq then freq[c] else 0) + 1];
    }
    assert text[..|text|] == text;
  }

  /** Sum of the counts of a frequency map. */
  ghost function TotalCount(m: map<char, nat>): nat
    decreases |m|
  {
    if m == map[] then 0
    else
      var c :| c in m;
      assert |(m - {c}).Keys| < |m.Keys| by {
        assert (m - {c}).Keys == m.Keys - {c};
      }
      m[c] + TotalCount(m - {c})
  }

  /** The sum does not depend on which key is taken first. */
  lemma TotalCountRemove(m: map<char, nat>, c: char)
    requires c in m
    ensures TotalCount(m) == m[c] + TotalCount(m - {c})
    decreases |m|
  {
    var d :| d in m && TotalCount(m) == m[d] + TotalCount(m - {d});
    if d != c {
      assert (m - {d}).Keys == m.Keys - {d};
      TotalCountRemove(m - {d}, c);
      assert (m - {c}).Keys == m.Keys - {c};
      TotalCountRemove(m - {c}, d);
      assert m - {d} - {c} == m - {c} - {d};
    }
  }

  /** The counts of the frequency map add up to the number of code points. */
  lemma {:induction false} FrequencyCountsSumToLength(text: string)
    ensures TotalCount(FrequencyMap(text)) == |text|
    decreases |text|
  {
    if text == [] {
      assert FrequencyMap(text) == map[];
    } else {
      var s, c := text[..|text| - 1], text[|text| - 1];
      assert text == s + [c];
      FrequencyCountsSumToLength(s);
      FrequencyMapSnoc(s, c);
      var m := FrequencyMap(s);
      var m' := FrequencyMap(text);
      TotalCountRemove(m', c);
      assert m' - {c} == m - {c};
      if c in m {
        TotalCountRemove(m, c);
      } else {
        assert m - {c} == m;
      }
    }
  }

  /** `unique_characters` is the number of keys of `character_frequency_map`, each count positive. */
  lemma FrequencyMapKeys(text: string)
    ensures FrequencyMap(text).Keys == set c | c in text
    ensures |FrequencyMap(text)| == UniqueCharacters(text)
    ensures forall c :: c in FrequencyMap(text) ==> FrequencyMap(text)[c] > 0
  {
    assert FrequencyMap(text).Keys == set c | c in text;
  }

  // ---------------------------------------------------------------- analysis

  /** The record `analyzeString(text)` returns; `sha256` is the digest, taken as given. */
  ghost function Analysis(text: string, sha256: string -> string): Properties {
    Properties(|text|, IsPalindrome(text), UniqueCharacters(text), WordCount(text), sha256(text), FrequencyMap(text))
  }

  /** `analyzeString`. */
  method AnalyzeString(text: string, sha256: string -> string) returns (p: Properties)
    ensures p == Analysis(text, sha256)
    ensures p.uniqueCharacters == |p.characterFrequencyMap|
    ensures TotalCount(p.characterFrequencyMap) == p.length
    ensures p.wordCount == 0 <==> forall i :: 0 <= i < |text| ==> IsSpace(text[i])
  {
    var freq := CharacterFrequency(text);
    FrequencyMapKeys(text);
    FrequencyCountsSumToLength(text);
    WordCountZeroIffBlank(text);
    p := Properties(|text|, IsPalindrome(text), UniqueCharacters(text), WordCount(text), sha256(text), freq);
  }

  /** The empty text: length 0, no words, a palindrome, no characters. */
  lemma EmptyTextAnalysis(sha256: string -> string)
    ensures Analysis("", sha256) == Properties(0, true, 0, 0, sha256(""), map[])
  {
    assert (set c | c in "") == {};
  }
}
