/**
 extractLocationFromText: turns a location line such as
 "San Francisco, CA · Hybrid · Full-time" into a short location. The middle
 dot becomes a space, the employment tags are removed with JavaScript's
 word-boundary semantics, the text is cleaned, and text longer than 60
 code units is cut down to the first "City, REGION" or capitalised phrase.
 */
module Location {
  import opened Text
  import opened Dom

  const Middot: char := '\U{00B7}'

  /** Cleaned text up to this many UTF-16 code units (JavaScript's `length`)
      is returned as it is. */
  const MaxShortLength := 60

  /** `replace(/·/g, ' ')`. */
  function ReplaceMiddot(s: string): (r: string)
    ensures |r| == |s|
    ensures Middot !in r
    ensures forall i :: 0 <= i < |s| ==> r[i] == (if s[i] == Middot then ' ' else s[i])
  {
    seq(|s|, i requires 0 <= i < |s| => if s[i] == Middot then ' ' else s[i])
  }

  /** The alternatives of
      `(Remote|Hybrid|On[- ]site|Full[- ]time|Part[- ]time|Contract|Internship)`,
      in their written order and lower-cased (the regular expression carries
      the `i` flag); a '-' here stands for the class `[- ]`. */
  const Tags: seq<string> := ["remote", "hybrid", "on-site", "full-time", "part-time", "contract", "internship"]

  /** One pattern character against one text character: a letter ignoring
      ASCII case, '-' as `[- ]`. */
  predicate PatMatches(p: char, c: char) {
    if p == '-' then c == '-' || c == ' ' else LowerAscii(c) == p
  }

  predicate MatchesAt(s: string, i: nat, pat: string) {
    i + |pat| <= |s| && forall k :: 0 <= k < |pat| ==> PatMatches(pat[k], s[i + k])
  }

  predicate WordAt(s: string, i: int) {
    0 <= i < |s| && IsWordChar(s[i])
  }

  /** `\b` at position `i`: a word character on exactly one side. */
  predicate Boundary(s: string, i: int) {
    WordAt(s, i - 1) != WordAt(s, i)
  }

  /** Alternative `k` of `\b(...)\b` matches at position `i`. */
  predicate TagMatch(s: string, i: nat, k: nat)
    requires k < |Tags|
  {
    Boundary(s, i) && MatchesAt(s, i, Tags[k]) && Boundary(s, i + |Tags[k]|)
  }

  /** The length of the match of `\b(...)\b` at `i`, trying the alternatives
      from `k` on in their written order. */
  function TagFrom(s: string, i: nat, k: nat): (r: Option<nat>)
    requires k <= |Tags|
    ensures r.Some? ==> exists j :: k <= j < |Tags| && TagMatch(s, i, j) && r.value == |Tags[j]|
    ensures r.None? ==> forall j :: k <= j < |Tags| ==> !TagMatch(s, i, j)
    decreases |Tags| - k
  {
    if k == |Tags| then None
    else if TagMatch(s, i, k) then Some(|Tags[k]|)
    else TagFrom(s, i, k + 1)
  }

  /** When alternative `k` is the first from `j` on to match, its length is
      the answer. */
  lemma {:induction false} TagFromFirstMatch(s: string, i: nat, j: nat, k: nat)
    requires j <= k < |Tags|
    requires forall l :: j <= l < k ==> !TagMatch(s, i, l)
    requires TagMatch(s, i, k)
    ensures TagFrom(s, i, j) == Some(|Tags[k]|)
    decreases k - j
  {
    if j < k {
      assert !TagMatch(s, i, j);
      TagFromFirstMatch(s, i, j + 1, k);
    }
  }

  lemma TagsNonEmpty()
    ensures forall k :: 0 <= k < |Tags| ==> |Tags[k]| > 0
  {
  }

  /** `matchAt(q)` is the length of the match starting at `q`, if any;
      every match is non-empty and lies inside `s`. */
  predicate Fits(s: string, matchAt: nat -> Option<nat>) {
    forall q :: 0 <= q < |s| && matchAt(q).Some? ==> 0 < matchAt(q).value && q + matchAt(q).value <= |s|
  }

  /** `s.replace(re, '')` for a global regular expression, from position `i`
      on: where a match starts it is dropped and the scan restarts right
      after it; elsewhere one character is kept. */
  function RemoveMatches(s: string, i: nat, matchAt: nat -> Option<nat>): (r: string)
    requires i <= |s| && Fits(s, matchAt)
    ensures |r| <= |s| - i
    ensures forall c :: c in r ==> c in s
    decreases |s| - i
  {
    if i == |s| then []
    else
      match matchAt(i)
      case Some(n) => RemoveMatches(s, i + n, matchAt)
      case None => [s[i]] + RemoveMatches(s, i + 1, matchAt)
  }

  /** Text in which no match starts is copied as it is. */
  lemma {:induction false} RemoveCopies(s: string, i: nat, p: nat, matchAt: nat -> Option<nat>)
    requires i <= p <= |s| && Fits(s, matchAt)
    requires forall q :: i <= q < p ==> matchAt(q).None?
    ensures RemoveMatches(s, i, matchAt) == s[i..p] + RemoveMatches(s, p, matchAt)
    decreases p - i
  {
    if i < p {
      RemoveCopies(s, i + 1, p, matchAt);
      assert s[i..p] == [s[i]] + s[i + 1..p];
      ConcatAssoc([s[i]], s[i + 1..p], RemoveMatches(s, p, matchAt));
    } else {
      assert s[i..p] == [];
    }
  }

  /** The scan copies the text up to a match and carries on right after
      it. */
  lemma {:induction false} RemoveAtMatch(s: string, i: nat, p: nat, n: nat, matchAt: nat -> Option<nat>)
    requires i <= p < |s| && Fits(s, matchAt)
    requires forall q :: i <= q < p ==> matchAt(q).None?
    requires matchAt(p) == Some(n)
    ensures p + n <= |s|
    ensures RemoveMatches(s, i, matchAt) == s[i..p] + RemoveMatches(s, p + n, matchAt)
  {
    RemoveCopies(s, i, p, matchAt);
  }

  /** Two matches, the second running to the end: what comes before the
      first and what lies between them is kept. */
  lemma {:induction false} RemoveTwo(s: string, p: nat, n: nat, q: nat, m: nat, matchAt: nat -> Option<nat>)
    requires p + n <= q < |s| && q + m == |s| && Fits(s, matchAt)
    requires forall r :: 0 <= r < p ==> matchAt(r).None?
    requires forall r :: p + n <= r < q ==> matchAt(r).None?
    requires matchAt(p) == Some(n) && matchAt(q) == Some(m)
    ensures RemoveMatches(s, 0, matchAt) == s[..p] + s[p + n..q]
  {
    RemoveAtMatch(s, 0, p, n, matchAt);
    RemoveAtMatch(s, p + n, q, m, matchAt);
    assert RemoveMatches(s, |s|, matchAt) == [];
    assert s[p + n..q] + [] == s[p + n..q];
  }

  /** The tag alternation as a matcher. */
  function TagAt(s: string): nat -> Option<nat> {
    q => TagFrom(s, q, 0)
  }

  lemma TagsFit(s: string)
    ensures Fits(s, TagAt(s))
  {
    TagsNonEmpty();
    forall q | 0 <= q < |s| && TagAt(s)(q).Some?
      ensures 0 < TagAt(s)(q).value && q + TagAt(s)(q).value <= |s|
    {
      var k :| 0 <= k < |Tags| && TagMatch(s, q, k) && TagFrom(s, q, 0).value == |Tags[k]|;
      assert MatchesAt(s, q, Tags[k]);
    }
  }

  /** `replace(/\b(...)\b/gi, '')` from position `i` on; `\b` always looks
      at the original text. */
  function StripTags(s: string, i: nat): (r: string)
    requires i <= |s|
    ensures |r| <= |s| - i
    ensures forall c :: c in r ==> c in s
  {
    TagsFit(s);
    RemoveMatches(s, i, TagAt(s))
  }

  /** Text in which no tag starts is copied as it is. */
  lemma {:induction false} StripTagsCopies(s: string, i: nat, p: nat)
    requires i <= p <= |s|
    requires forall q :: i <= q < p ==> TagFrom(s, q, 0).None?
    ensures StripTags(s, i) == s[i..p] + StripTags(s, p)
  {
    TagsFit(s);
    RemoveCopies(s, i, p, TagAt(s));
  }

  /** Text without tags comes through unchanged. */
  lemma {:induction false} StripTagsNoTag(s: string, i: nat)
    requires i <= |s|
    requires forall q :: i <= q < |s| ==> TagFrom(s, q, 0).None?
    ensures StripTags(s, i) == s[i..]
  {
    TagsFit(s);
    RemoveCopies(s, i, |s|, TagAt(s));
    assert RemoveMatches(s, |s|, TagAt(s)) == [];
  }

  /** The scan copies the text up to the first tag, drops that tag and
      carries on right after it. */
  lemma {:induction false} StripTagsAtTag(s: string, i: nat, p: nat, n: nat)
    requires i <= p < |s|
    requires forall q :: i <= q < p ==> TagFrom(s, q, 0).None?
    requires TagFrom(s, p, 0) == Some(n)
    ensures 0 < n && p + n <= |s|
    ensures StripTags(s, i) == s[i..p] + StripTags(s, p + n)
  {
    TagsFit(s);
    RemoveAtMatch(s, i, p, n, TagAt(s));
  }

  /** No tag starts between two word characters: `\b` fails there. */
  lemma NoTagInsideWord(s: string, q: nat)
    requires 0 < q < |s| && IsWordChar(s[q - 1]) && IsWordChar(s[q])
    ensures TagFrom(s, q, 0).None?
  {
    assert !Boundary(s, q);
  }

  /** No tag starts at a character that begins none of them. */
  lemma NoTagAtChar(s: string, q: nat)
    requires q < |s| && LowerAscii(s[q]) !in TagInitials
    ensures TagFrom(s, q, 0).None?
  {
    forall k | 0 <= k < |Tags|
      ensures !MatchesAt(s, q, Tags[k])
    {
      assert !PatMatches(Tags[k][0], s[q]);
    }
  }

  /** The initial letters of the tags. */
  const TagInitials: set<char> := {'r', 'h', 'o', 'f', 'p', 'c', 'i'}

  /** Every position in `[i, p)` holds a character that begins no tag or
      sits inside a word. */
  predicate NoTagStarts(s: string, i: nat, p: nat)
    requires i <= p <= |s|
    decreases p - i
  {
    i == p
    || ((LowerAscii(s[i]) !in TagInitials || (0 < i && IsWordChar(s[i - 1]) && IsWordChar(s[i])))
        && NoTagStarts(s, i + 1, p))
  }

  /** Such a stretch holds no tag. */
  lemma {:induction false} NoTagsBetween(s: string, i: nat, p: nat)
    requires i <= p <= |s| && NoTagStarts(s, i, p)
    ensures forall q :: i <= q < p ==> TagFrom(s, q, 0).None?
  {
    forall q | i <= q < p
      ensures TagFrom(s, q, 0).None?
    {
      NoTagStartsAt(s, i, p, q);
      NoTagHere(s, q);
    }
  }

  /** Each position of the stretch meets the condition. */
  lemma {:induction false} NoTagStartsAt(s: string, i: nat, p: nat, q: nat)
    requires i <= q < p <= |s| && NoTagStarts(s, i, p)
    ensures LowerAscii(s[q]) !in TagInitials || (0 < q && IsWordChar(s[q - 1]) && IsWordChar(s[q]))
    decreases q - i
  {
    if i < q {
      NoTagStartsAt(s, i + 1, p, q);
    }
  }

  /** One position of such a stretch. */
  lemma NoTagHere(s: string, q: nat)
    requires q < |s|
    requires LowerAscii(s[q]) !in TagInitials || (0 < q && IsWordChar(s[q - 1]) && IsWordChar(s[q]))
    ensures TagFrom(s, q, 0).None?
  {
    if LowerAscii(s[q]) !in TagInitials {
      NoTagAtChar(s, q);
    } else {
      NoTagInsideWord(s, q);
    }
  }

  /** A location line as a job page shows it, and the same line once its
      dots are spaces. */
  const ExampleLine := "Austin, TX \U{00B7} Remote \U{00B7} Full-time"
  const ExampleSpaced := "Austin, TX   Remote   Full-time"

  lemma ExampleDots()
    ensures ReplaceMiddot(ExampleLine) == ExampleSpaced
  {
  }

  /** Nothing before "Remote" is a tag. */
  lemma ExamplePlace()
    ensures NoTagStarts(ExampleSpaced, 0, 13)
  {
    assert NoTagStarts(ExampleSpaced, 12, 13);
    assert NoTagStarts(ExampleSpaced, 11, 13);
    assert NoTagStarts(ExampleSpaced, 10, 13);
    assert NoTagStarts(ExampleSpaced, 9, 13);
    assert NoTagStarts(ExampleSpaced, 8, 13);
    assert NoTagStarts(ExampleSpaced, 7, 13);
    assert NoTagStarts(ExampleSpaced, 6, 13);
    assert NoTagStarts(ExampleSpaced, 5, 13);
    assert NoTagStarts(ExampleSpaced, 4, 13);
    assert NoTagStarts(ExampleSpaced, 3, 13);
    assert NoTagStarts(ExampleSpaced, 2, 13);
    assert NoTagStarts(ExampleSpaced, 1, 13);
  }

  /** "Remote" is the first alternative. */
  lemma ExampleRemote()
    ensures TagFrom(ExampleSpaced, 13, 0) == Some(6)
  {
    ExampleRemoteMatches();
    TagFromFirstMatch(ExampleSpaced, 13, 0, 0);
  }

  lemma ExampleRemoteMatches()
    ensures TagMatch(ExampleSpaced, 13, 0)
  {
  }

  /** "Full-time" is the fourth alternative; the three before it fail. */
  lemma ExampleFullTime()
    ensures TagFrom(ExampleSpaced, 22, 0) == Some(9)
  {
    ExampleFullTimeMatches();
    TagFromFirstMatch(ExampleSpaced, 22, 0, 3);
  }

  lemma ExampleFullTimeMatches()
    ensures forall l :: 0 <= l < 3 ==> !TagMatch(ExampleSpaced, 22, l)
    ensures TagMatch(ExampleSpaced, 22, 3)
  {
    assert !PatMatches(Tags[0][0], ExampleSpaced[22]);
    assert !PatMatches(Tags[1][0], ExampleSpaced[22]);
    assert !PatMatches(Tags[2][0], ExampleSpaced[22]);
  }

  lemma ExampleStripped()
    ensures StripTags(ExampleSpaced, 0) == "Austin, TX" + "      "
  {
    ExampleTags();
    ExampleSlices();
  }

  /** "Remote" and "Full-time" go, and nothing else. */
  lemma {:induction false} ExampleTags()
    ensures StripTags(ExampleSpaced, 0) == ExampleSpaced[..13] + ExampleSpaced[19..22]
  {
    ExamplePlace();
    NoTagsBetween(ExampleSpaced, 0, 13);
    ExampleGap();
    NoTagsBetween(ExampleSpaced, 19, 22);
    ExampleRemote();
    ExampleFullTime();
    TagsFit(ExampleSpaced);
    RemoveTwo(ExampleSpaced, 13, 6, 22, 9, TagAt(ExampleSpaced));
  }

  /** Nothing between "Remote" and "Full-time" is a tag. */
  lemma ExampleGap()
    ensures NoTagStarts(ExampleSpaced, 19, 22)
  {
  }

  lemma ExampleSlices()
    ensures ExampleSpaced[..13] + ExampleSpaced[19..22] == "Austin, TX" + "      "
  {
  }

  /** A line whose tags leave a clean place followed by white space
      cleans to that place. */
  lemma CleanedToPlace(text: string, place: string, tail: string)
    requires StripTags(ReplaceMiddot(text), 0) == place + tail
    requires IsClean(place) && |place| > 0
    requires forall i :: 0 <= i < |tail| ==> IsSpace(tail[i])
    ensures CleanedLocation(text) == place
  {
    CleanIgnoresTrailingSpace(place, tail);
  }

  /** The tags of a location line, with the dots between them, go; the
      place stays. */
  lemma StripTagsExample()
    ensures CleanedLocation(ExampleLine) == "Austin, TX"
  {
    ExampleDots();
    ExampleStripped();
    ExampleClean();
    ExampleTail();
    CleanedToPlace(ExampleLine, "Austin, TX", "      ");
  }

  lemma ExampleTail()
    ensures forall i :: 0 <= i < |"      "| ==> IsSpace("      "[i])
  {
  }

  lemma ExampleClean()
    ensures IsClean("Austin, TX")
  {
  }

  /** The text extractLocationFromText works on: dot replaced, tags removed,
      white space collapsed and trimmed. */
  function CleanedLocation(text: string): string {
    Clean(StripTags(ReplaceMiddot(text), 0))
  }

  lemma CleanedLocationFacts(text: string)
    ensures IsClean(CleanedLocation(text))
    ensures Middot !in CleanedLocation(text)
  {
    var stripped := StripTags(ReplaceMiddot(text), 0);
    CleanMembers(stripped);
  }

  lemma CleanedOfEmpty()
    ensures CleanedLocation("") == ""
  {
    assert ReplaceMiddot("") == "";
    assert StripTags("", 0) == "";
    NonSpaceOfSpaces("");
  }

  /** The character classes of the long-text pattern. */
  datatype CharClass =
    | PlaceChar  // [a-zA-Z.\s'-]
    | SpaceChar  // \s
    | UpperChar  // [A-Z]

  predicate IsUpper(c: char) {
    'A' <= c <= 'Z'
  }

  predicate InClass(c: char, cls: CharClass) {
    match cls
    case PlaceChar => 'a' <= c <= 'z' || IsUpper(c) || c == '.' || IsSpace(c) || c == '\'' || c == '-'
    case SpaceChar => IsSpace(c)
    case UpperChar => IsUpper(c)
  }

  /** The end of the longest run of `cls` characters starting at `j`: what a
      greedy quantifier consumes. */
  function RunEnd(s: string, j: nat, cls: CharClass): (e: nat)
    requires j <= |s|
    ensures j <= e <= |s|
    ensures forall k :: j <= k < e ==> InClass(s[k], cls)
    ensures e < |s| ==> !InClass(s[e], cls)
    decreases |s| - j
  {
    if j < |s| && InClass(s[j], cls) then RunEnd(s, j + 1, cls) else j
  }

  /** Where `[A-Z][a-zA-Z.\s'-]+,\s*[A-Z]{2,}` matched at `i` ends. The comma
      and the capitals are outside the classes before them, so backtracking
      never finds a shorter match: only the greedy one can succeed. */
  function CityRegionAt(s: string, i: nat): Option<nat>
    requires i <= |s|
  {
    if i < |s| && IsUpper(s[i]) then
      var e1 := RunEnd(s, i + 1, PlaceChar);
      if e1 > i + 1 && e1 < |s| && s[e1] == ',' then
        var e2 := RunEnd(s, e1 + 1, SpaceChar);
        var e3 := RunEnd(s, e2, UpperChar);
        if e3 >= e2 + 2 then Some(e3) else None
      else None
    else None
  }

  /** Where `[A-Z][a-zA-Z.\s'-]+` matched at `i` ends. */
  function PhraseAt(s: string, i: nat): Option<nat>
    requires i <= |s|
  {
    if i < |s| && IsUpper(s[i]) then
      var e := RunEnd(s, i + 1, PlaceChar);
      if e > i + 1 then Some(e) else None
    else None
  }

  /** The two alternatives at `i`, the first one preferred. */
  function MatchAt(s: string, i: nat): (r: Option<nat>)
    requires i <= |s|
    ensures r.Some? ==> i < r.value <= |s|
  {
    match CityRegionAt(s, i)
    case Some(e) => Some(e)
    case None => PhraseAt(s, i)
  }

  /** Every match `matchAt` reports at a position up to `n` is non-empty and
      ends by `n`. */
  ghost predicate EndsWithin(n: nat, matchAt: nat -> Option<nat>) {
    forall q: nat :: q <= n && matchAt(q).Some? ==> q < matchAt(q).value <= n
  }

  /** The first position from `i` on, up to `n`, where `matchAt` reports a
      match, with the end of that match. */
  function FirstMatchBy(n: nat, i: nat, matchAt: nat -> Option<nat>): (r: Option<(nat, nat)>)
    requires i <= n && EndsWithin(n, matchAt)
    ensures r.Some? ==> i <= r.value.0 < r.value.1 <= n
    decreases n - i
  {
    if i == n then None
    else if matchAt(i).Some? then Some((i, matchAt(i).value))
    else FirstMatchBy(n, i + 1, matchAt)
  }

  /** The reported match is the leftmost one. */
  lemma {:induction false} FirstMatchByLeftmost(n: nat, i: nat, matchAt: nat -> Option<nat>)
    requires i <= n && EndsWithin(n, matchAt)
    ensures var r := FirstMatchBy(n, i, matchAt);
            && (r.Some? ==> matchAt(r.value.0) == Some(r.value.1))
            && (r.Some? ==> forall j :: i <= j < r.value.0 ==> matchAt(j).None?)
            && (r.None? ==> forall j :: i <= j < n ==> matchAt(j).None?)
    decreases n - i
  {
    if i < n && matchAt(i).None? {
      FirstMatchByLeftmost(n, i + 1, matchAt);
    }
  }

  /** The pattern's matches in `s`, position by position. */
  function MatchesIn(s: string): nat -> Option<nat> {
    (q: nat) => if q <= |s| then MatchAt(s, q) else None
  }

  lemma MatchesEndWithin(s: string)
    ensures EndsWithin(|s|, MatchesIn(s))
  {
    forall q: nat | q <= |s| && MatchesIn(s)(q).Some?
      ensures q < MatchesIn(s)(q).value <= |s|
    {
      assert MatchesIn(s)(q) == MatchAt(s, q);
    }
  }

  /** `s.match(re)` searching from `i`: the leftmost position where the
      pattern matches, with the end of that match (FirstMatchLeftmost). */
  function FirstMatch(s: string, i: nat): (r: Option<(nat, nat)>)
    requires i <= |s|
    ensures r.Some? ==> i <= r.value.0 < r.value.1 <= |s|
  {
    MatchesEndWithin(s);
    FirstMatchBy(|s|, i, MatchesIn(s))
  }

  /** The pattern matches at the reported position and ends where reported,
      and at no position before it; with no result, it matches nowhere. */
  lemma {:induction false} FirstMatchLeftmost(s: string, i: nat)
    requires i <= |s|
    ensures var r := FirstMatch(s, i);
            && (r.Some? ==> MatchAt(s, r.value.0) == Some(r.value.1))
            && (r.Some? ==> forall j :: i <= j < r.value.0 ==> MatchAt(s, j).None?)
            && (r.None? ==> forall j :: i <= j <= |s| ==> MatchAt(s, j).None?)
  {
    MatchesEndWithin(s);
    FirstMatchByLeftmost(|s|, i, MatchesIn(s));
    forall j: nat | j <= |s|
      ensures MatchesIn(s)(j) == MatchAt(s, j)
    {
    }
  }

  /** extractLocationFromText: empty stays empty; every result is clean and
      has no middle dot; cleaned text of at most 60 code units is the result;
      longer text gives the trimmed leftmost pattern match, a piece of the
      cleaned text, or the cleaned text itself when nothing matches. */
  function ExtractLocation(text: string): (r: string)
    ensures text == "" ==> r == ""
    ensures IsClean(r)
    ensures Middot !in r
    ensures text != "" && Utf16Length(CleanedLocation(text)) <= MaxShortLength ==> r == CleanedLocation(text)
    ensures Utf16Length(CleanedLocation(text)) > MaxShortLength ==>
              r == CleanedLocation(text) || IsInfix(r, CleanedLocation(text))
    ensures Utf16Length(CleanedLocation(text)) > MaxShortLength && FirstMatch(CleanedLocation(text), 0).None? ==>
              r == CleanedLocation(text)
  {
    if text == "" then
      CleanedOfEmpty();
      ""
    else
      var cleaned := CleanedLocation(text);
      CleanedLocationFacts(text);
      if Utf16Length(cleaned) <= MaxShortLength then cleaned else Shorten(cleaned)
  }

  /** The long branch: the trimmed leftmost match, or the text itself when
      the pattern finds nothing. */
  function Shorten(cleaned: string): (r: string)
    requires IsClean(cleaned) && Middot !in cleaned
    ensures IsClean(r) && Middot !in r
    ensures r == cleaned || IsInfix(r, cleaned)
    ensures FirstMatch(cleaned, 0).None? ==> r == cleaned
    ensures FirstMatch(cleaned, 0).Some? ==>
              r == Trim(cleaned[FirstMatch(cleaned, 0).value.0..FirstMatch(cleaned, 0).value.1])
  {
    match FirstMatch(cleaned, 0)
    case Some((a, e)) =>
      LongMatchFacts(cleaned, a, e);
      Trim(cleaned[a..e])
    case None => cleaned
  }

  lemma LongMatchFacts(cleaned: string, a: nat, e: nat)
    requires a <= e <= |cleaned|
    requires IsClean(cleaned) && Middot !in cleaned
    ensures IsClean(Trim(cleaned[a..e]))
    ensures Middot !in Trim(cleaned[a..e])
    ensures IsInfix(Trim(cleaned[a..e]), cleaned)
  {
    CollapsedInfix(cleaned, a, e);
    TrimKeepsCollapsed(cleaned[a..e]);
    TrimIsInfix(cleaned, a, e);
    assert forall c :: c in cleaned[a..e] ==> c in cleaned;
  }
}
