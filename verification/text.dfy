/**
 Text primitives shared by the job detector, the popup and the registration
 checks, written over `string` (a sequence of Unicode scalar values):
 JavaScript white space, `trim`, the `replace(/\s+/g, ' ')` collapse,
 ASCII case folding, `includes`, one-character `split`, `join`, decimal
 rendering of a number and JavaScript's UTF-16 `length`.
 */
module Text {

  /** The characters JavaScript's `\s` matches and `String.prototype.trim`
      removes: ECMAScript WhiteSpace and LineTerminator. */
  predicate IsSpace(c: char) {
    || c == ' ' || c == '\t' || c == '\n' || c == '\U{000B}' || c == '\U{000C}' || c == '\r'
    || c == '\U{00A0}' || c == '\U{1680}' || ('\U{2000}' <= c <= '\U{200A}')
    || c == '\U{2028}' || c == '\U{2029}' || c == '\U{202F}' || c == '\U{205F}'
    || c == '\U{3000}' || c == '\U{FEFF}'
  }

  /** The non-white-space characters of `s`, in order: what trimming and
      collapsing must never change. */
  function NonSpace(s: string): string {
    if |s| == 0 then [] else (if IsSpace(s[0]) then [] else [s[0]]) + NonSpace(s[1..])
  }

  lemma {:induction false} NonSpaceAppend(a: string, b: string)
    ensures NonSpace(a + b) == NonSpace(a) + NonSpace(b)
  {
    if |a| == 0 {
      assert a + b == b;
    } else {
      assert (a + b)[1..] == a[1..] + b;
      NonSpaceAppend(a[1..], b);
    }
  }

  lemma {:induction false} NonSpaceMembers(s: string, c: char)
    ensures c in NonSpace(s) <==> c in s && !IsSpace(c)
  {
    if |s| > 0 {
      NonSpaceMembers(s[1..], c);
      assert s == [s[0]] + s[1..];
    }
  }

  lemma {:induction false} NonSpaceOfSpaces(s: string)
    requires forall i :: 0 <= i < |s| ==> IsSpace(s[i])
    ensures NonSpace(s) == []
  {
    if |s| > 0 {
      NonSpaceOfSpaces(s[1..]);
    }
  }

  /** No white space at either end. */
  predicate Trimmed(s: string) {
    |s| == 0 || (!IsSpace(s[0]) && !IsSpace(s[|s| - 1]))
  }

  /** The white space at position `i` of `s`, if any, is not followed by
      more white space. */
  predicate LoneSpaceAt(s: string, i: int) {
    0 <= i < |s| - 1 && IsSpace(s[i]) ==> !IsSpace(s[i + 1])
  }

  /** Every white-space character is a plain ' ' and no two are adjacent. */
  predicate Collapsed(s: string) {
    && (forall i :: 0 <= i < |s| && IsSpace(s[i]) ==> s[i] == ' ')
    && (forall i :: 0 <= i < |s| - 1 ==> LoneSpaceAt(s, i))
  }

  /** What getCleanText produces: trimmed, with single-space runs. */
  predicate IsClean(s: string) {
    Trimmed(s) && Collapsed(s)
  }

  /** Drops the leading white space of `s`. */
  function TrimStart(s: string): (r: string)
    ensures |r| <= |s| && r == s[|s| - |r|..]
    ensures |r| > 0 ==> !IsSpace(r[0])
    ensures forall i :: 0 <= i < |s| - |r| ==> IsSpace(s[i])
  {
    if |s| > 0 && IsSpace(s[0]) then
      var r := TrimStart(s[1..]);
      assert s[1..][|s| - 1 - |r|..] == s[|s| - |r|..];
      assert forall i :: 1 <= i < |s| - |r| ==> s[i] == s[1..][i - 1];
      r
    else s
  }

  /** Drops the trailing white space of `s`. */
  function TrimEnd(s: string): (r: string)
    ensures |r| <= |s| && r == s[..|r|]
    ensures |r| > 0 ==> !IsSpace(r[|r| - 1])
    ensures forall i :: |r| <= i < |s| ==> IsSpace(s[i])
  {
    if |s| > 0 && IsSpace(s[|s| - 1]) then
      var r := TrimEnd(s[..|s| - 1]);
      assert s[..|s| - 1][..|r|] == s[..|r|];
      assert forall i :: |r| <= i < |s| - 1 ==> s[i] == s[..|s| - 1][i];
      r
    else s
  }

  lemma TrimStartKeepsNonSpace(s: string)
    ensures NonSpace(TrimStart(s)) == NonSpace(s)
  {
    NonSpaceOfSpacedSuffix(s, TrimStart(s));
  }

  lemma TrimEndKeepsNonSpace(s: string)
    ensures NonSpace(TrimEnd(s)) == NonSpace(s)
  {
    NonSpaceOfSpacedPrefix(s, TrimEnd(s));
  }

  /** A suffix after nothing but white space has the same non-white-space
      characters as the whole text. */
  lemma NonSpaceOfSpacedSuffix(s: string, r: string)
    requires |r| <= |s| && r == s[|s| - |r|..]
    requires forall i :: 0 <= i < |s| - |r| ==> IsSpace(s[i])
    ensures NonSpace(r) == NonSpace(s)
  {
    var p := s[..|s| - |r|];
    assert s == p + r;
    assert forall i :: 0 <= i < |p| ==> IsSpace(p[i]) by {
      forall i | 0 <= i < |p|
        ensures IsSpace(p[i])
      {
        assert p[i] == s[i];
      }
    }
    NonSpaceOfSpaces(p);
    NonSpaceAppend(p, r);
  }

  /** A prefix before nothing but white space has the same non-white-space
      characters as the whole text. */
  lemma NonSpaceOfSpacedPrefix(s: string, r: string)
    requires |r| <= |s| && r == s[..|r|]
    requires forall i :: |r| <= i < |s| ==> IsSpace(s[i])
    ensures NonSpace(r) == NonSpace(s)
  {
    assert s == r + s[|r|..];
    NonSpaceOfSpaces(s[|r|..]);
    NonSpaceAppend(r, s[|r|..]);
  }

  /** `String.prototype.trim`: the contiguous middle of `s` between its
      leading and trailing white space. */
  function Trim(s: string): (r: string)
    ensures Trimmed(r)
    ensures NonSpace(r) == NonSpace(s)
    ensures forall c :: c in r ==> c in s
    ensures Trimmed(s) ==> r == s
  {
    TrimStartKeepsNonSpace(s);
    TrimEndKeepsNonSpace(TrimStart(s));
    TrimEnd(TrimStart(s))
  }

  /** The trimmed text is a slice of the original, and only white space
      lies outside it. */
  lemma TrimSlice(s: string) returns (k: nat, m: nat)
    ensures k <= m <= |s| && Trim(s) == s[k..m]
    ensures forall i :: 0 <= i < k ==> IsSpace(s[i])
    ensures forall i :: m <= i < |s| ==> IsSpace(s[i])
  {
    TrimIsEndOfStart(s);
    k, m := SliceOfHalves(s, TrimStart(s), TrimEnd(TrimStart(s)));
  }

  lemma TrimIsEndOfStart(s: string)
    ensures Trim(s) == TrimEnd(TrimStart(s))
  {
  }

  /** A suffix `t` of `s` after white space, and a prefix `r` of `t` before
      white space, make `r` a slice of `s` with only white space around it. */
  lemma SliceOfHalves(s: string, t: string, r: string) returns (k: nat, m: nat)
    requires |t| <= |s| && t == s[|s| - |t|..]
    requires forall i :: 0 <= i < |s| - |t| ==> IsSpace(s[i])
    requires |r| <= |t| && r == t[..|r|]
    requires forall i :: |r| <= i < |t| ==> IsSpace(t[i])
    ensures k <= m <= |s| && r == s[k..m]
    ensures forall i :: 0 <= i < k ==> IsSpace(s[i])
    ensures forall i :: m <= i < |s| ==> IsSpace(s[i])
  {
    k := |s| - |t|;
    m := k + |r|;
    DropTake(s, k, |r|);
    forall i | m <= i < |s|
      ensures IsSpace(s[i])
    {
      assert s[i] == t[i - k];
    }
  }

  lemma DropTake(s: string, k: nat, n: nat)
    requires k + n <= |s|
    ensures s[k..][..n] == s[k..k + n]
  {
  }

  lemma TrimKeepsCollapsed(s: string)
    requires Collapsed(s)
    ensures Collapsed(Trim(s))
  {
    var k, m := TrimSlice(s);
    CollapsedInfix(s, k, m);
  }

  lemma CollapsedCons(c: char, r: string)
    requires Collapsed(r)
    requires IsSpace(c) ==> c == ' ' && (|r| == 0 || !IsSpace(r[0]))
    ensures Collapsed([c] + r)
  {
    var s := [c] + r;
    forall i | 1 <= i < |s|
      ensures s[i] == r[i - 1]
    {
    }
    forall i | 0 <= i < |s| - 1
      ensures LoneSpaceAt(s, i)
    {
      if i > 0 {
        assert LoneSpaceAt(r, i - 1);
      }
    }
  }

  /** `replace(/\s+/g, ' ')`: every maximal run of white space becomes a
      single ' ', everything else is copied. */
  function Collapse(s: string): (r: string)
    ensures Collapsed(r)
    ensures |s| == 0 <==> |r| == 0
    ensures |s| > 0 ==> (IsSpace(r[0]) <==> IsSpace(s[0]))
    decreases |s|
  {
    if |s| == 0 then []
    else if IsSpace(s[0]) then
      var rest := Collapse(TrimStart(s[1..]));
      CollapsedCons(' ', rest);
      [' '] + rest
    else
      var rest := Collapse(s[1..]);
      CollapsedCons(s[0], rest);
      [s[0]] + rest
  }

  lemma {:induction false} CollapseKeepsNonSpace(s: string)
    ensures NonSpace(Collapse(s)) == NonSpace(s)
    decreases |s|
  {
    if |s| > 0 {
      assert s == [s[0]] + s[1..];
      NonSpaceAppend([s[0]], s[1..]);
      if IsSpace(s[0]) {
        var t := TrimStart(s[1..]);
        CollapseKeepsNonSpace(t);
        TrimStartKeepsNonSpace(s[1..]);
        NonSpaceAppend([' '], Collapse(t));
      } else {
        CollapseKeepsNonSpace(s[1..]);
        NonSpaceAppend([s[0]], Collapse(s[1..]));
      }
    }
  }

  /** Collapsing text that is already collapsed changes nothing. */
  lemma {:induction false} CollapseFixpoint(s: string)
    requires Collapsed(s)
    ensures Collapse(s) == s
    decreases |s|
  {
    if |s| > 0 {
      CollapsedTail(s);
      CollapseFixpoint(s[1..]);
      if IsSpace(s[0]) {
        CollapsedSpaceHead(s);
        TrimStartOfWord(s[1..]);
        assert Collapse(s) == [' '] + s[1..];
      } else {
        assert Collapse(s) == [s[0]] + s[1..];
      }
      assert s == [s[0]] + s[1..];
    }
  }

  lemma CollapsedTail(s: string)
    requires Collapsed(s) && |s| > 0
    ensures Collapsed(s[1..])
  {
    CollapsedInfix(s, 1, |s|);
    assert s[1..|s|] == s[1..];
  }

  /** In collapsed text a leading white-space character is a ' ' and the
      next character is not white space. */
  lemma CollapsedSpaceHead(s: string)
    requires Collapsed(s) && |s| > 0 && IsSpace(s[0])
    ensures s[0] == ' ' && (|s[1..]| == 0 || !IsSpace(s[1..][0]))
  {
    assert LoneSpaceAt(s, 0);
  }

  /** TrimStart leaves a text that does not start with white space as it is. */
  lemma TrimStartOfWord(s: string)
    requires |s| == 0 || !IsSpace(s[0])
    ensures TrimStart(s) == s
  {
  }

  /** getCleanText's normalisation, `replace(/\s+/g, ' ').trim()`: the result
      is clean, keeps every non-white-space character of the input in order,
      and is empty exactly when the input is all white space. */
  function Clean(s: string): (r: string)
    ensures IsClean(r)
    ensures NonSpace(r) == NonSpace(s)
    ensures r == [] <==> NonSpace(s) == []
    ensures r == Join(Words(s), " ")
  {
    var c := Collapse(s);
    CollapseKeepsNonSpace(s);
    TrimKeepsCollapsed(c);
    var r := Trim(c);
    NonSpaceOfTrimmed(r);
    CleanIsJoinedWords(s);
    r
  }

  lemma NonSpaceOfTrimmed(r: string)
    requires Trimmed(r)
    ensures r == [] <==> NonSpace(r) == []
  {
    if r != [] {
      assert NonSpace(r) == [r[0]] + NonSpace(r[1..]);
    }
  }

  /** A word: a non-empty run of non-white-space characters. */
  predicate IsWord(w: string) {
    |w| > 0 && forall i :: 0 <= i < |w| ==> !IsSpace(w[i])
  }

  /** The longest prefix of `s` without white space. */
  function TakeWord(s: string): (w: string)
    ensures w <= s
    ensures forall i :: 0 <= i < |w| ==> !IsSpace(w[i])
    ensures |w| < |s| ==> IsSpace(s[|w|])
  {
    if |s| == 0 || IsSpace(s[0]) then [] else [s[0]] + TakeWord(s[1..])
  }

  /** The words of `s`: its maximal runs of non-white-space characters, in
      order. */
  function Words(s: string): seq<string>
    decreases |s|
  {
    var t := TrimStart(s);
    if |t| == 0 then []
    else
      var w := TakeWord(t);
      assert w == [t[0]] + TakeWord(t[1..]);
      [w] + Words(t[|w|..])
  }

  /** Every word holds at least one character and no white space. */
  lemma {:induction false} WordsAreWords(s: string)
    ensures forall i :: 0 <= i < |Words(s)| ==> IsWord(Words(s)[i])
    decreases |s|
  {
    var t := TrimStart(s);
    if |t| > 0 {
      var w := TakeWord(t);
      assert w == [t[0]] + TakeWord(t[1..]);
      WordsAreWords(t[|w|..]);
      var rest := Words(t[|w|..]);
      assert Words(s) == [w] + rest;
      forall i | 0 <= i < |Words(s)|
        ensures IsWord(Words(s)[i])
      {
        if i > 0 {
          assert Words(s)[i] == rest[i - 1];
        }
      }
    }
  }

  /** Text without words is all white space. */
  lemma WordsNone(s: string)
    requires Words(s) == []
    ensures forall i :: 0 <= i < |s| ==> IsSpace(s[i])
  {
    assert |TrimStart(s)| == 0;
  }

  /** Collapsing copies a leading word and carries on after it. */
  lemma {:induction false} CollapseTakeWord(s: string)
    ensures Collapse(s) == TakeWord(s) + Collapse(s[|TakeWord(s)|..])
    decreases |s|
  {
    if |s| > 0 && !IsSpace(s[0]) {
      CollapseTakeWord(s[1..]);
      var w := TakeWord(s[1..]);
      assert s[1..][|w|..] == s[1 + |w|..];
      assert TakeWord(s) == [s[0]] + w;
      assert Collapse(s) == [s[0]] + Collapse(s[1..]);
      ConcatAssoc([s[0]], w, Collapse(s[1 + |w|..]));
    } else {
      assert TakeWord(s) == [];
      assert s[0..] == s;
    }
  }

  /** White space in front of text that starts with a word is trimmed away. */
  lemma {:induction false} TrimStartOfSpaces(a: string, x: string)
    requires forall i :: 0 <= i < |a| ==> IsSpace(a[i])
    requires |x| == 0 || !IsSpace(x[0])
    ensures TrimStart(a + x) == x
    decreases |a|
  {
    if |a| == 0 {
      assert a + x == x;
    } else {
      assert (a + x)[1..] == a[1..] + x;
      TrimStartOfSpaces(a[1..], x);
    }
  }

  /** White space after text that ends with a word is trimmed away. */
  lemma {:induction false} TrimEndOfSpaces(x: string, b: string)
    requires forall i :: 0 <= i < |b| ==> IsSpace(b[i])
    requires |x| == 0 || !IsSpace(x[|x| - 1])
    ensures TrimEnd(x + b) == x
    decreases |b|
  {
    if |b| == 0 {
      assert x + b == x;
    } else {
      assert (x + b)[..|x + b| - 1] == x + b[..|b| - 1];
      TrimEndOfSpaces(x, b[..|b| - 1]);
    }
  }

  lemma ConcatAssoc(a: string, b: string, c: string)
    ensures a + (b + c) == a + b + c
  {
  }

  /** A single ' ' when `b` holds, nothing otherwise. */
  function Pad(b: bool): string {
    if b then " " else ""
  }

  /** Joining words with ' ' gives text that starts and ends with a word. */
  lemma {:induction false} JoinWordsTrimmed(ws: seq<string>)
    requires |ws| > 0 && forall i :: 0 <= i < |ws| ==> IsWord(ws[i])
    ensures var j := Join(ws, " "); |j| > 0 && !IsSpace(j[0]) && !IsSpace(j[|j| - 1])
    decreases |ws|
  {
    var j := Join(ws, " ");
    assert j[0] == ws[0][0];
    if |ws| > 1 {
      JoinWordsTrimmed(ws[1..]);
      var j' := Join(ws[1..], " ");
      assert j == ws[0] + " " + j';
      assert j[|j| - 1] == j'[|j'| - 1];
    }
  }

  lemma JoinedWordsTrimmed(s: string)
    requires Words(s) != []
    ensures |Join(Words(s), " ")| > 0 && Trimmed(Join(Words(s), " "))
  {
    WordsAreWords(s);
    JoinWordsTrimmed(Words(s));
  }

  /** Joining a word onto a non-empty list of words puts one ' ' between. */
  lemma JoinCons(w: string, ws: seq<string>)
    requires |ws| > 0
    ensures Join([w] + ws, " ") == w + " " + Join(ws, " ")
  {
    assert ([w] + ws)[1..] == ws;
  }

  /** Text that is all white space collapses to one ' ', or stays empty. */
  lemma CollapseOfSpaces(s: string)
    requires forall i :: 0 <= i < |s| ==> IsSpace(s[i])
    ensures Collapse(s) == Pad(|s| > 0)
  {
    if |s| > 0 {
      var t := TrimStart(s[1..]);
    }
  }

  /** Leading white space: collapsing gives one ' ' and goes on after the
      run, and the words are those after the run. */
  lemma SpaceStep(s: string)
    requires |s| > 0 && IsSpace(s[0])
    ensures var t := TrimStart(s);
            Collapse(s) == [' '] + Collapse(t) && Words(t) == Words(s) && t == s[|s| - |t|..]
  {
    assert TrimStart(s) == TrimStart(s[1..]);
    var t := TrimStart(s);
    assert |t| == 0 || TrimStart(t) == t;
  }

  /** A leading word: collapsing copies it, and it is the first word. */
  lemma WordStep(s: string)
    requires |s| > 0 && !IsSpace(s[0])
    ensures var w := TakeWord(s);
            |w| > 0 && Words(s) == [w] + Words(s[|w|..]) && Collapse(s) == w + Collapse(s[|w|..])
  {
    assert TrimStart(s) == s;
    CollapseTakeWord(s);
  }

  /** Collapsing text that starts with white space and has a word gives one
      ' ', the words joined by one ' ' each, and one ' ' for trailing white
      space. */
  lemma {:induction false} CollapseAfterSpace(s: string)
    requires |s| > 0 && Words(s) != [] && IsSpace(s[0])
    ensures Collapse(s) == " " + Join(Words(s), " ") + Pad(IsSpace(s[|s| - 1]))
    decreases |s|
  {
    SpaceStep(s);
    var t := TrimStart(s);
    assert Words([]) == [];
    assert |t| > 0;
    CollapseAfterWord(t);
    assert t[|t| - 1] == s[|s| - 1];
    ConcatAssoc([' '], Join(Words(s), " "), Pad(IsSpace(s[|s| - 1])));
  }

  /** Collapsing text that starts with a word gives the words joined by one
      ' ' each, and one ' ' for trailing white space. */
  lemma {:induction false} CollapseAfterWord(s: string)
    requires |s| > 0 && !IsSpace(s[0])
    ensures Words(s) != []
    ensures Collapse(s) == Join(Words(s), " ") + Pad(IsSpace(s[|s| - 1]))
    decreases |s|
  {
    WordStep(s);
    var w := TakeWord(s);
    var rest := s[|w|..];
    if |rest| == 0 {
      assert s == w;
      assert Words(rest) == [];
      assert Collapse(rest) == [];
    } else {
      assert rest[|rest| - 1] == s[|s| - 1];
      if Words(rest) == [] {
        WordsNone(rest);
        CollapseOfSpaces(rest);
      } else {
        CollapseAfterSpace(rest);
        JoinCons(w, Words(rest));
        var j := Join(Words(rest), " ");
        var b := Pad(IsSpace(s[|s| - 1]));
        ConcatAssoc(" ", j, b);
        ConcatAssoc(w, " " + j, b);
        ConcatAssoc(w, " ", j);
      }
    }
  }

  /** Trimming white space from around text that starts and ends with a
      word leaves that text. */
  lemma TrimPadded(a: string, j: string, b: string)
    requires forall i :: 0 <= i < |a| ==> IsSpace(a[i])
    requires forall i :: 0 <= i < |b| ==> IsSpace(b[i])
    requires |j| > 0 && !IsSpace(j[0]) && !IsSpace(j[|j| - 1])
    ensures Trim(a + (j + b)) == j
  {
    TrimStartOfSpaces(a, j + b);
    TrimEndOfSpaces(j, b);
  }

  lemma TrimPaddedBoth(j: string, trailing: bool)
    requires |j| > 0 && !IsSpace(j[0]) && !IsSpace(j[|j| - 1])
    ensures Trim(" " + j + Pad(trailing)) == j
  {
    ConcatAssoc(" ", j, Pad(trailing));
    TrimPadded(" ", j, Pad(trailing));
  }

  lemma TrimPaddedRight(j: string, trailing: bool)
    requires |j| > 0 && !IsSpace(j[0]) && !IsSpace(j[|j| - 1])
    ensures Trim(j + Pad(trailing)) == j
  {
    assert "" + (j + Pad(trailing)) == j + Pad(trailing);
    TrimPadded("", j, Pad(trailing));
  }

  lemma CleanOfNoWords(s: string)
    requires Words(s) == []
    ensures Trim(Collapse(s)) == ""
  {
    WordsNone(s);
    CollapseOfSpaces(s);
    assert TrimStart(" ") == TrimStart(" "[1..]);
  }

  lemma {:induction false} CleanAfterSpace(s: string)
    requires |s| > 0 && Words(s) != [] && IsSpace(s[0])
    ensures Trim(Collapse(s)) == Join(Words(s), " ")
  {
    JoinedWordsTrimmed(s);
    CollapseAfterSpace(s);
    TrimOfPaddedBoth(Collapse(s), Join(Words(s), " "), IsSpace(s[|s| - 1]));
  }

  lemma {:induction false} CleanAfterWord(s: string)
    requires |s| > 0 && Words(s) != [] && !IsSpace(s[0])
    ensures Trim(Collapse(s)) == Join(Words(s), " ")
  {
    JoinedWordsTrimmed(s);
    CollapseAfterWord(s);
    TrimOfPadded(Collapse(s), Join(Words(s), " "), IsSpace(s[|s| - 1]));
  }

  /** Text that is `j` with at most one ' ' after it trims to `j`. */
  lemma {:induction false} TrimOfPadded(c: string, j: string, trailing: bool)
    requires |j| > 0 && Trimmed(j)
    requires c == j + Pad(trailing)
    ensures Trim(c) == j
  {
    TrimPaddedRight(j, trailing);
  }

  /** Text that is `j` with one ' ' before it and at most one after it trims
      to `j`. */
  lemma {:induction false} TrimOfPaddedBoth(c: string, j: string, trailing: bool)
    requires |j| > 0 && Trimmed(j)
    requires c == " " + j + Pad(trailing)
    ensures Trim(c) == j
  {
    TrimPaddedBoth(j, trailing);
  }

  /** `replace(/\s+/g, ' ').trim()` is the words of the text joined by one
      ' ' each. */
  lemma CleanIsJoinedWords(s: string)
    ensures Trim(Collapse(s)) == Join(Words(s), " ")
  {
    if Words(s) == [] {
      CleanOfNoWords(s);
    } else if IsSpace(s[0]) {
      CleanAfterSpace(s);
    } else {
      CleanAfterWord(s);
    }
  }

  /** White space after collapsed text that ends in a word collapses to one
      ' '. */
  lemma {:induction false} CollapseAppendSpaces(j: string, b: string)
    requires Collapsed(j) && (|j| == 0 || !IsSpace(j[|j| - 1]))
    requires |b| > 0 && forall i :: 0 <= i < |b| ==> IsSpace(b[i])
    ensures Collapse(j + b) == j + " "
    decreases |j|
  {
    if |j| == 0 {
      assert j + b == b;
      CollapseOfSpaces(b);
    } else {
      assert j == [j[0]] + j[1..];
      var x := j + b;
      assert x[1..] == j[1..] + b;
      CollapsedInfix(j, 1, |j|);
      assert j[1..|j|] == j[1..];
      CollapseAppendSpaces(j[1..], b);
      if IsSpace(j[0]) {
        assert LoneSpaceAt(j, 0);
        TrimStartOfSpaces([], x[1..]);
        assert [] + x[1..] == x[1..];
      }
      ConcatAssoc([j[0]], j[1..], " ");
    }
  }

  /** Trailing white space does not change the cleaned text. */
  lemma CleanIgnoresTrailingSpace(j: string, b: string)
    requires IsClean(j) && |j| > 0
    requires forall i :: 0 <= i < |b| ==> IsSpace(b[i])
    ensures Clean(j + b) == j
  {
    if |b| == 0 {
      assert j + b == j;
      CleanFixpoint(j);
    } else {
      CollapseAppendSpaces(j, b);
      TrimPaddedRight(j, true);
    }
  }

  /** Cleaning is idempotent: clean text is its own normal form. */
  lemma CleanFixpoint(s: string)
    requires IsClean(s)
    ensures Clean(s) == s
  {
    CollapseFixpoint(s);
  }

  /** Cleaning only ever introduces the plain ' ' character. */
  lemma CleanMembers(s: string)
    ensures forall c :: c in Clean(s) ==> c in s || c == ' '
  {
    var r := Clean(s);
    forall c | c in r && !IsSpace(c)
      ensures c in s
    {
      NonSpaceMembers(r, c);
      NonSpaceMembers(s, c);
    }
  }

  /** `r` occurs in `s` as a contiguous piece. */
  ghost predicate IsInfix(r: string, s: string) {
    exists a, b :: 0 <= a <= b <= |s| && r == s[a..b]
  }

  lemma TrimIsInfix(s: string, a: nat, b: nat)
    requires a <= b <= |s|
    ensures exists a', b' :: a <= a' <= b' <= b && Trim(s[a..b]) == s[a'..b']
  {
    var k, m := TrimSlice(s[a..b]);
    SliceOfSlice(s, a, b, k, m);
  }

  /** Trimming the text from `start` on keeps a slice of it, with only
      white space around the slice. */
  lemma TrimSliceFrom(s: string, start: nat) returns (a: nat, b: nat)
    requires start <= |s|
    ensures start <= a <= b <= |s| && Trim(s[start..]) == s[a..b]
    ensures forall i :: start <= i < a ==> IsSpace(s[i])
    ensures forall i :: b <= i < |s| ==> IsSpace(s[i])
  {
    var k, m := TrimSlice(s[start..]);
    a, b := ShiftSlice(s, start, s[start..], k, m);
  }

  /** A slice of `s[start..]` with only white space around it, read as a
      slice of `s`. */
  lemma ShiftSlice(s: string, start: nat, rest: string, k: nat, m: nat) returns (a: nat, b: nat)
    requires start <= |s| && rest == s[start..] && k <= m <= |rest|
    requires forall i :: 0 <= i < k ==> IsSpace(rest[i])
    requires forall i :: m <= i < |rest| ==> IsSpace(rest[i])
    ensures start <= a <= b <= |s| && rest[k..m] == s[a..b]
    ensures forall i :: start <= i < a ==> IsSpace(s[i])
    ensures forall i :: b <= i < |s| ==> IsSpace(s[i])
  {
    a, b := start + k, start + m;
    SliceOfSlice(s, start, |s|, k, m);
    forall i | start <= i < a
      ensures IsSpace(s[i])
    {
      assert s[i] == rest[i - start];
    }
    forall i | b <= i < |s|
      ensures IsSpace(s[i])
    {
      assert s[i] == rest[i - start];
    }
  }

  lemma SliceOfSlice(s: string, a: nat, b: nat, k: nat, m: nat)
    requires a <= b <= |s| && k <= m <= b - a
    ensures s[a..b][k..m] == s[a + k..a + m]
  {
    forall i | 0 <= i < m - k
      ensures s[a..b][k..m][i] == s[a + k..a + m][i]
    {
    }
  }

  lemma CollapsedInfix(s: string, a: nat, b: nat)
    requires Collapsed(s) && a <= b <= |s|
    ensures Collapsed(s[a..b])
  {
    forall i | 0 <= i < b - a
      ensures s[a..b][i] == s[a + i]
    {
    }
    forall i | 0 <= i < b - a - 1
      ensures LoneSpaceAt(s[a..b], i)
    {
      assert LoneSpaceAt(s, a + i);
    }
  }

  /** ASCII digits, JavaScript's `\d`. */
  predicate IsDigit(c: char) {
    '0' <= c <= '9'
  }

  /** JavaScript's `\w` without the `u` flag: ASCII letters, digits and `_`. */
  predicate IsWordChar(c: char) {
    'a' <= c <= 'z' || 'A' <= c <= 'Z' || IsDigit(c) || c == '_'
  }

  /** `s.includes(sub)`. */
  predicate Contains(s: string, sub: string)
    decreases |s|
  {
    sub <= s || (|s| > 0 && Contains(s[1..], sub))
  }

  /** `Contains` holds exactly when `sub` occurs at some position of `s`. */
  lemma {:induction false} ContainsAt(s: string, sub: string, i: nat)
    requires i + |sub| <= |s| && s[i..i + |sub|] == sub
    ensures Contains(s, sub)
    decreases i
  {
    if i > 0 {
      assert s[1..][i - 1..i - 1 + |sub|] == s[i..i + |sub|];
      ContainsAt(s[1..], sub, i - 1);
    }
  }

  /** A piece between two others is contained in the whole. */
  lemma ContainsMiddle(a: string, b: string, c: string)
    ensures Contains(a + b + c, b)
  {
    assert (a + b + c)[|a|..|a| + |b|] == b;
    ContainsAt(a + b + c, b, |a|);
  }

  lemma {:induction false} ContainsWitness(s: string, sub: string) returns (i: nat)
    requires Contains(s, sub)
    ensures i + |sub| <= |s| && s[i..i + |sub|] == sub
    decreases |s|
  {
    if sub <= s {
      i := 0;
    } else {
      var j := ContainsWitness(s[1..], sub);
      assert s[1..][j..j + |sub|] == s[j + 1..j + 1 + |sub|];
      i := j + 1;
    }
  }

  /** Maps an ASCII capital to its lower-case letter; other characters are
      unchanged (a JavaScript regular expression with the `i` flag and no `u`
      flag never folds a non-ASCII character onto an ASCII one). */
  function LowerAscii(c: char): (r: char)
    ensures 'A' <= c <= 'Z' ==> 'a' <= r <= 'z'
    ensures !('A' <= c <= 'Z') ==> r == c
  {
    if 'A' <= c <= 'Z' then (c as int + 32) as char else c
  }

  function LowerAsciiString(s: string): (r: string)
    ensures |r| == |s|
    ensures forall i :: 0 <= i < |s| ==> r[i] == LowerAscii(s[i])
  {
    seq(|s|, i requires 0 <= i < |s| => LowerAscii(s[i]))
  }

  lemma LowerAsciiAppend(a: string, b: string)
    ensures LowerAsciiString(a + b) == LowerAsciiString(a) + LowerAsciiString(b)
  {
    var l, r := LowerAsciiString(a + b), LowerAsciiString(a) + LowerAsciiString(b);
    forall i | 0 <= i < |l|
      ensures l[i] == r[i]
    {
      if i < |a| {
        assert (a + b)[i] == a[i];
      } else {
        assert (a + b)[i] == b[i - |a|];
      }
    }
  }

  /** `s.split(re)` where `re` matches exactly one character from `seps`:
      the pieces between consecutive separators, empty pieces included. */
  function Split(s: string, seps: set<char>): (parts: seq<string>)
    ensures |parts| >= 1
    ensures forall i, c :: 0 <= i < |parts| && c in parts[i] ==> c !in seps
  {
    if |s| == 0 then [""]
    else
      var rest := Split(s[1..], seps);
      if s[0] in seps then [""] + rest
      else [[s[0]] + rest[0]] + rest[1..]
  }

  /** The separator characters of `s`, in order. */
  function SeparatorsOf(s: string, seps: set<char>): (r: string)
    ensures forall c :: c in r ==> c in seps
  {
    if |s| == 0 then []
    else (if s[0] in seps then [s[0]] else []) + SeparatorsOf(s[1..], seps)
  }

  /** Puts `glue[i]` between `parts[i]` and `parts[i + 1]`. */
  function Interleave(parts: seq<string>, glue: string): string
    requires |parts| == |glue| + 1
  {
    if |glue| == 0 then parts[0]
    else parts[0] + [glue[0]] + Interleave(parts[1..], glue[1..])
  }

  /** Splitting loses nothing: putting the separators back between the pieces
      rebuilds the original text. */
  lemma {:induction false} SplitRoundTrip(s: string, seps: set<char>)
    ensures |Split(s, seps)| == |SeparatorsOf(s, seps)| + 1
    ensures Interleave(Split(s, seps), SeparatorsOf(s, seps)) == s
    decreases |s|
  {
    if |s| > 0 {
      SplitRoundTrip(s[1..], seps);
      var rest := Split(s[1..], seps);
      var glue := SeparatorsOf(s[1..], seps);
      if s[0] in seps {
        assert Split(s, seps)[1..] == rest;
        assert SeparatorsOf(s, seps)[1..] == glue;
      } else {
        var parts := Split(s, seps);
        assert parts == [[s[0]] + rest[0]] + rest[1..];
        assert SeparatorsOf(s, seps) == glue;
        assert s == [s[0]] + s[1..];
        if |glue| > 0 {
          assert Interleave(rest, glue) == rest[0] + [glue[0]] + Interleave(rest[1..], glue[1..]);
          assert parts[1..] == rest[1..];
          assert Interleave(parts, glue) == parts[0] + [glue[0]] + Interleave(parts[1..], glue[1..]);
        }
      }
    }
  }

  /** Text without separators is one piece. */
  lemma {:induction false} SplitWithout(a: string, seps: set<char>)
    requires forall i :: 0 <= i < |a| ==> a[i] !in seps
    ensures Split(a, seps) == [a]
    decreases |a|
  {
    if |a| > 0 {
      SplitWithout(a[1..], seps);
      assert [a[0]] + a[1..] == a;
    }
  }

  /** The first piece ends at the first separator. */
  lemma {:induction false} SplitAtFirst(a: string, c: char, b: string, seps: set<char>)
    requires forall i :: 0 <= i < |a| ==> a[i] !in seps
    requires c in seps
    ensures Split(a + [c] + b, seps) == [a] + Split(b, seps)
    decreases |a|
  {
    if |a| == 0 {
      assert a + [c] + b == [c] + b;
      assert ([c] + b)[1..] == b;
    } else {
      SplitAtFirst(a[1..], c, b, seps);
      var s := a + [c] + b;
      assert s[0] == a[0] && s[1..] == a[1..] + [c] + b;
      assert [a[0]] + a[1..] == a;
    }
  }

  /** `items.join(sep)`. */
  function Join(items: seq<string>, sep: string): (r: string)
    ensures |items| == 0 ==> r == ""
    ensures |items| > 0 ==> items[0] <= r
  {
    if |items| == 0 then ""
    else if |items| == 1 then items[0]
    else items[0] + sep + Join(items[1..], sep)
  }

  /** Joining with one character is interleaving with that character repeated. */
  lemma {:induction false} JoinIsInterleave(items: seq<string>, c: char, glue: string)
    requires |items| == |glue| + 1
    requires forall i :: 0 <= i < |glue| ==> glue[i] == c
    ensures Join(items, [c]) == Interleave(items, glue)
    decreases |glue|
  {
    if |glue| > 0 {
      JoinIsInterleave(items[1..], c, glue[1..]);
    }
  }

  /** Splitting on one character and joining with it is the identity. */
  lemma JoinSplit(s: string, c: char)
    ensures Join(Split(s, {c}), [c]) == s
  {
    SplitRoundTrip(s, {c});
    var glue := SeparatorsOf(s, {c});
    assert forall i :: 0 <= i < |glue| ==> glue[i] in glue;
    JoinIsInterleave(Split(s, {c}), c, SeparatorsOf(s, {c}));
  }

  function DigitChar(d: nat): (c: char)
    requires d < 10
    ensures '0' <= c <= '9' && c as int - '0' as int == d
  {
    (d + '0' as int) as char
  }

  /** The decimal digits of `n`, as a template literal renders a number. */
  function NatToString(n: nat): (r: string)
    ensures |r| >= 1
    ensures forall i :: 0 <= i < |r| ==> '0' <= r[i] <= '9'
    ensures n > 0 ==> r[0] != '0'
  {
    if n < 10 then [DigitChar(n)] else NatToString(n / 10) + [DigitChar(n % 10)]
  }

  /** The number a string of decimal digits denotes. */
  function DecimalValue(s: string): nat
    requires forall i :: 0 <= i < |s| ==> '0' <= s[i] <= '9'
  {
    if |s| == 0 then 0 else 10 * DecimalValue(s[..|s| - 1]) + (s[|s| - 1] as int - '0' as int)
  }

  /** Rendering a number in decimal loses nothing. */
  lemma {:induction false} NatToStringRoundTrip(n: nat)
    ensures DecimalValue(NatToString(n)) == n
  {
    if n >= 10 {
      NatToStringRoundTrip(n / 10);
      var r := NatToString(n);
      assert r[..|r| - 1] == NatToString(n / 10);
    }
  }

  /** JavaScript's `s.length`: a character outside the Basic Multilingual
      Plane counts as two UTF-16 code units. */
  function Utf16Length(s: string): (n: nat)
    ensures |s| <= n <= 2 * |s|
    ensures (forall i :: 0 <= i < |s| ==> s[i] as int <= 0xFFFF) ==> n == |s|
  {
    if |s| == 0 then 0 else (if s[0] as int > 0xFFFF then 2 else 1) + Utf16Length(s[1..])
  }

  /** One code unit per character of the Basic Multilingual Plane, two (a
      surrogate pair) per character beyond it, summed over the text. */
  lemma {:induction false} Utf16LengthAppend(a: string, b: string)
    ensures Utf16Length(a + b) == Utf16Length(a) + Utf16Length(b)
    ensures |a| == 1 ==> Utf16Length(a) == (if a[0] as int > 0xFFFF then 2 else 1)
    decreases |a|
  {
    if |a| == 0 {
      assert a + b == b;
    } else {
      assert (a + b)[1..] == a[1..] + b;
      Utf16LengthAppend(a[1..], b);
    }
  }
}
