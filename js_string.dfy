/**
 * The JavaScript string built-ins that the note store and the note card call:
 * the `\s` character class (which `trim` uses too), `trim`, the
 * `replace(/\s+/g, " ")` idiom, `toLowerCase` and `includes`.
 * Strings are sequences of Unicode scalar values.
 */
module JsString {

  /** ECMAScript WhiteSpace and LineTerminator code points: the set matched by `\s` and removed by `trim`. */
  predicate IsSpace(c: char) {
    || c == '\t' || c == '\n' || c == '\U{000B}' || c == '\U{000C}' || c == '\r' || c == ' '
    || c == '\U{00A0}' || c == '\U{1680}' || ('\U{2000}' <= c <= '\U{200A}')
    || c == '\U{2028}' || c == '\U{2029}' || c == '\U{202F}' || c == '\U{205F}'
    || c == '\U{3000}' || c == '\U{FEFF}'
  }

  predicate AllSpace(s: string) {
    forall i :: 0 <= i < |s| ==> IsSpace(s[i])
  }

  /** No two adjacent characters are both whitespace. */
  predicate NoDoubleSpace(s: string) {
    forall i :: 0 < i < |s| ==> !IsSpace(s[i - 1]) || !IsSpace(s[i])
  }

  /** Neither the first nor the last character is whitespace. */
  predicate Trimmed(s: string) {
    s == [] || (!IsSpace(s[0]) && !IsSpace(s[|s| - 1]))
  }

  /** The non-whitespace characters of `s`, in order. */
  function NonSpace(s: string): string {
    if s == [] then []
    else (if IsSpace(s[0]) then [] else [s[0]]) + NonSpace(s[1..])
  }

  /** `trimStart`: drops the leading whitespace. */
  function TrimStart(s: string): (r: string)
    ensures |r| <= |s| && r == s[|s| - |r|..]
    ensures AllSpace(s[..|s| - |r|])
    ensures r == [] || !IsSpace(r[0])
  {
    if s != [] && IsSpace(s[0]) then
      var r := TrimStart(s[1..]);
      DropFirst(s, |r|);
      AllSpaceCons(s[0], s[1..][..|s| - 1 - |r|]);
      r
    else s
  }

  /** `trimEnd`: drops the trailing whitespace. */
  function TrimEnd(s: string): (r: string)
    ensures |r| <= |s| && r == s[..|r|]
    ensures AllSpace(s[|r|..])
    ensures r == [] || !IsSpace(r[|r| - 1])
  {
    if s != [] && IsSpace(s[|s| - 1]) then
      var r := TrimEnd(s[..|s| - 1]);
      DropLast(s, |r|);
      r
    else s
  }

  lemma AllSpaceCons(c: char, t: string)
    requires IsSpace(c) && AllSpace(t)
    ensures AllSpace([c] + t)
  {
    forall i | 0 < i < |[c] + t| ensures IsSpace(([c] + t)[i]) {
      assert ([c] + t)[i] == t[i - 1];
    }
  }

  lemma DropFirst<T>(s: seq<T>, m: nat)
    requires m < |s|
    ensures s[1..][|s| - 1 - m..] == s[|s| - m..] && s[..|s| - m] == [s[0]] + s[1..][..|s| - 1 - m]
  {
  }

  lemma DropLast<T>(s: seq<T>, m: nat)
    requires m < |s|
    ensures s[..|s| - 1][..m] == s[..m] && s[m..] == s[..|s| - 1][m..] + [s[|s| - 1]]
  {
  }

  lemma SuffixPrefix<T>(s: seq<T>, k: nat, m: nat)
    requires k + m <= |s|
    ensures s[k..][..m] == s[k..k + m]
  {
  }

  /** `String.prototype.trim`. */
  function Trim(s: string): (r: string)
    ensures Trimmed(r)
  {
    TrimEnd(TrimStart(s))
  }

  /** `s.replace(/\s+/g, " ")`: every maximal run of whitespace becomes one space. */
  function CollapseSpaces(s: string): (r: string)
    ensures (r == []) == (s == [])
    ensures r != [] ==> (IsSpace(r[0]) <==> IsSpace(s[0]))
    ensures NoDoubleSpace(r)
    ensures forall i :: 0 <= i < |r| && IsSpace(r[i]) ==> r[i] == ' '
    decreases |s|
  {
    if s == [] then []
    else if IsSpace(s[0]) then
      var rest := TrimStart(s);
      var tail := CollapseSpaces(rest);
      assert NoDoubleSpace([' '] + tail) by {
        forall i | 0 < i < |[' '] + tail| ensures !IsSpace(([' '] + tail)[i - 1]) || !IsSpace(([' '] + tail)[i]) {
          if i > 1 { assert ([' '] + tail)[i - 1] == tail[i - 2] && ([' '] + tail)[i] == tail[i - 1]; }
        }
      }
      [' '] + tail
    else
      var tail := CollapseSpaces(s[1..]);
      assert NoDoubleSpace([s[0]] + tail) by {
        forall i | 0 < i < |[s[0]] + tail| ensures !IsSpace(([s[0]] + tail)[i - 1]) || !IsSpace(([s[0]] + tail)[i]) {
          if i > 1 { assert ([s[0]] + tail)[i - 1] == tail[i - 2] && ([s[0]] + tail)[i] == tail[i - 1]; }
        }
      }
      [s[0]] + tail
  }

  /** `toLowerCase`, restricted to the ASCII letters. */
  function ToLowerChar(c: char): char {
    if 'A' <= c <= 'Z' then (c as int + 32) as char else c
  }

  function ToLower(s: string): (r: string)
    ensures |r| == |s|
    ensures forall i :: 0 <= i < |s| ==> r[i] == ToLowerChar(s[i])
  {
    seq(|s|, i requires 0 <= i < |s| => ToLowerChar(s[i]))
  }

  predicate IsPrefix(p: string, s: string) {
    |p| <= |s| && s[..|p|] == p
  }

  /** `s.includes(sub)`, scanning the start positions left to right. */
  predicate Includes(s: string, sub: string)
    decreases |s|
  {
    IsPrefix(sub, s) || (s != [] && Includes(s[1..], sub))
  }

  /** `sub` occurs in `s` starting at position `i`. */
  predicate OccursAt(s: string, sub: string, i: int) {
    0 <= i <= |s| - |sub| && s[i..i + |sub|] == sub
  }

  /** An occurrence anywhere makes `includes` true. */
  lemma {:induction false} OccurrenceIsIncluded(s: string, sub: string, i: nat)
    requires OccursAt(s, sub, i)
    ensures Includes(s, sub)
  {
    if i > 0 {
      assert s[1..][i - 1..i - 1 + |sub|] == s[i..i + |sub|];
      OccurrenceIsIncluded(s[1..], sub, i - 1);
    }
  }

  /** An occurrence past the first position is an occurrence in the tail, one position earlier. */
  lemma OccursInTail(s: string, sub: string, j: int)
    ensures OccursAt(s, sub, j) && j == 0 ==> IsPrefix(sub, s)
    ensures OccursAt(s, sub, j) && j > 0 ==> OccursAt(s[1..], sub, j - 1)
  {
    if OccursAt(s, sub, j) && j > 0 {
      assert s[1..][j - 1..j - 1 + |sub|] == s[j..j + |sub|];
    }
  }

  /** And when `includes` is true, the scan stops at the first occurrence. */
  lemma {:induction false} IncludedOccurs(s: string, sub: string) returns (i: nat)
    requires Includes(s, sub)
    ensures OccursAt(s, sub, i)
    ensures forall j :: 0 <= j < i ==> !OccursAt(s, sub, j)
    decreases |s|
  {
    if IsPrefix(sub, s) {
      i := 0;
    } else {
      var k := IncludedOccurs(s[1..], sub);
      i := k + 1;
      assert s[1..][k..k + |sub|] == s[i..i + |sub|];
      forall j | 0 <= j < i ensures !OccursAt(s, sub, j) {
        OccursInTail(s, sub, j);
      }
    }
  }

  /** A string that lacks the first character of `sub` does not include `sub`. */
  lemma {:induction false} FirstCharMissing(s: string, sub: string)
    requires sub != [] && forall i :: 0 <= i < |s| ==> s[i] != sub[0]
    ensures !Includes(s, sub)
  {
    if s != [] {
      assert !IsPrefix(sub, s) by {
        if |sub| <= |s| { assert s[..|sub|][0] == s[0]; }
      }
      assert forall i :: 0 <= i < |s[1..]| ==> s[1..][i] != sub[0];
      FirstCharMissing(s[1..], sub);
    } else {
      assert !IsPrefix(sub, s);
    }
  }

  lemma {:induction false} NonSpaceAppend(a: string, b: string)
    ensures NonSpace(a + b) == NonSpace(a) + NonSpace(b)
  {
    if a == [] {
      assert a + b == b;
    } else {
      assert (a + b)[1..] == a[1..] + b;
      NonSpaceAppend(a[1..], b);
    }
  }

  lemma {:induction false} NonSpaceOfAllSpace(s: string)
    requires AllSpace(s)
    ensures NonSpace(s) == []
  {
    if s != [] {
      NonSpaceOfAllSpace(s[1..]);
    }
  }

  lemma TrimStartKeepsNonSpace(s: string)
    ensures NonSpace(TrimStart(s)) == NonSpace(s)
  {
    var t := TrimStart(s);
    var lead := s[..|s| - |t|];
    assert s == lead + t;
    NonSpaceAppend(lead, t);
    NonSpaceOfAllSpace(lead);
  }

  lemma TrimEndKeepsNonSpace(s: string)
    ensures NonSpace(TrimEnd(s)) == NonSpace(s)
  {
    var r := TrimEnd(s);
    var trail := s[|r|..];
    assert s == r + trail;
    NonSpaceAppend(r, trail);
    NonSpaceOfAllSpace(trail);
  }

  /** `trim` removes only whitespace: every other character survives, in order. */
  lemma TrimKeepsNonSpace(s: string)
    ensures NonSpace(Trim(s)) == NonSpace(s)
  {
    TrimStartKeepsNonSpace(s);
    TrimEndKeepsNonSpace(TrimStart(s));
  }

  /** `trim` gives the empty string exactly for a blank input. */
  lemma TrimEmptyIffBlank(s: string)
    ensures Trim(s) == "" <==> NonSpace(s) == []
  {
    TrimKeepsNonSpace(s);
    if NonSpace(s) == [] {
      TrimmedBlankIsEmpty(Trim(s));
    }
  }

  /** `trim` returns a contiguous piece of its input, starting at `k`. */
  lemma TrimPosition(s: string) returns (k: nat)
    ensures k + |Trim(s)| <= |s| && Trim(s) == s[k..k + |Trim(s)|]
  {
    var t := TrimStart(s);
    k := |s| - |t|;
    SuffixPrefix(s, k, |TrimEnd(t)|);
  }

  /** So no whitespace pair appears in the trimmed text that was not in the input. */
  lemma TrimKeepsNoDoubleSpace(s: string)
    requires NoDoubleSpace(s)
    ensures NoDoubleSpace(Trim(s))
  {
    var k := TrimPosition(s);
    SliceKeepsNoDoubleSpace(s, k, k + |Trim(s)|);
  }

  lemma SliceKeepsNoDoubleSpace(s: string, lo: nat, hi: nat)
    requires lo <= hi <= |s| && NoDoubleSpace(s)
    ensures NoDoubleSpace(s[lo..hi])
  {
    var r := s[lo..hi];
    forall i | 0 < i < |r| ensures !IsSpace(r[i - 1]) || !IsSpace(r[i]) {
      assert r[i - 1] == s[lo + i - 1] && r[i] == s[lo + i];
    }
  }

  /** And the only whitespace left in the trimmed text is the kind the input had. */
  lemma TrimKeepsPlainSpaces(s: string)
    requires forall i :: 0 <= i < |s| && IsSpace(s[i]) ==> s[i] == ' '
    ensures forall i :: 0 <= i < |Trim(s)| && IsSpace(Trim(s)[i]) ==> Trim(s)[i] == ' '
  {
    var k := TrimPosition(s);
    var r := Trim(s);
    forall i | 0 <= i < |r| && IsSpace(r[i]) ensures r[i] == ' ' {
      assert r[i] == s[k + i];
    }
  }

  /** A trimmed string without non-whitespace characters is empty. */
  lemma TrimmedBlankIsEmpty(s: string)
    requires Trimmed(s) && NonSpace(s) == []
    ensures s == []
  {
  }

  /** Collapsing whitespace runs keeps every non-whitespace character, in order. */
  lemma {:induction false} CollapseKeepsNonSpace(s: string)
    ensures NonSpace(CollapseSpaces(s)) == NonSpace(s)
    decreases |s|
  {
    if s == [] {
    } else if IsSpace(s[0]) {
      var t := TrimStart(s);
      CollapseKeepsNonSpace(t);
      NonSpaceAppend([' '], CollapseSpaces(t));
      TrimStartKeepsNonSpace(s);
    } else {
      CollapseKeepsNonSpace(s[1..]);
      NonSpaceAppend([s[0]], CollapseSpaces(s[1..]));
    }
  }

  /** Collapsing keeps whether the string ends in whitespace. */
  lemma {:induction false} CollapseKeepsLastSpace(s: string)
    requires s != []
    ensures IsSpace(CollapseSpaces(s)[|CollapseSpaces(s)| - 1]) <==> IsSpace(s[|s| - 1])
    decreases |s|
  {
    if IsSpace(s[0]) {
      var rest := TrimStart(s);
      if rest != [] {
        CollapseKeepsLastSpace(rest);
        assert rest[|rest| - 1] == s[|s| - 1];
      } else {
        assert IsSpace(s[..|s|][|s| - 1]);
      }
    } else if |s| > 1 {
      CollapseKeepsLastSpace(s[1..]);
    }
  }

  /** The length of the run of non-whitespace characters that `s` starts with. */
  function WordLength(s: string): (n: nat)
    ensures n <= |s|
  {
    if s == [] || IsSpace(s[0]) then 0 else 1 + WordLength(s[1..])
  }

  /** The run is all non-whitespace, and it is maximal: whitespace or the end follows it. */
  lemma {:induction false} WordLengthIsMaximal(s: string)
    ensures forall i :: 0 <= i < WordLength(s) ==> !IsSpace(s[i])
    ensures WordLength(s) < |s| ==> IsSpace(s[WordLength(s)])
  {
    if s != [] && !IsSpace(s[0]) {
      WordLengthIsMaximal(s[1..]);
      forall i | 0 < i < WordLength(s) ensures !IsSpace(s[i]) {
        assert s[i] == s[1..][i - 1];
      }
    }
  }

  /** The words of `s`: its maximal runs of non-whitespace characters, in order. */
  function Words(s: string): seq<string>
    decreases |s|
  {
    if s == [] then []
    else if IsSpace(s[0]) then Words(s[1..])
    else [s[..WordLength(s)]] + Words(s[WordLength(s)..])
  }

  /** The words joined with one space between neighbours. */
  function JoinWords(ws: seq<string>): string {
    if ws == [] then []
    else if |ws| == 1 then ws[0]
    else ws[0] + " " + JoinWords(ws[1..])
  }

  /** Every word is non-empty and holds no whitespace. */
  lemma {:induction false} WordsAreWords(s: string)
    ensures forall w :: w in Words(s) ==> w != [] && forall i :: 0 <= i < |w| ==> !IsSpace(w[i])
    decreases |s|
  {
    if s == [] {
    } else if IsSpace(s[0]) {
      WordsAreWords(s[1..]);
    } else {
      var n := WordLength(s);
      WordLengthIsMaximal(s);
      WordsAreWords(s[n..]);
    }
  }

  lemma {:induction false} WordsOfAllSpace(s: string)
    requires AllSpace(s)
    ensures Words(s) == []
  {
    if s != [] {
      WordsOfAllSpace(s[1..]);
    }
  }

  /** Text after the first run does not change the run's length when whitespace or the end separates them. */
  lemma {:induction false} WordLengthAppend(a: string, b: string)
    requires WordLength(a) < |a| || b == [] || IsSpace(b[0])
    ensures WordLength(a + b) == WordLength(a)
  {
    if a == [] {
      assert a + b == b;
    } else if !IsSpace(a[0]) {
      assert (a + b)[1..] == a[1..] + b;
      WordLengthAppend(a[1..], b);
    }
  }

  /** A string that starts with a word: the word, then the words of the rest. */
  lemma WordsOfWord(s: string)
    requires s != [] && !IsSpace(s[0])
    ensures WordLength(s) >= 1
    ensures Words(s) == [s[..WordLength(s)]] + Words(s[WordLength(s)..])
  {
  }

  lemma WordLengthBeforeSeparator(a: string, b: string)
    requires a != [] && (b == [] || IsSpace(a[|a| - 1]) || IsSpace(b[0]))
    ensures WordLength(a + b) == WordLength(a)
  {
    WordLengthIsMaximal(a);
    if WordLength(a) == |a| {
      assert !IsSpace(a[|a| - 1]);
    }
    WordLengthAppend(a, b);
  }

  lemma SplitAppend(a: string, b: string, n: nat)
    requires n <= |a|
    ensures (a + b)[..n] == a[..n] && (a + b)[n..] == a[n..] + b
  {
  }

  lemma ConsAppend<T>(x: T, p: seq<T>, q: seq<T>)
    ensures [x] + (p + q) == ([x] + p) + q
  {
  }

  lemma AppendAssoc<T>(p: seq<T>, q: seq<T>, r: seq<T>)
    ensures p + (q + r) == (p + q) + r
  {
  }

  lemma AppendEmpty<T>(p: seq<T>)
    ensures p + [] == p && [] + p == p
  {
  }

  lemma SplitAt<T>(p: seq<T>, n: nat)
    requires n <= |p|
    ensures p == p[..n] + p[n..]
  {
  }

  /** Text after a word, past a separator, leaves the first word alone and adds its words after it. */
  lemma WordsOfLeadingWord(a: string, b: string)
    requires a != [] && !IsSpace(a[0])
    requires b == [] || IsSpace(a[|a| - 1]) || IsSpace(b[0])
    ensures Words(a + b) == [a[..WordLength(a)]] + Words(a[WordLength(a)..] + b)
  {
    var ab := a + b;
    assert ab[0] == a[0];
    WordsOfWord(ab);
    WordLengthBeforeSeparator(a, b);
    SplitAppend(a, b, WordLength(a));
  }

  lemma WordsAppendWord(a: string, b: string)
    requires a != [] && !IsSpace(a[0])
    requires b == [] || IsSpace(a[|a| - 1]) || IsSpace(b[0])
    requires Words(a[WordLength(a)..] + b) == Words(a[WordLength(a)..]) + Words(b)
    ensures Words(a + b) == Words(a) + Words(b)
  {
    WordsOfLeadingWord(a, b);
    WordsOfWord(a);
    ConsAppend(a[..WordLength(a)], Words(a[WordLength(a)..]), Words(b));
  }

  /** Where whitespace or an end separates two strings, the words of the whole are the words of the parts. */
  lemma {:induction false} WordsAppend(a: string, b: string)
    requires a == [] || b == [] || IsSpace(a[|a| - 1]) || IsSpace(b[0])
    ensures Words(a + b) == Words(a) + Words(b)
    decreases |a|
  {
    if a == [] {
      assert a + b == b;
    } else if IsSpace(a[0]) {
      assert (a + b)[1..] == a[1..] + b;
      WordsAppend(a[1..], b);
    } else {
      var n := WordLength(a);
      WordsOfWord(a);
      var tail := a[n..];
      assert tail != [] ==> tail[|tail| - 1] == a[|a| - 1];
      WordsAppend(tail, b);
      WordsAppendWord(a, b);
    }
  }

  lemma WordsSkipSpace(c: char, s: string)
    requires IsSpace(c)
    ensures Words([c] + s) == Words(s)
  {
    assert ([c] + s)[1..] == s;
  }

  /** Trimming the start keeps the words. */
  lemma WordsOfTrimStart(s: string)
    ensures Words(TrimStart(s)) == Words(s)
  {
    var t := TrimStart(s);
    var lead := s[..|s| - |t|];
    SplitAt(s, |s| - |t|);
    WordsAppend(lead, t);
    WordsOfAllSpace(lead);
    AppendEmpty(Words(t));
  }

  /** Trimming keeps the words. */
  lemma WordsOfTrim(s: string)
    ensures Words(Trim(s)) == Words(s)
  {
    var t := TrimStart(s);
    assert Words(t) == Words(s) by {
      WordsOfTrimStart(s);
    }
    var r := TrimEnd(t);
    assert Words(r) == Words(t) by {
      var trail := t[|r|..];
      SplitAt(t, |r|);
      WordsAppend(r, trail);
      WordsOfAllSpace(trail);
      AppendEmpty(Words(r));
    }
  }

  lemma SplitTail(s: string, n: nat)
    requires 1 <= n <= |s|
    ensures s[1..][..n - 1] == s[1..n] && s[1..][n - 1..] == s[n..] && [s[0]] + s[1..n] == s[..n]
  {
  }

  lemma CollapseCons(s: string)
    requires s != [] && !IsSpace(s[0])
    ensures CollapseSpaces(s) == [s[0]] + CollapseSpaces(s[1..])
  {
  }

  /** Collapsing a one-character word followed by whitespace or the end. */
  lemma CollapseWordEnd(s: string)
    requires s != [] && !IsSpace(s[0]) && (|s| == 1 || IsSpace(s[1]))
    ensures CollapseSpaces(s) == s[..WordLength(s)] + CollapseSpaces(s[WordLength(s)..])
  {
    assert WordLength(s) == 1 by {
      assert WordLength(s[1..]) == 0;
    }
    assert s[..1] == [s[0]];
    CollapseCons(s);
  }

  lemma CollapseWordStep(s: string)
    requires s != [] && !IsSpace(s[0]) && |s| > 1 && !IsSpace(s[1])
    requires CollapseSpaces(s[1..]) == s[1..][..WordLength(s[1..])] + CollapseSpaces(s[1..][WordLength(s[1..])..])
    ensures CollapseSpaces(s) == s[..WordLength(s)] + CollapseSpaces(s[WordLength(s)..])
  {
    var n := WordLength(s);
    CollapseCons(s);
    assert WordLength(s[1..]) == n - 1;
    SplitTail(s, n);
    ConsAppend(s[0], s[1..n], CollapseSpaces(s[n..]));
  }

  /** Collapsing a string that starts with a word copies the word, then collapses the rest. */
  lemma {:induction false} CollapseWord(s: string)
    requires s != [] && !IsSpace(s[0])
    ensures CollapseSpaces(s) == s[..WordLength(s)] + CollapseSpaces(s[WordLength(s)..])
  {
    if |s| == 1 || IsSpace(s[1]) {
      CollapseWordEnd(s);
    } else {
      CollapseWord(s[1..]);
      CollapseWordStep(s);
    }
  }

  lemma CollapseKeepsWordsSpace(s: string)
    requires s != [] && IsSpace(s[0])
    requires Words(CollapseSpaces(TrimStart(s))) == Words(TrimStart(s))
    ensures Words(CollapseSpaces(s)) == Words(s)
  {
    WordsOfTrimStart(s);
    WordsSkipSpace(' ', CollapseSpaces(TrimStart(s)));
  }

  lemma CollapseKeepsWordsWord(s: string)
    requires s != [] && !IsSpace(s[0])
    requires Words(CollapseSpaces(s[WordLength(s)..])) == Words(s[WordLength(s)..])
    ensures Words(CollapseSpaces(s)) == Words(s)
  {
    var n := WordLength(s);
    var head, t := s[..n], s[n..];
    var ct := CollapseSpaces(t);
    assert t == [] || IsSpace(t[0]) by {
      WordLengthIsMaximal(s);
    }
    assert ct == [] || IsSpace(ct[0]);
    CollapseWord(s);
    WordsAppend(head, ct);
    WordsAppend(head, t);
    SplitAt(s, n);
  }

  /** `replace(/\s+/g, " ")` keeps the words: only the whitespace between them changes. */
  lemma {:induction false} CollapseKeepsWords(s: string)
    ensures Words(CollapseSpaces(s)) == Words(s)
    decreases |s|
  {
    if s == [] {
    } else if IsSpace(s[0]) {
      CollapseKeepsWords(TrimStart(s));
      CollapseKeepsWordsSpace(s);
    } else {
      WordsOfWord(s);
      CollapseKeepsWords(s[WordLength(s)..]);
      CollapseKeepsWordsWord(s);
    }
  }

  /** Single plain spaces between words, and no whitespace at either end. */
  predicate Plain(r: string) {
    && Trimmed(r) && NoDoubleSpace(r)
    && forall i :: 0 <= i < |r| && IsSpace(r[i]) ==> r[i] == ' '
  }

  /** After the first word of a plain string that goes on come one space and a plain remainder. */
  lemma PlainSplit(r: string) returns (n: nat)
    requires Plain(r) && r != [] && WordLength(r) < |r|
    ensures n == WordLength(r) && n + 1 < |r|
    ensures r == r[..n] + " " + r[n + 1..]
    ensures Plain(r[n + 1..]) && r[n + 1..] != [] && !IsSpace(r[n + 1])
  {
    n := WordLength(r);
    WordLengthIsMaximal(r);
    assert IsSpace(r[n]) && r[n] == ' ';
    assert n + 1 < |r|;
    var rest := r[n + 1..];
    assert rest[0] == r[n + 1];
    assert rest[|rest| - 1] == r[|r| - 1];
    forall i | 0 < i < |rest| ensures !IsSpace(rest[i - 1]) || !IsSpace(rest[i]) {
      assert rest[i - 1] == r[n + i] && rest[i] == r[n + 1 + i];
    }
    forall i | 0 <= i < |rest| && IsSpace(rest[i]) ensures rest[i] == ' ' {
      assert rest[i] == r[n + 1 + i];
    }
  }

  lemma JoinStep(r: string, n: nat)
    requires r != [] && !IsSpace(r[0]) && n == WordLength(r) && n + 1 < |r|
    requires r == r[..n] + " " + r[n + 1..] && r[n + 1..] != [] && !IsSpace(r[n + 1])
    requires JoinWords(Words(r[n + 1..])) == r[n + 1..]
    ensures JoinWords(Words(r)) == r
  {
    var w, rest := r[..n], r[n + 1..];
    WordsOfWord(r);
    assert r[n..] == [' '] + rest;
    WordsSkipSpace(' ', rest);
    WordsOfWord(rest);
    assert Words(r) == [w] + Words(rest) && Words(rest) != [];
    assert ([w] + Words(rest))[1..] == Words(rest);
  }

  /**
   * A trimmed string whose only whitespace is single plain spaces is its
   * words joined by single spaces.
   */
  lemma {:induction false} PlainIsJoinedWords(r: string)
    requires Plain(r)
    ensures JoinWords(Words(r)) == r
    decreases |r|
  {
    if r != [] {
      if WordLength(r) == |r| {
        WordsOfWord(r);
        assert r[..|r|] == r && r[|r|..] == [];
      } else {
        var n := PlainSplit(r);
        PlainIsJoinedWords(r[n + 1..]);
        JoinStep(r, n);
      }
    }
  }
}
