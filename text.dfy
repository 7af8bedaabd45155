/**
 * The Python `str` operations the core relies on, as functions on `seq<char>`:
 * `needle in hay`, `lower()`, `strip()`, `split()` with no separator and
 * `replace(pattern, "")`.
 */
module Text {

  /** `c.isspace()`: the characters that `str.split()` and `str.strip()` treat as whitespace. */
  predicate IsSpace(c: char) {
    c == ' ' || ('\t' <= c <= '\r') || ('\U{1C}' <= c <= '\U{1F}') ||
    c == '\U{85}' || c == '\U{A0}' || c == '\U{1680}' || ('\U{2000}' <= c <= '\U{200A}') ||
    c == '\U{2028}' || c == '\U{2029}' || c == '\U{202F}' || c == '\U{205F}' || c == '\U{3000}'
  }

  /** Every character of `s` is whitespace (this includes the empty string). */
  predicate IsBlank(s: string) {
    forall k :: 0 <= k < |s| ==> IsSpace(s[k])
  }

  // ---------------------------------------------------------------------------
  // Substring test
  // ---------------------------------------------------------------------------

  /** Python's `needle in hay` on two strings: `needle` starts at some position of `hay`. */
  predicate Occurs(needle: string, hay: string)
    ensures Occurs(needle, hay) ==> |needle| <= |hay|
    decreases |hay|
  {
    needle <= hay || (hay != [] && Occurs(needle, hay[1..]))
  }

  /** What occurs in a suffix of `hay` occurs in `hay`. */
  lemma {:induction false} OccursInSuffix(needle: string, hay: string, k: nat)
    requires k <= |hay|
    requires Occurs(needle, hay[k..])
    ensures Occurs(needle, hay)
    decreases k
  {
    if k > 0 {
      assert hay[1..][k - 1..] == hay[k..];
      OccursInSuffix(needle, hay[1..], k - 1);
    }
  }

  /** What occurs in a prefix of `hay` occurs in `hay`. */
  lemma {:induction false} OccursInPrefix(needle: string, hay: string, k: nat)
    requires k <= |hay|
    requires Occurs(needle, hay[..k])
    ensures Occurs(needle, hay)
    decreases k
  {
    if !(needle <= hay[..k]) {
      assert hay[..k][1..] == hay[1..][..k - 1];
      OccursInPrefix(needle, hay[1..], k - 1);
    }
  }

  /** If a string occurs, so does every prefix of it. */
  lemma {:induction false} PrefixOccurs(short: string, long: string, hay: string)
    requires short <= long
    requires Occurs(long, hay)
    ensures Occurs(short, hay)
    decreases |hay|
  {
    if !(long <= hay) {
      PrefixOccurs(short, long, hay[1..]);
    }
  }

  /** `needle` sits in `hay` at position `k`. */
  predicate At(needle: string, hay: string, k: int) {
    0 <= k <= |hay| - |needle| && hay[k..k + |needle|] == needle
  }

  /** `Occurs` agrees with the positional definition of a substring. */
  lemma {:induction false} OccursAt(needle: string, hay: string)
    ensures Occurs(needle, hay) <==> exists k :: At(needle, hay, k)
    decreases |hay|
  {
    if needle <= hay {
      assert At(needle, hay, 0);
    } else if hay == [] {
      assert forall k :: !At(needle, hay, k);
    } else {
      var tail := hay[1..];
      OccursAt(needle, tail);
      if Occurs(needle, tail) {
        var k :| At(needle, tail, k);
        assert hay[k + 1..k + 1 + |needle|] == tail[k..k + |needle|];
        assert At(needle, hay, k + 1);
      }
      if exists k :: At(needle, hay, k) {
        var k :| At(needle, hay, k);
        assert k > 0;
        assert tail[k - 1..k - 1 + |needle|] == hay[k..k + |needle|];
        assert At(needle, tail, k - 1);
      }
    }
  }

  /** A string that holds no copy of the needle's first character does not contain the needle. */
  lemma AbsentFirstChar(needle: string, hay: string)
    requires needle != []
    requires forall k :: 0 <= k < |hay| ==> hay[k] != needle[0]
    ensures !Occurs(needle, hay)
  {
    forall k | 0 <= k <= |hay| - |needle| ensures !At(needle, hay, k) {
      assert hay[k..k + |needle|][0] != needle[0];
    }
    OccursAt(needle, hay);
  }

  /** Python's `any(n in hay for n in needles)`. */
  predicate AnyOccurs(needles: seq<string>, hay: string) {
    exists n :: n in needles && Occurs(n, hay)
  }

  // ---------------------------------------------------------------------------
  // lower()
  // ---------------------------------------------------------------------------

  /** Lower case of one character (ASCII letters only). */
  function LowerChar(c: char): char {
    if 'A' <= c <= 'Z' then (c as int + 32) as char else c
  }

  /** `s.lower()`, restricted to ASCII letters. */
  function Lower(s: string): (r: string)
    ensures |r| == |s|
    ensures forall k :: 0 <= k < |s| ==> r[k] == LowerChar(s[k])
  {
    if s == [] then [] else [LowerChar(s[0])] + Lower(s[1..])
  }

  // ---------------------------------------------------------------------------
  // strip()
  // ---------------------------------------------------------------------------

  /** `s.lstrip()`. */
  function TrimStart(s: string): (r: string)
    ensures |r| <= |s| && r == s[|s| - |r|..]
    ensures forall k :: 0 <= k < |s| - |r| ==> IsSpace(s[k])
    ensures r == [] || !IsSpace(r[0])
  {
    if s != [] && IsSpace(s[0]) then TrimStart(s[1..]) else s
  }

  /** `s.rstrip()`. */
  function TrimEnd(s: string): (r: string)
    ensures |r| <= |s| && r == s[..|r|]
    ensures forall k :: |r| <= k < |s| ==> IsSpace(s[k])
    ensures r == [] || !IsSpace(r[|r| - 1])
  {
    if s != [] && IsSpace(s[|s| - 1]) then TrimEnd(s[..|s| - 1]) else s
  }

  /**
   * `s.strip()`: neither end of the result is whitespace, and it is empty
   * exactly for a blank `s` (`StripCutsOnlyWhitespace` says what is cut off).
   */
  function Strip(s: string): (r: string)
    ensures r == [] || (!IsSpace(r[0]) && !IsSpace(r[|r| - 1]))
    ensures r == [] <==> IsBlank(s)
  {
    TrimEnd(TrimStart(s))
  }

  /** `strip()` keeps a slice of `s` and cuts off only whitespace on either side of it. */
  lemma StripCutsOnlyWhitespace(s: string)
    ensures var r := Strip(s);
      exists a :: 0 <= a <= |s| - |r| && s[a..][..|r|] == r && IsBlank(s[..a]) && IsBlank(s[a..][|r|..])
  {
    var t := TrimStart(s);
    var r := TrimEnd(t);
    assert r == Strip(s);
    var a := |s| - |t|;
    assert s[a..] == t;
    assert t[..|r|] == r;
    assert IsBlank(s[..a]) by {
      forall k | 0 <= k < a ensures IsSpace(s[..a][k]) {
        assert s[..a][k] == s[k];
      }
    }
    assert IsBlank(t[|r|..]) by {
      forall k | 0 <= k < |t| - |r| ensures IsSpace(t[|r|..][k]) {
        assert t[|r|..][k] == t[|r| + k];
      }
    }
    assert 0 <= a <= |s| - |r| && s[a..][..|r|] == r && IsBlank(s[..a]) && IsBlank(s[a..][|r|..]);
  }

  /** A string with no whitespace at either end is its own `strip()`. */
  lemma StripFixed(s: string)
    requires s == [] || (!IsSpace(s[0]) && !IsSpace(s[|s| - 1]))
    ensures Strip(s) == s
  {
  }

  /** What occurs in `strip(s)` occurs in `s`. */
  lemma OccursInStrip(needle: string, s: string)
    requires Occurs(needle, Strip(s))
    ensures Occurs(needle, s)
  {
    var t := TrimStart(s);
    OccursInPrefix(needle, t, |Strip(s)|);
    OccursInSuffix(needle, s, |s| - |t|);
  }

  /** A leading whitespace character is trimmed. */
  lemma TrimStartSpace(c: char, t: string)
    requires IsSpace(c)
    ensures TrimStart([c] + t) == TrimStart(t)
  {
    assert ([c] + t)[1..] == t;
  }

  /** A trailing whitespace character is trimmed. */
  lemma TrimEndSpace(t: string, c: char)
    requires IsSpace(c)
    ensures TrimEnd(t + [c]) == TrimEnd(t)
  {
    assert (t + [c])[..|t|] == t;
  }

  /** Surrounding a stripped string with one newline on each side does not change its `strip()`. */
  lemma StripNewlines(body: string)
    requires Strip(body) == body
    ensures Strip("\n" + body + "\n") == body
  {
    if body == [] {
      BlankNewlines();
    } else {
      var t := body + "\n";
      assert "\n" + body + "\n" == ['\n'] + t;
      TrimStartSpace('\n', t);
      assert t[0] == body[0];
      assert TrimStart(t) == t;
      TrimEndSpace(body, '\n');
      assert TrimStart(body) == body;
    }
  }

  /** Two newlines strip to nothing. */
  lemma BlankNewlines()
    ensures Strip("\n" + [] + "\n") == []
  {
    var s := "\n" + [] + "\n";
    assert s == "\n\n";
    assert IsBlank(s);
  }

  // ---------------------------------------------------------------------------
  // split()
  // ---------------------------------------------------------------------------

  /** Length of the run of non-whitespace characters that starts `s`. */
  function WordLength(s: string): (n: nat)
    ensures n <= |s|
    ensures forall k :: 0 <= k < n ==> !IsSpace(s[k])
    ensures n < |s| ==> IsSpace(s[n])
  {
    if s == [] || IsSpace(s[0]) then 0 else 1 + WordLength(s[1..])
  }

  /** A word of `s` starts at `i`: a non-whitespace character at the start or after whitespace. */
  predicate WordStart(s: string, i: int) {
    0 <= i < |s| && !IsSpace(s[i]) && (i == 0 || IsSpace(s[i - 1]))
  }

  /** The run of non-whitespace characters of `s` that starts at `i`. */
  function WordFrom(s: string, i: nat): string
    requires i <= |s|
  {
    s[i..i + WordLength(s[i..])]
  }

  lemma OccursInSuffixAll(words: seq<string>, s: string, k: nat)
    requires k <= |s|
    requires forall w :: w in words ==> Occurs(w, s[k..])
    ensures forall w :: w in words ==> Occurs(w, s)
  {
    forall w | w in words ensures Occurs(w, s) {
      OccursInSuffix(w, s, k);
    }
  }

  /** `words` holds the run at every word start of `s`. */
  ghost predicate ListsEveryRun(s: string, words: seq<string>) {
    forall i :: WordStart(s, i) ==> WordFrom(s, i) in words
  }

  /** Every element of `words` is the run at some word start of `s`. */
  ghost predicate ListsOnlyRuns(s: string, words: seq<string>) {
    forall w :: w in words ==> exists i :: WordStart(s, i) && w == WordFrom(s, i)
  }


  /** The run at `j` in `s[d..]` is the run at `i == d + j` in `s`. */
  lemma WordFromSuffix(s: string, d: nat, j: nat, i: nat)
    requires i == d + j <= |s|
    ensures WordFrom(s[d..], j) == WordFrom(s, i)
  {
    var t := s[d..];
    assert t[j..] == s[i..];
    var m := WordLength(s[i..]);
    assert t[j..j + m] == s[i..i + m];
  }

  /** Leading whitespace starts no word: each word start of `s` is one of `s[1..]`. */
  lemma WordsAfterSpaceComplete(s: string, words: seq<string>)
    requires s != [] && IsSpace(s[0])
    requires ListsEveryRun(s[1..], words)
    ensures ListsEveryRun(s, words)
  {
    var t := s[1..];
    forall i | WordStart(s, i) ensures WordFrom(s, i) in words {
      assert t[i - 1] == s[i];
      assert i - 1 == 0 || t[i - 2] == s[i - 1];
      assert WordStart(t, i - 1);
      assert WordFrom(t, i - 1) in words;
      WordFromSuffix(s, 1, i - 1, i);
    }
  }

  /** Each word start of `s[1..]` is one of `s`, one place on. */
  lemma WordsAfterSpaceSound(s: string, words: seq<string>)
    requires s != [] && IsSpace(s[0])
    requires ListsOnlyRuns(s[1..], words)
    ensures ListsOnlyRuns(s, words)
  {
    var t := s[1..];
    forall w | w in words ensures exists i :: WordStart(s, i) && w == WordFrom(s, i) {
      var j :| WordStart(t, j) && w == WordFrom(t, j);
      assert t[j] == s[j + 1];
      assert IsSpace(s[j]) by {
        if j > 0 { assert t[j - 1] == s[j]; }
      }
      assert WordStart(s, j + 1);
      WordFromSuffix(s, 1, j, j + 1);
    }
  }

  /** Every word start of `s` after its leading word is a word start of what follows that word. */
  lemma WordsAfterWordComplete(s: string, rest: seq<string>)
    requires s != [] && !IsSpace(s[0])
    requires ListsEveryRun(s[WordLength(s)..], rest)
    ensures ListsEveryRun(s, [s[..WordLength(s)]] + rest)
  {
    var n := WordLength(s);
    var t := s[n..];
    var words := [s[..n]] + rest;
    assert forall w :: w in rest ==> w in words;
    forall i | WordStart(s, i) ensures WordFrom(s, i) in words {
      if i == 0 {
        assert s[0..] == s;
        assert WordFrom(s, 0) == words[0];
      } else {
        assert IsSpace(s[i - 1]);
        assert n <= i - 1;
        assert t[i - n] == s[i];
        assert i - n == 0 || t[i - n - 1] == s[i - 1];
        assert WordStart(t, i - n);
        assert WordFrom(t, i - n) in rest;
        WordFromSuffix(s, n, i - n, i);
        assert WordFrom(s, i) in rest;
      }
    }
  }

  /** A word start after the leading word of `s` is a word start of `s`, with the same run. */
  lemma StartAfterWord(s: string, j: nat)
    requires s != [] && !IsSpace(s[0])
    requires WordStart(s[WordLength(s)..], j)
    ensures WordStart(s, WordLength(s) + j)
    ensures WordFrom(s[WordLength(s)..], j) == WordFrom(s, WordLength(s) + j)
  {
    var n := WordLength(s);
    var t := s[n..];
    assert t[j] == s[n + j];
    assert j > 0 by {
      assert n < |s| && IsSpace(s[n]);
    }
    assert t[j - 1] == s[n + j - 1];
    WordFromSuffix(s, n, j, n + j);
  }

  /** The words after the leading word of `s` are runs at word starts of `s`. */
  lemma RestWordsAreRuns(s: string, rest: seq<string>)
    requires s != [] && !IsSpace(s[0])
    requires ListsOnlyRuns(s[WordLength(s)..], rest)
    ensures forall w :: w in rest ==> exists i :: WordStart(s, i) && w == WordFrom(s, i)
  {
    var t := s[WordLength(s)..];
    forall w | w in rest ensures exists i :: WordStart(s, i) && w == WordFrom(s, i) {
      var j :| WordStart(t, j) && w == WordFrom(t, j);
      StartAfterWord(s, j);
      assert w == WordFrom(t, j);
      assert WordFrom(t, j) == WordFrom(s, WordLength(s) + j);
    }
  }

  /** The leading word of `s` is the run at its first word start. */
  lemma FirstWordIsRun(s: string)
    requires s != [] && !IsSpace(s[0])
    ensures WordStart(s, 0) && WordFrom(s, 0) == s[..WordLength(s)]
  {
    assert s[0..] == s;
  }

  /** Every word of the leading word and what follows it is the run at some word start of `s`. */
  lemma WordsAfterWordSound(s: string, rest: seq<string>)
    requires s != [] && !IsSpace(s[0])
    requires ListsOnlyRuns(s[WordLength(s)..], rest)
    ensures ListsOnlyRuns(s, [s[..WordLength(s)]] + rest)
  {
    RestWordsAreRuns(s, rest);
    FirstWordIsRun(s);
  }

  /**
   * `s.split()`: the maximal runs of non-whitespace characters of `s`, in order.
   * Every word is non-empty, holds no whitespace and occurs in `s`; there are
   * none exactly when `s` is blank (`SplitWordsAreRuns` says which they are).
   */
  function Split(s: string): (words: seq<string>)
    ensures forall w :: w in words ==> w != [] && Occurs(w, s) && forall k :: 0 <= k < |w| ==> !IsSpace(w[k])
    ensures words == [] <==> IsBlank(s)
    decreases |s|
  {
    if s == [] then []
    else if IsSpace(s[0]) then
      var rest := Split(s[1..]);
      assert IsBlank(s[1..]) ==> IsBlank(s) by {
        if IsBlank(s[1..]) {
          forall k | 0 <= k < |s| ensures IsSpace(s[k]) {
            if k > 0 { assert s[k] == s[1..][k - 1]; }
          }
        }
      }
      rest
    else
      var n := WordLength(s);
      var rest := Split(s[n..]);
      OccursInSuffixAll(rest, s, n);
      [s[..n]] + rest
  }

  /** The words of `s.split()` are exactly the runs of `s` that start at its word starts. */
  lemma {:induction false} SplitWordsAreRuns(s: string)
    ensures ListsEveryRun(s, Split(s))
    ensures ListsOnlyRuns(s, Split(s))
    decreases |s|
  {
    if s == [] {
    } else if IsSpace(s[0]) {
      SplitWordsAreRuns(s[1..]);
      WordsAfterSpaceComplete(s, Split(s[1..]));
      WordsAfterSpaceSound(s, Split(s[1..]));
    } else {
      var n := WordLength(s);
      SplitWordsAreRuns(s[n..]);
      WordsAfterWordComplete(s, Split(s[n..]));
      WordsAfterWordSound(s, Split(s[n..]));
    }
  }

  // ---------------------------------------------------------------------------
  // replace(pattern, "")
  // ---------------------------------------------------------------------------

  /** `s.replace(pattern, "")`: occurrences are removed left to right, without overlap. */
  function RemoveAll(s: string, pattern: string): (r: string)
    requires pattern != []
    ensures |r| <= |s|
    decreases |s|
  {
    if |s| < |pattern| then s
    else if pattern <= s then RemoveAll(s[|pattern|..], pattern)
    else [s[0]] + RemoveAll(s[1..], pattern)
  }

  /** Removing a pattern that does not occur changes nothing. */
  lemma {:induction false} RemoveAbsent(s: string, pattern: string)
    requires pattern != []
    requires !Occurs(pattern, s)
    ensures RemoveAll(s, pattern) == s
    decreases |s|
  {
    if |s| >= |pattern| {
      RemoveAbsent(s[1..], pattern);
      assert [s[0]] + s[1..] == s;
    }
  }

  /** A prefix at no position of which the pattern starts is kept as it is. */
  lemma {:induction false} RemoveKeepsPrefix(a: string, b: string, pattern: string)
    requires pattern != []
    requires forall k :: 0 <= k < |a| ==> !(pattern <= (a + b)[k..])
    ensures RemoveAll(a + b, pattern) == a + RemoveAll(b, pattern)
    decreases |a|
  {
    if a == [] {
      assert a + b == b;
    } else {
      var s := a + b;
      var t := a[1..] + b;
      assert s[1..] == t;
      assert !(pattern <= s) by { assert s[0..] == s; }
      if |s| >= |pattern| {
        forall k | 0 <= k < |a| - 1 ensures !(pattern <= t[k..]) {
          assert t[k..] == s[k + 1..];
        }
        RemoveKeepsPrefix(a[1..], b, pattern);
        assert [a[0]] + a[1..] == a;
      }
    }
  }
}
