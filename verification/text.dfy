/**
 * The string computations insert_article performs before it touches the
 * tables: stripping, the 200-character summary and the word count.
 */
module Text {
  import opened Base

  /** The whitespace recognised by strip() and split() in this model. */
  predicate IsSpace(c: char) {
    c == ' ' || c == '\t' || c == '\n' || c == '\r' || c == '\U{B}' || c == '\U{C}'
  }

  /** Every character is whitespace (the empty string included). */
  predicate IsBlank(s: string) {
    forall i :: 0 <= i < |s| ==> IsSpace(s[i])
  }

  /** The string without its leading whitespace. */
  function TrimLeft(s: string): string
    decreases |s|
  {
    if s != [] && IsSpace(s[0]) then TrimLeft(s[1..]) else s
  }

  /** TrimLeft drops a prefix of whitespace and stops at the first other character. */
  lemma {:induction false} TrimLeftFacts(s: string)
    ensures var r := TrimLeft(s);
      && |r| <= |s| && r == s[|s| - |r|..]
      && (r == [] || !IsSpace(r[0]))
      && forall i :: 0 <= i < |s| - |r| ==> IsSpace(s[i])
    decreases |s|
  {
    if s != [] && IsSpace(s[0]) {
      TrimLeftFacts(s[1..]);
      var r := TrimLeft(s);
      forall i | 0 <= i < |s| - |r| ensures IsSpace(s[i]) {
        if i > 0 { assert s[i] == s[1..][i - 1]; }
      }
    }
  }

  /** The string without its trailing whitespace. */
  function TrimRight(s: string): string
    decreases |s|
  {
    if s != [] && IsSpace(s[|s| - 1]) then TrimRight(s[..|s| - 1]) else s
  }

  /** TrimRight drops a suffix of whitespace and stops at the last other character. */
  lemma {:induction false} TrimRightFacts(s: string)
    ensures var r := TrimRight(s);
      && |r| <= |s| && r == s[..|r|]
      && (r == [] || !IsSpace(r[|r| - 1]))
      && forall i :: |r| <= i < |s| ==> IsSpace(s[i])
    decreases |s|
  {
    if s != [] && IsSpace(s[|s| - 1]) {
      TrimRightFacts(s[..|s| - 1]);
      var r := TrimRight(s);
      forall i | |r| <= i < |s| ensures IsSpace(s[i]) {
        if i < |s| - 1 { assert s[i] == s[..|s| - 1][i]; }
      }
    }
  }

  /** Python's str.strip(): leading and trailing whitespace removed. */
  function Strip(s: string): string {
    TrimRight(TrimLeft(s))
  }

  /**
   * Stripping keeps a contiguous run of the input and removes only
   * whitespace around it: it never lengthens a string, yields the empty
   * string exactly for blank input, and leaves no whitespace at either end.
   */
  lemma StripFacts(s: string)
    ensures var r := Strip(s);
      && |r| <= |s|
      && (r == [] <==> IsBlank(s))
      && (r != [] ==> !IsSpace(r[0]) && !IsSpace(r[|r| - 1]))
      && exists i, j :: 0 <= i <= j <= |s| && r == s[i..j]
           && (forall k :: 0 <= k < i ==> IsSpace(s[k]))
           && (forall k :: j <= k < |s| ==> IsSpace(s[k]))
  {
    var t := TrimLeft(s);
    TrimLeftFacts(s);
    TrimRightFacts(t);
    var r := TrimRight(t);
    if r == [] {
      assert t == [];
    }
    if r != [] {
      assert r[0] == t[0];
    }
    var i := |s| - |t|;
    var j := i + |r|;
    assert r == s[i..j];
    forall k | j <= k < |s| ensures IsSpace(s[k]) {
      assert s[k] == t[k - i];
    }
  }

  /** Stripping a stripped string changes nothing. */
  lemma StripIdempotent(s: string)
    ensures Strip(Strip(s)) == Strip(s)
  {
    StripFacts(s);
    var r := Strip(s);
    assert TrimLeft(r) == r;
    assert TrimRight(r) == r;
  }

  /** Python's str.rfind for one character: the last index of c in s, or -1. */
  function RFind(s: string, c: char): (k: int)
    ensures -1 <= k < |s|
    ensures k >= 0 ==> s[k] == c
    ensures forall j :: k < j < |s| ==> s[j] != c
    decreases |s|
  {
    if s == [] then -1
    else if s[|s| - 1] == c then |s| - 1
    else RFind(s[..|s| - 1], c)
  }

  const SummaryLength := 200
  const Ellipsis := "..."

  /** k is the position of the last space in s. */
  predicate IsLastSpace(s: string, k: int) {
    0 <= k < |s| && s[k] == ' ' && forall j :: k < j < |s| ==> s[j] != ' '
  }

  /**
   * The stored summary: the content itself when it has at most 200
   * characters; otherwise the first 200 characters cut back to their last
   * space with "..." appended, or the first 200 characters unchanged when no
   * space follows position 0.
   */
  function Summary(content: string): (r: string)
    ensures |content| <= SummaryLength ==> r == content
    ensures forall k :: |content| > SummaryLength && k > 0 && IsLastSpace(content[..SummaryLength], k) ==>
              r == content[..k] + Ellipsis
    ensures |content| > SummaryLength && (forall j :: 0 < j < SummaryLength ==> content[j] != ' ') ==>
              r == content[..SummaryLength]
    ensures |r| <= SummaryLength - 1 + |Ellipsis|
    ensures r <= content || (|r| > |Ellipsis| && r == r[..|r| - |Ellipsis|] + Ellipsis && r[..|r| - |Ellipsis|] <= content)
  {
    var head := content[..Min(|content|, SummaryLength)];
    if |content| > SummaryLength then
      var k := RFind(head, ' ');
      if k > 0 then head[..k] + Ellipsis else head
    else head
  }

  /** The length of the leading run of non-whitespace. */
  function WordLength(s: string): (n: nat)
    ensures n <= |s|
    ensures forall i :: 0 <= i < n ==> !IsSpace(s[i])
    ensures n == |s| || IsSpace(s[n])
    decreases |s|
  {
    if s == [] || IsSpace(s[0]) then 0 else 1 + WordLength(s[1..])
  }

  /** A token of split(): non-empty, without whitespace. */
  predicate IsWord(w: string) {
    w != [] && forall i :: 0 <= i < |w| ==> !IsSpace(w[i])
  }

  /** Python's str.split() with no separator: the maximal runs of non-whitespace. */
  function Split(s: string): (words: seq<string>)
    ensures forall i :: 0 <= i < |words| ==> IsWord(words[i])
    decreases |s|
  {
    if s == [] then []
    else if IsSpace(s[0]) then Split(s[1..])
    else
      var n := WordLength(s);
      [s[..n]] + Split(s[n..])
  }

  /** len(content.split()). */
  function WordCount(s: string): nat {
    |Split(s)|
  }

  /** The characters of s that are not whitespace, in order. */
  function NonSpace(s: string): string {
    if s == [] then []
    else (if IsSpace(s[0]) then [] else [s[0]]) + NonSpace(s[1..])
  }

  function Concat(ws: seq<string>): string {
    if ws == [] then [] else ws[0] + Concat(ws[1..])
  }

  lemma {:induction false} NonSpaceAppend(a: string, b: string)
    ensures NonSpace(a + b) == NonSpace(a) + NonSpace(b)
    decreases |a|
  {
    if a != [] {
      assert (a + b)[1..] == a[1..] + b;
      NonSpaceAppend(a[1..], b);
    } else {
      assert a + b == b;
    }
  }

  lemma {:induction false} NonSpaceOfWord(w: string)
    requires forall i :: 0 <= i < |w| ==> !IsSpace(w[i])
    ensures NonSpace(w) == w
    decreases |w|
  {
    if w != [] {
      NonSpaceOfWord(w[1..]);
      assert w == [w[0]] + w[1..];
    }
  }

  /** The words of s, joined back together, are exactly its non-whitespace characters. */
  lemma {:induction false} SplitKeepsText(s: string)
    ensures Concat(Split(s)) == NonSpace(s)
    decreases |s|
  {
    if s == [] {
    } else if IsSpace(s[0]) {
      SplitKeepsText(s[1..]);
    } else {
      var n := WordLength(s);
      SplitKeepsText(s[n..]);
      var ws := [s[..n]] + Split(s[n..]);
      assert ws[0] == s[..n] && ws[1..] == Split(s[n..]);
      assert s == s[..n] + s[n..];
      NonSpaceAppend(s[..n], s[n..]);
      NonSpaceOfWord(s[..n]);
    }
  }

  /** A string has no words exactly when it is blank. */
  lemma {:induction false} SplitEmptyIffBlank(s: string)
    ensures Split(s) == [] <==> IsBlank(s)
    decreases |s|
  {
    if s != [] && IsSpace(s[0]) {
      SplitEmptyIffBlank(s[1..]);
      if IsBlank(s[1..]) {
        forall i | 0 <= i < |s| ensures IsSpace(s[i]) {
          if i > 0 { assert s[i] == s[1..][i - 1]; }
        }
      }
    }
  }

  /** A single word splits into itself. */
  lemma SplitOfWord(w: string)
    requires IsWord(w)
    ensures Split(w) == [w]
  {
    assert WordLength(w) == |w|;
    assert w[..|w|] == w && w[|w|..] == [];
    assert Split(w) == [w] + Split([]);
  }

  lemma {:induction false} WordLengthStops(a: string, t: string)
    requires t != [] && IsSpace(t[0])
    ensures WordLength(a + t) == WordLength(a)
    decreases |a|
  {
    if a == [] {
      assert a + t == t;
    } else {
      assert (a + t)[0] == a[0] && (a + t)[1..] == a[1..] + t;
      WordLengthStops(a[1..], t);
    }
  }

  /** Splitting distributes over a whitespace separator: word counts add up. */
  lemma {:induction false} SplitAtSpace(a: string, c: char, b: string)
    requires IsSpace(c)
    ensures Split(a + [c] + b) == Split(a) + Split(b)
    decreases |a|
  {
    var s := a + [c] + b;
    if a == [] {
      assert s[0] == c && s[1..] == b;
    } else if IsSpace(a[0]) {
      assert s[0] == a[0] && s[1..] == a[1..] + [c] + b;
      SplitAtSpace(a[1..], c, b);
    } else {
      assert s == a + ([c] + b);
      WordLengthStops(a, [c] + b);
      var n := WordLength(a);
      assert s[0] == a[0];
      assert s[..n] == a[..n];
      assert s[n..] == a[n..] + [c] + b;
      SplitAtSpace(a[n..], c, b);
    }
  }

  /** The word count of two texts joined by whitespace is the sum of their counts. */
  lemma WordCountAdds(a: string, c: char, b: string)
    requires IsSpace(c)
    ensures WordCount(a + [c] + b) == WordCount(a) + WordCount(b)
  {
    SplitAtSpace(a, c, b);
  }
}
