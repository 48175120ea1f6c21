/**
 * The Python `str` methods the scraper relies on: `strip`, with or without
 * an explicit set of characters, and `split(sep)` with a one-character
 * separator, over strings of Unicode scalar values.
 */
module PyString {

  /**
   * The characters `str.strip()` removes when called without an argument:
   * those for which CPython's `str.isspace()` holds.
   */
  const Whitespace: set<char> := {
    '\t', '\n', '\U{0B}', '\U{0C}', '\r',
    '\U{1C}', '\U{1D}', '\U{1E}', '\U{1F}', ' ',
    '\U{85}', '\U{A0}', '\U{1680}',
    '\U{2000}', '\U{2001}', '\U{2002}', '\U{2003}', '\U{2004}', '\U{2005}',
    '\U{2006}', '\U{2007}', '\U{2008}', '\U{2009}', '\U{200A}',
    '\U{2028}', '\U{2029}', '\U{202F}', '\U{205F}', '\U{3000}'
  }

  predicate AllIn(s: string, chars: set<char>) {
    forall i :: 0 <= i < |s| ==> s[i] in chars
  }

  /** Every character of `s` at a position in `[lo, hi)` is in `chars`. */
  predicate InBetween(s: string, lo: nat, hi: nat, chars: set<char>)
    requires lo <= hi <= |s|
  {
    forall k :: lo <= k < hi ==> s[k] in chars
  }

  /** Neither end of `s` is in `chars`, as `strip(chars)` leaves it. */
  predicate Trimmed(s: string, chars: set<char>) {
    s == [] || (s[0] !in chars && s[|s| - 1] !in chars)
  }

  /**
   * The scan from the left in `strip`: the first position at or after `i`
   * whose character is not in `chars`, or `|s|`.
   */
  function StripStart(s: string, chars: set<char>, i: nat): (n: nat)
    requires i <= |s|
    ensures i <= n <= |s| && InBetween(s, i, n, chars)
    ensures n == |s| || s[n] !in chars
    decreases |s| - i
  {
    if i == |s| || s[i] !in chars then i else StripStart(s, chars, i + 1)
  }

  /**
   * The scan from the right in `strip`: the last end position at or before
   * `j`, and not before `lo`, that follows a character not in `chars`.
   */
  function StripEnd(s: string, chars: set<char>, lo: nat, j: nat): (n: nat)
    requires lo <= j <= |s|
    ensures lo <= n <= j && InBetween(s, n, j, chars)
    ensures n == lo || s[n - 1] !in chars
    decreases j
  {
    if j == lo || s[j - 1] !in chars then j else StripEnd(s, chars, lo, j - 1)
  }

  /**
   * `s.strip(chars)`: what lies between the two scans. `StripBounds` and
   * `StripPadded` characterise the result completely.
   */
  function Strip(s: string, chars: set<char>): (r: string)
    ensures |r| <= |s| && Trimmed(r, chars)
  {
    var i := StripStart(s, chars, 0);
    var j := StripEnd(s, chars, i, |s|);
    assert i < j ==> s[i..j][0] == s[i] && s[i..j][j - i - 1] == s[j - 1];
    s[i..j]
  }

  /** `s.strip()`: strips white space. */
  function StripWhitespace(s: string): (r: string)
    ensures |r| <= |s| && Trimmed(r, Whitespace)
  {
    Strip(s, Whitespace)
  }

  /**
   * What `strip(chars)` leaves is the piece `s[i..j]` of the input, with
   * only `chars` before and after it, and neither end in `chars`.
   */
  lemma StripBounds(s: string, chars: set<char>) returns (i: nat, j: nat)
    ensures i <= j <= |s| && s[i..j] == Strip(s, chars)
    ensures InBetween(s, 0, i, chars) && InBetween(s, j, |s|, chars)
    ensures Trimmed(Strip(s, chars), chars)
  {
    i := StripStart(s, chars, 0);
    j := StripEnd(s, chars, i, |s|);
    assert Trimmed(s[i..j], chars) by {
      if i < j {
        assert s[i..j][0] == s[i] && s[i..j][j - i - 1] == s[j - 1];
      }
    }
  }

  /**
   * Converse of `StripBounds`: a core with neither end in `chars`, padded
   * on either side with `chars`, strips back to exactly that core.
   */
  lemma StripPadded(pre: string, core: string, suf: string, chars: set<char>)
    requires AllIn(pre, chars) && AllIn(suf, chars)
    requires Trimmed(core, chars)
    ensures Strip(pre + core + suf, chars) == core
  {
    var s := pre + core + suf;
    var a, b := |pre|, |pre| + |core|;
    assert forall k :: 0 <= k < a ==> s[k] == pre[k];
    assert forall k :: b <= k < |s| ==> s[k] == suf[k - b];
    var i := StripStart(s, chars, 0);
    if core == [] {
      assert InBetween(s, 0, |s|, chars);
      assert i == |s|;
    } else {
      assert s[a] == core[0] && s[b - 1] == core[|core| - 1];
      assert i == a;
      var j := StripEnd(s, chars, i, |s|);
      assert j == b;
      assert s[a..b] == core;
    }
  }

  /** Stripping is idempotent. */
  lemma StripIdempotent(s: string, chars: set<char>)
    ensures Strip(Strip(s, chars), chars) == Strip(s, chars)
  {
    var r := Strip(s, chars);
    var _, _ := StripBounds(s, chars);
    assert [] + r + [] == r;
    StripPadded([], r, [], chars);
  }

  /** `s.find(c)` for a character that occurs in `s`: its first position. */
  function IndexOf(s: string, c: char): (i: nat)
    requires c in s
    ensures i < |s| && s[i] == c && c !in s[..i]
  {
    if s[0] == c then 0
    else
      var j := IndexOf(s[1..], c);
      assert s[..j + 1] == [s[0]] + s[1..][..j];
      j + 1
  }

  lemma IndexOfAfterPrefix(p: string, c: char, t: string)
    requires c !in p
    ensures c in p + [c] + t && IndexOf(p + [c] + t, c) == |p|
  {
    var s := p + [c] + t;
    assert s[|p|] == c;
  }

  /** Cuts `s` at the first occurrence of `c`. */
  lemma SplitAtFirst(s: string, c: char) returns (p: string, t: string)
    requires c in s
    ensures s == p + [c] + t && c !in p
  {
    var i := IndexOf(s, c);
    p, t := s[..i], s[i + 1..];
    assert s == p + [c] + t;
  }

  /**
   * Any string holding `c` is what precedes the first `c`, then the text
   * up to the second `c` or the end, then what starts at the second `c`.
   */
  lemma SplitAroundFirst(s: string, c: char) returns (p: string, q: string, rest: string)
    requires c in s
    ensures s == p + [c] + q + rest
    ensures c !in p && c !in q
    ensures rest == [] || rest[0] == c
  {
    var t;
    p, t := SplitAtFirst(s, c);
    if c in t {
      var t2;
      q, t2 := SplitAtFirst(t, c);
      rest := [c] + t2;
      assert t == q + rest;
    } else {
      q, rest := t, [];
      assert t == q + rest;
    }
  }

  /** `s.split(sep)`: the pieces between consecutive occurrences of `sep`. */
  function Split(s: string, sep: char): (parts: seq<string>)
    ensures |parts| >= 1
    decreases |s|
  {
    if sep !in s then [s]
    else
      var i := IndexOf(s, sep);
      [s[..i]] + Split(s[i + 1..], sep)
  }

  /** No piece of a split contains the separator. */
  lemma {:induction false} SplitPiecesOmitSeparator(s: string, sep: char)
    ensures forall k :: 0 <= k < |Split(s, sep)| ==> sep !in Split(s, sep)[k]
    decreases |s|
  {
    if sep in s {
      var i := IndexOf(s, sep);
      SplitPiecesOmitSeparator(s[i + 1..], sep);
      assert Split(s, sep) == [s[..i]] + Split(s[i + 1..], sep);
    }
  }

  /** Splitting at a first separator after `p` gives `p`, then the split of the rest. */
  lemma SplitAfterFirst(p: string, sep: char, t: string)
    requires sep !in p
    ensures Split(p + [sep] + t, sep) == [p] + Split(t, sep)
  {
    var s := p + [sep] + t;
    IndexOfAfterPrefix(p, sep, t);
    assert s[..|p|] == p;
    assert s[|p| + 1..] == t;
  }

  /**
   * The first piece of a split is everything up to the first separator,
   * or the whole string when there is none.
   */
  lemma SplitFirstPiece(q: string, sep: char, rest: string)
    requires sep !in q
    requires rest == [] || rest[0] == sep
    ensures Split(q + rest, sep)[0] == q
  {
    if rest == [] {
      assert q + rest == q;
    } else {
      assert q + rest == q + [sep] + rest[1..];
      SplitAfterFirst(q, sep, rest[1..]);
    }
  }

  /**
   * The piece at index 1 of a split is the text between the first and the
   * second separator, or after the first one up to the end.
   */
  lemma SplitSecondPiece(p: string, sep: char, q: string, rest: string)
    requires sep !in p && sep !in q
    requires rest == [] || rest[0] == sep
    ensures |Split(p + [sep] + q + rest, sep)| >= 2
    ensures Split(p + [sep] + q + rest, sep)[1] == q
  {
    assert p + [sep] + q + rest == p + [sep] + (q + rest);
    SplitAfterFirst(p, sep, q + rest);
    SplitFirstPiece(q, sep, rest);
  }

  /** `sep.join(parts)`. */
  function Join(parts: seq<string>, sep: char): string
    requires |parts| >= 1
  {
    if |parts| == 1 then parts[0] else parts[0] + [sep] + Join(parts[1..], sep)
  }

  /** `split` yields one more piece than there are separators. */
  lemma {:induction false} SplitCount(s: string, sep: char)
    ensures |Split(s, sep)| == multiset(s)[sep] + 1
    decreases |s|
  {
    if sep in s {
      var i := IndexOf(s, sep);
      assert s == s[..i] + [sep] + s[i + 1..];
      assert multiset(s) == multiset(s[..i]) + multiset{sep} + multiset(s[i + 1..]);
      assert multiset(s[..i])[sep] == 0;
      SplitCount(s[i + 1..], sep);
    } else {
      assert multiset(s)[sep] == 0;
    }
  }

  /** Joining the pieces of a split with the separator restores the string. */
  lemma {:induction false} JoinSplit(s: string, sep: char)
    ensures Join(Split(s, sep), sep) == s
    decreases |s|
  {
    if sep in s {
      var p, t := SplitAtFirst(s, sep);
      SplitAfterFirst(p, sep, t);
      var tail := Split(t, sep);
      assert ([p] + tail)[1..] == tail;
      JoinSplit(t, sep);
    }
  }

  /** Splitting a join of separator-free pieces gives the pieces back. */
  lemma {:induction false} SplitJoin(parts: seq<string>, sep: char)
    requires |parts| >= 1
    requires forall k :: 0 <= k < |parts| ==> sep !in parts[k]
    ensures Split(Join(parts, sep), sep) == parts
    decreases |parts|
  {
    if |parts| > 1 {
      var rest := Join(parts[1..], sep);
      assert Join(parts, sep) == parts[0] + [sep] + rest;
      SplitAfterFirst(parts[0], sep, rest);
      SplitJoin(parts[1..], sep);
      assert parts == [parts[0]] + parts[1..];
    }
  }
}
