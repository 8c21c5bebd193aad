/**
 The string operations the assembler applies to its input: `str.strip()`,
 `str.split('\n')`, `str.split()` with no argument, `str.replace(',', ' ')` and
 `str.lower()`.  Each is defined on `seq<char>` and characterised by a partner
 lemma that does not mention its body: the stripped text is the unique trimmed
 middle, a separator split joins back to its input, and whitespace-splitting a
 space-joined list of words gives back the words.
 */
module Text {

  /** The characters Python's `str.isspace()` accepts: 9 to 13, 28 to 31, the space, and the Unicode separators. */
  const Whitespace: set<char> := {
    '\t', '\n', '\U{0B}', '\U{0C}', '\r', '\U{1C}', '\U{1D}', '\U{1E}', '\U{1F}', ' ',
    '\U{85}', '\U{A0}', '\U{1680}',
    '\U{2000}', '\U{2001}', '\U{2002}', '\U{2003}', '\U{2004}', '\U{2005}',
    '\U{2006}', '\U{2007}', '\U{2008}', '\U{2009}', '\U{200A}',
    '\U{2028}', '\U{2029}', '\U{202F}', '\U{205F}', '\U{3000}'}

  /** `str.isspace()` for one character: the characters Python treats as whitespace. */
  predicate IsSpace(c: char)
  {
    c in Whitespace
  }

  /** Every character of `s` is whitespace. */
  predicate AllSpace(s: string)
  {
    forall i :: 0 <= i < |s| ==> IsSpace(s[i])
  }

  /** Neither end of `s` is whitespace: what `strip()` leaves. */
  predicate IsTrimmed(s: string)
  {
    s == [] || (!IsSpace(s[0]) && !IsSpace(s[|s| - 1]))
  }

  /** The number of whitespace characters `s` starts with. */
  function LeadingSpaces(s: string): (n: nat)
    ensures n <= |s| && forall i :: 0 <= i < n ==> IsSpace(s[i])
    ensures n < |s| ==> !IsSpace(s[n])
  {
    if s == [] || !IsSpace(s[0]) then 0
    else
      1 + LeadingSpaces(s[1..])
  }

  /** The number of whitespace characters `s` ends with. */
  function TrailingSpaces(s: string): (n: nat)
    ensures n <= |s| && forall i :: |s| - n <= i < |s| ==> IsSpace(s[i])
    ensures n < |s| ==> !IsSpace(s[|s| - 1 - n])
  {
    if s == [] || !IsSpace(s[|s| - 1]) then 0
    else
      1 + TrailingSpaces(s[..|s| - 1])
  }

  /** `s.strip()`: the text between the leading and the trailing whitespace. */
  function Strip(s: string): (r: string)
    ensures IsTrimmed(r)
    ensures var a := LeadingSpaces(s);
      && a + |r| <= |s| && r == s[a..a + |r|]
      && (forall i :: 0 <= i < a ==> IsSpace(s[i])) && (forall i :: a + |r| <= i < |s| ==> IsSpace(s[i]))
  {
    var a := LeadingSpaces(s);
    var t := s[a..];
    var b := TrailingSpaces(t);
    t[..|t| - b]
  }

  /** Where whitespace ends in `pre + rest` when `pre` is all whitespace and `rest` does not start with it. */
  lemma LeadingOf(pre: string, rest: string)
    requires AllSpace(pre) && (rest == [] || !IsSpace(rest[0]))
    ensures LeadingSpaces(pre + rest) == |pre|
  {
    var s := pre + rest;
    assert forall i :: 0 <= i < |pre| ==> s[i] == pre[i];
    assert |pre| < |s| ==> s[|pre|] == rest[0];
  }

  /** Where whitespace starts at the end of `rest + post` when `post` is all whitespace and `rest` does not end with it. */
  lemma TrailingOf(rest: string, post: string)
    requires AllSpace(post) && (rest == [] || !IsSpace(rest[|rest| - 1]))
    ensures TrailingSpaces(rest + post) == |post|
  {
    var s := rest + post;
    assert forall i :: |rest| <= i < |s| ==> s[i] == post[i - |rest|];
    assert rest != [] ==> s[|rest| - 1] == rest[|rest| - 1];
  }

  /**
   `strip()` is determined by what it promises: whitespace on both sides of a
   trimmed middle is removed and the middle is what remains.
   */
  lemma StripUnique(pre: string, mid: string, post: string)
    requires AllSpace(pre) && IsTrimmed(mid) && AllSpace(post)
    ensures Strip(pre + mid + post) == mid
  {
    var s := pre + mid + post;
    if mid == [] {
      assert s == (pre + post) + [];
      LeadingOf(pre + post, []);
    } else {
      assert s == pre + (mid + post);
      LeadingOf(pre, mid + post);
      assert s[|pre|..] == mid + post;
      TrailingOf(mid, post);
      assert (mid + post)[..|mid|] == mid;
    }
  }

  /** Stripping twice is stripping once. */
  lemma StripIdempotent(s: string)
    ensures Strip(Strip(s)) == Strip(s)
  {
    var r := Strip(s);
    assert [] + r + [] == r;
    StripUnique([], r, []);
  }

  // ---------------------------------------------------------------------------
  // Splitting on a separator
  // ---------------------------------------------------------------------------

  /** The position of the first `c` in `s`, or `|s|` when there is none. */
  function IndexOf(s: string, c: char): (k: nat)
    ensures k <= |s| && forall i :: 0 <= i < k ==> s[i] != c
    ensures k < |s| <==> c in s
    ensures k < |s| ==> s[k] == c
  {
    if s == [] then 0
    else if s[0] == c then 0
    else
      1 + IndexOf(s[1..], c)
  }

  /** `s.split(sep)`: the pieces between occurrences of `sep`, at least one. */
  function Split(s: string, sep: char): (parts: seq<string>)
    ensures |parts| >= 1
    decreases |s|
  {
    var k := IndexOf(s, sep);
    if k == |s| then [s] else [s[..k]] + Split(s[k + 1..], sep)
  }

  /** `sep.join(parts)`. */
  function Join(parts: seq<string>, sep: char): string
  {
    if |parts| <= 1 then (if parts == [] then [] else parts[0])
    else parts[0] + [sep] + Join(parts[1..], sep)
  }

  /** One step of `Split`: the piece before the first separator, then the split of the rest. */
  lemma SplitStep(s: string, sep: char)
    requires IndexOf(s, sep) < |s|
    ensures Split(s, sep) == [s[..IndexOf(s, sep)]] + Split(s[IndexOf(s, sep) + 1..], sep)
  {
  }

  /** One step of `Join`. */
  lemma JoinStep(p: string, tail: seq<string>, sep: char)
    requires |tail| >= 1
    ensures Join([p] + tail, sep) == p + [sep] + Join(tail, sep)
  {
    assert ([p] + tail)[1..] == tail;
  }

  /** A character other than the separator, absent from every piece, is absent from the joined text. */
  lemma {:induction false} JoinAvoids(parts: seq<string>, sep: char, c: char)
    requires c != sep && Avoids(parts, c)
    ensures c !in Join(parts, sep)
  {
    if |parts| > 1 {
      JoinAvoids(parts[1..], sep, c);
    }
  }

  /** Splitting on `sep` and joining with `sep` gives the text back. */
  lemma {:induction false} JoinSplit(s: string, sep: char)
    ensures Join(Split(s, sep), sep) == s
    decreases |s|
  {
    var k := IndexOf(s, sep);
    if k < |s| {
      var rest := s[k + 1..];
      JoinSplit(rest, sep);
      SplitStep(s, sep);
      Rejoin(s, sep, k, s[..k], rest, Split(s, sep), Split(rest, sep));
    }
  }

  /** The step of `JoinSplit`: the piece before the first separator, the separator, and the rejoined rest. */
  lemma Rejoin(s: string, sep: char, k: nat, head: string, rest: string, pieces: seq<string>, parts: seq<string>)
    requires k < |s| && s[k] == sep && head == s[..k] && rest == s[k + 1..]
    requires |parts| >= 1 && pieces == [head] + parts && Join(parts, sep) == rest
    ensures Join(pieces, sep) == s
  {
    JoinStep(head, parts, sep);
    assert s == head + [sep] + rest;
  }

  /** Joining pieces free of `sep` and splitting again gives the pieces back. */
  lemma {:induction false} SplitJoin(parts: seq<string>, sep: char)
    requires |parts| >= 1
    requires forall i :: 0 <= i < |parts| ==> sep !in parts[i]
    ensures Split(Join(parts, sep), sep) == parts
  {
    var p := parts[0];
    if |parts| > 1 {
      var tail := parts[1..];
      var rest := Join(tail, sep);
      assert parts == [p] + tail;
      JoinStep(p, tail, sep);
      var s := p + [sep] + rest;
      IndexFirst(p, sep, [sep] + rest);
      assert s == p + ([sep] + rest);
      SplitStep(s, sep);
      assert s[..|p|] == p;
      assert s[|p| + 1..] == rest;
      SplitJoin(tail, sep);
    } else {
      IndexFirst(p, sep, []);
      assert p + [] == p;
    }
  }

  /** The first `c` in `p + q` is the first in `q` when `p` has none. */
  lemma IndexFirst(p: string, c: char, q: string)
    requires c !in p && (q == [] || q[0] == c)
    ensures IndexOf(p + q, c) == |p|
  {
    var s := p + q;
    assert forall i :: 0 <= i < |p| ==> s[i] == p[i];
    assert |p| < |s| ==> s[|p|] == q[0];
  }

  /** `s.split(sep)[0]`: the text before the first `sep`. */
  function BeforeFirst(s: string, sep: char): (r: string)
    ensures r <= s && sep !in r
    ensures |r| < |s| ==> s[|r|] == sep
  {
    var k := IndexOf(s, sep);
    assert k < |s| ==> Split(s, sep) == [s[..k]] + Split(s[k + 1..], sep);
    Split(s, sep)[0]
  }

  // ---------------------------------------------------------------------------
  // Splitting on whitespace
  // ---------------------------------------------------------------------------

  /** A word of `str.split()`: non-empty, without whitespace. */
  predicate IsWord(w: string)
  {
    w != [] && forall i :: 0 <= i < |w| ==> !IsSpace(w[i])
  }

  /** The length of the run of non-whitespace characters `s` starts with. */
  function WordLength(s: string): (n: nat)
    ensures n <= |s| && (n < |s| ==> IsSpace(s[n]))
    ensures forall i :: 0 <= i < n ==> !IsSpace(s[i])
  {
    if s == [] || IsSpace(s[0]) then 0 else 1 + WordLength(s[1..])
  }

  /** `s.split()`: the maximal runs of non-whitespace, in order. */
  function Words(s: string): (ws: seq<string>)
    ensures forall i :: 0 <= i < |ws| ==> IsWord(ws[i])
    decreases |s|
  {
    var t := s[LeadingSpaces(s)..];
    if t == [] then []
    else
      var k := WordLength(t);
      assert IsWord(t[..k]) by {
        FirstWord(s, t, k);
      }
      [t[..k]] + Words(t[k..])
  }

  /** The run of non-whitespace after the leading whitespace is a word. */
  lemma FirstWord(s: string, t: string, k: nat)
    requires t == s[LeadingSpaces(s)..] && t != [] && k == WordLength(t)
    ensures IsWord(t[..k])
  {
    assert t[0] == s[LeadingSpaces(s)];
  }

  /** No string of `ws` contains `c`. */
  predicate Avoids(ws: seq<string>, c: char)
  {
    forall i :: 0 <= i < |ws| ==> c !in ws[i]
  }

  /** A character absent from the text is absent from each of its words. */
  lemma {:induction false} WordsWithout(s: string, c: char)
    requires c !in s
    ensures Avoids(Words(s), c)
    decreases |s|
  {
    var a := LeadingSpaces(s);
    var t := s[a..];
    if t != [] {
      var k := WordLength(t);
      var w, rest := t[..k], t[k..];
      NotInDrop(s, c, a);
      NotInTake(t, c, k);
      NotInDrop(t, c, k);
      WordsWithout(rest, c);
      var ws, tail := Words(s), Words(rest);
      assert ws == [w] + tail;
      ConsWithout(ws, w, tail, c);
    }
  }

  /** A character absent from a word and from each word of a list is absent from each word of the longer list. */
  lemma ConsWithout(ws: seq<string>, w: string, tail: seq<string>, c: char)
    requires ws == [w] + tail && c !in w && Avoids(tail, c)
    ensures Avoids(ws, c)
  {
    assert forall i :: 1 <= i < |ws| ==> ws[i] == tail[i - 1];
  }

  /** A character missing from a text is missing from each of its prefixes. */
  lemma NotInTake(s: string, c: char, k: nat)
    requires c !in s && k <= |s|
    ensures c !in s[..k]
  {
    assert forall m :: 0 <= m < k ==> s[..k][m] == s[m];
  }

  /** A character missing from a text is missing from each of its suffixes. */
  lemma NotInDrop(s: string, c: char, k: nat)
    requires c !in s && k <= |s|
    ensures c !in s[k..]
  {
    assert forall m :: 0 <= m < |s| - k ==> s[k..][m] == s[k + m];
  }

  /** Leading whitespace does not change the words. */
  lemma WordsAfterSpace(pre: string, s: string)
    requires AllSpace(pre)
    ensures Words(pre + s) == Words(s)
  {
    var x := pre + s;
    var a := LeadingSpaces(s);
    var n := LeadingSpaces(x);
    assert AllSpace(x[..|pre| + a]) by {
      forall i | 0 <= i < |pre| + a
        ensures IsSpace(x[i])
      {
        if i >= |pre| { assert x[i] == s[..a][i - |pre|]; }
      }
    }
    assert a < |s| ==> x[|pre| + a] == s[a];
    assert x[n..] == s[a..];
  }

  /** A word followed by whitespace (or nothing) is the first word. */
  lemma WordsCons(w: string, rest: string)
    requires IsWord(w) && (rest == [] || IsSpace(rest[0]))
    ensures Words(w + rest) == [w] + Words(rest)
  {
    var x := w + rest;
    assert x[0] == w[0];
    assert x[0..] == x;
    assert forall i :: 0 <= i < |w| ==> x[i] == w[i];
    assert rest != [] ==> x[|w|] == rest[0];
    assert x[..|w|] == w && x[|w|..] == rest;
  }

  /** Whitespace-splitting words joined by single spaces gives the words back. */
  lemma {:induction false} WordsOfJoin(ws: seq<string>)
    requires forall i :: 0 <= i < |ws| ==> IsWord(ws[i])
    ensures Words(Join(ws, ' ')) == ws
  {
    if ws != [] {
      var w := ws[0];
      if |ws| == 1 {
        WordsCons(w, []);
        assert w + [] == w;
      } else {
        var tail := ws[1..];
        var rest := Join(tail, ' ');
        assert ws == [w] + tail;
        JoinStep(w, tail, ' ');
        assert w + [' '] + rest == w + ([' '] + rest);
        WordsCons(w, [' '] + rest);
        assert AllSpace([' ']);
        WordsAfterSpace([' '], rest);
        WordsOfJoin(tail);
      }
    }
  }

  // ---------------------------------------------------------------------------
  // Character maps
  // ---------------------------------------------------------------------------

  /** `str.replace(a, b)` for single characters. */
  function Replace(s: string, a: char, b: char): (r: string)
    ensures |r| == |s|
    ensures forall i :: 0 <= i < |s| ==> r[i] == (if s[i] == a then b else s[i])
  {
    seq(|s|, i requires 0 <= i < |s| => if s[i] == a then b else s[i])
  }

  /** `str.lower()` on one character, for the ASCII letters. */
  function LowerChar(c: char): (d: char)
  {
    if 'A' <= c <= 'Z' then (c as int - 'A' as int + 'a' as int) as char else c
  }

  /** `str.lower()`, on the ASCII letters. */
  function Lower(s: string): (r: string)
    ensures |r| == |s|
    ensures forall i :: 0 <= i < |s| ==> r[i] == LowerChar(s[i])
  {
    seq(|s|, i requires 0 <= i < |s| => LowerChar(s[i]))
  }

  /** Text without upper-case ASCII letters is its own lower case. */
  lemma LowerUnchanged(s: string)
    requires forall i :: 0 <= i < |s| ==> !('A' <= s[i] <= 'Z')
    ensures Lower(s) == s
  {
  }
}
