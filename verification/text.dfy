/** Python's whitespace handling for netlist lines: `str.strip()` and the
    argument-less `str.split()`, over strings of Unicode scalar values. */
module Text {

  /** Python's `str.isspace` for a single character: the ASCII whitespace
      characters, the four information separators, and the Unicode space
      and line-separator characters. */
  predicate IsSpace(c: char) {
    || c == ' '
    || ('\t' <= c <= '\r')
    || ('\U{1C}' <= c <= '\U{1F}')
    || c == '\U{85}'
    || c == '\U{A0}'
    || c == '\U{1680}'
    || ('\U{2000}' <= c <= '\U{200A}')
    || c == '\U{2028}'
    || c == '\U{2029}'
    || c == '\U{202F}'
    || c == '\U{205F}'
    || c == '\U{3000}'
  }

  predicate AllSpace(s: string) {
    forall i :: 0 <= i < |s| ==> IsSpace(s[i])
  }

  /** A token of `str.split()`: non-empty and free of whitespace. */
  predicate IsWord(w: string) {
    w != [] && forall i :: 0 <= i < |w| ==> !IsSpace(w[i])
  }

  /** Neither starts nor ends with whitespace. */
  predicate Trimmed(s: string) {
    s == [] || (!IsSpace(s[0]) && !IsSpace(s[|s| - 1]))
  }

  /** Number of whitespace characters at the start of `s`. */
  function LeadingSpaces(s: string): (n: nat)
    ensures n <= |s|
    ensures forall k :: 0 <= k < n ==> IsSpace(s[k])
    ensures n < |s| ==> !IsSpace(s[n])
  {
    if s != [] && IsSpace(s[0]) then
      var n := LeadingSpaces(s[1..]);
      assert forall k :: 0 < k <= n ==> s[k] == s[1..][k - 1];
      1 + n
    else
      0
  }

  /** Number of whitespace characters at the end of `s`. */
  function TrailingSpaces(s: string): (n: nat)
    ensures n <= |s|
    ensures forall k :: |s| - n <= k < |s| ==> IsSpace(s[k])
    ensures n < |s| ==> !IsSpace(s[|s| - n - 1])
  {
    if s != [] && IsSpace(s[|s| - 1]) then
      var n := TrailingSpaces(s[..|s| - 1]);
      assert forall k :: |s| - 1 - n <= k < |s| - 1 ==> s[k] == s[..|s| - 1][k];
      1 + n
    else
      0
  }

  /** `str.strip()`: the slice of `s` left after removing whitespace at
      both ends; it is empty exactly when `s` is all whitespace. */
  function Strip(s: string): (r: string)
    ensures exists i, j :: 0 <= i <= j <= |s| && r == s[i..j] && AllSpace(s[..i]) && AllSpace(s[j..])
    ensures Trimmed(r)
    ensures r == [] <==> AllSpace(s)
  {
    var i := LeadingSpaces(s);
    if i == |s| then
      assert s[..i] == s && s[i..] == [];
      []
    else
      var j := |s| - TrailingSpaces(s);
      assert i < j;
      assert AllSpace(s[..i]) by {
        assert forall k :: 0 <= k < i ==> s[..i][k] == s[k];
      }
      assert AllSpace(s[j..]) by {
        assert forall k :: 0 <= k < |s| - j ==> s[j..][k] == s[j + k];
      }
      s[i..j]
  }

  /** Whitespace before a text that does not start with whitespace is
      exactly the leading whitespace. */
  lemma {:induction false} LeadingPadded(pre: string, x: string)
    requires AllSpace(pre)
    requires x == [] || !IsSpace(x[0])
    ensures LeadingSpaces(pre + x) == |pre|
  {
    if pre != [] {
      assert (pre + x)[1..] == pre[1..] + x;
      LeadingPadded(pre[1..], x);
    } else {
      assert pre + x == x;
    }
  }

  /** Whitespace after a text that does not end with whitespace is exactly
      the trailing whitespace. */
  lemma {:induction false} TrailingPadded(x: string, post: string)
    requires AllSpace(post)
    requires x == [] || !IsSpace(x[|x| - 1])
    ensures TrailingSpaces(x + post) == |post|
  {
    if post != [] {
      assert (x + post)[..|x + post| - 1] == x + post[..|post| - 1];
      TrailingPadded(x, post[..|post| - 1]);
    } else {
      assert x + post == x;
    }
  }

  /** Stripping a string padded by whitespace around a trimmed core gives the core. */
  lemma StripPadded(pre: string, core: string, post: string)
    requires AllSpace(pre) && AllSpace(post) && Trimmed(core)
    ensures Strip(pre + core + post) == core
  {
    var s := pre + core + post;
    if core == [] {
      assert AllSpace(s);
    } else {
      assert s == pre + (core + post);
      LeadingPadded(pre, core + post);
      assert s == (pre + core) + post;
      TrailingPadded(pre + core, post);
      assert s[|pre|..|pre| + |core|] == core;
    }
  }

  /** A stripped line starts with the first non-whitespace character of the line. */
  lemma StripFirst(pre: string, x: string)
    requires AllSpace(pre) && x != [] && !IsSpace(x[0])
    ensures Strip(pre + x) != [] && Strip(pre + x)[0] == x[0]
  {
    LeadingPadded(pre, x);
    assert (pre + x)[|pre|] == x[0];
  }

  /** Length of the leading run of non-whitespace characters. */
  function WordLength(s: string): (n: nat)
    ensures n <= |s|
    ensures forall i :: 0 <= i < n ==> !IsSpace(s[i])
    ensures n == |s| || IsSpace(s[n])
  {
    if s == [] || IsSpace(s[0]) then 0 else 1 + WordLength(s[1..])
  }

  /** The non-whitespace characters of `s`, in order. */
  function Squeeze(s: string): string {
    if s == [] then []
    else if IsSpace(s[0]) then Squeeze(s[1..])
    else [s[0]] + Squeeze(s[1..])
  }

  /** Concatenation of a list of strings without separators. */
  function Concat(ws: seq<string>): string {
    if ws == [] then [] else ws[0] + Concat(ws[1..])
  }

  lemma {:induction false} SqueezeAppend(a: string, b: string)
    ensures Squeeze(a + b) == Squeeze(a) + Squeeze(b)
  {
    if a != [] {
      assert (a + b)[1..] == a[1..] + b;
      SqueezeAppend(a[1..], b);
    } else {
      assert a + b == b;
    }
  }

  lemma {:induction false} SqueezeWord(w: string)
    requires forall i :: 0 <= i < |w| ==> !IsSpace(w[i])
    ensures Squeeze(w) == w
  {
    if w != [] {
      SqueezeWord(w[1..]);
    }
  }

  /** `str.split()` with no separator: the maximal runs of non-whitespace
      characters, in order. The tokens are words, and there are none exactly
      when `s` is all whitespace. */
  function Split(s: string): (toks: seq<string>)
    ensures forall k :: 0 <= k < |toks| ==> IsWord(toks[k])
    ensures toks == [] <==> AllSpace(s)
    decreases |s|
  {
    if s == [] then []
    else if IsSpace(s[0]) then
      var toks := Split(s[1..]);
      assert AllSpace(s[1..]) ==> AllSpace(s);
      toks
    else
      var n := WordLength(s);
      var rest := Split(s[n..]);
      var toks := [s[..n]] + rest;
      assert toks[1..] == rest;
      toks
  }

  /** Together the tokens hold exactly the non-whitespace characters of
      `s`, in order: nothing is lost or reordered by splitting. */
  lemma {:induction false} SplitKeepsCharacters(s: string)
    ensures Concat(Split(s)) == Squeeze(s)
    decreases |s|
  {
    if s != [] {
      if IsSpace(s[0]) {
        SplitKeepsCharacters(s[1..]);
      } else {
        var n := WordLength(s);
        var toks := Split(s);
        assert toks == [s[..n]] + Split(s[n..]);
        assert toks[1..] == Split(s[n..]);
        SplitKeepsCharacters(s[n..]);
        SqueezeAppend(s[..n], s[n..]);
        SqueezeWord(s[..n]);
        assert s == s[..n] + s[n..];
      }
    }
  }

  /** A string that starts with a non-whitespace character splits into
      tokens, the first of which starts with that character. */
  lemma SplitFirst(s: string)
    requires s != [] && !IsSpace(s[0])
    ensures Split(s) != [] && Split(s)[0] != [] && Split(s)[0][0] == s[0]
  {
    var n := WordLength(s);
    assert Split(s) == [s[..n]] + Split(s[n..]);
  }

  /** Splitting a word followed by whitespace (or nothing) yields the word first. */
  lemma SplitWordFirst(w: string, t: string)
    requires IsWord(w)
    requires t == [] || IsSpace(t[0])
    ensures Split(w + t) == [w] + Split(t)
  {
    var s := w + t;
    assert forall i :: 0 <= i < |w| ==> s[i] == w[i];
    assert |w| < |s| ==> s[|w|] == t[0];
    assert s[..|w|] == w;
    assert s[|w|..] == t;
  }

  /** A leading whitespace character is dropped by splitting. */
  lemma SplitSpaceFirst(c: char, t: string)
    requires IsSpace(c)
    ensures Split([c] + t) == Split(t)
  {
    assert ([c] + t)[1..] == t;
  }

  /** A leading run of whitespace, however long, is dropped by splitting. */
  lemma {:induction false} SplitSpacesFirst(p: string, t: string)
    requires AllSpace(p)
    ensures Split(p + t) == Split(t)
  {
    if p == [] {
      assert p + t == t;
    } else {
      assert p + t == [p[0]] + (p[1..] + t);
      assert AllSpace(p[1..]) by {
        assert forall i :: 0 <= i < |p| - 1 ==> p[1..][i] == p[i + 1];
      }
      SplitSpaceFirst(p[0], p[1..] + t);
      SplitSpacesFirst(p[1..], t);
    }
  }

  /** Separators for `n` words: one fewer than the words, each a non-empty
      run of whitespace. */
  predicate Separators(seps: seq<string>, n: nat) {
    && |seps| == (if n == 0 then 0 else n - 1)
    && forall k :: 0 <= k < |seps| ==> seps[k] != [] && AllSpace(seps[k])
  }

  /** Words interleaved with the given separators. */
  function Join(ws: seq<string>, seps: seq<string>): string
    requires |seps| == (if ws == [] then 0 else |ws| - 1)
  {
    if ws == [] then []
    else if |ws| == 1 then ws[0]
    else ws[0] + seps[0] + Join(ws[1..], seps[1..])
  }

  /** Splitting words joined by any whitespace separators gives back the words. */
  lemma {:induction false} SplitJoin(ws: seq<string>, seps: seq<string>)
    requires forall k :: 0 <= k < |ws| ==> IsWord(ws[k])
    requires Separators(seps, |ws|)
    ensures Split(Join(ws, seps)) == ws
  {
    if |ws| == 1 {
      SplitWordFirst(ws[0], []);
      assert ws[0] + [] == ws[0];
    } else if |ws| > 1 {
      assert forall k :: 0 <= k < |seps| - 1 ==> seps[1..][k] == seps[k + 1];
      var rest := Join(ws[1..], seps[1..]);
      SplitJoin(ws[1..], seps[1..]);
      assert ws[0] + seps[0] + rest == ws[0] + (seps[0] + rest);
      assert (seps[0] + rest)[0] == seps[0][0];
      SplitWordFirst(ws[0], seps[0] + rest);
      SplitSpacesFirst(seps[0], rest);
      assert [ws[0]] + ws[1..] == ws;
    }
  }

  /** Joined words neither start nor end with whitespace. */
  lemma {:induction false} JoinTrimmed(ws: seq<string>, seps: seq<string>)
    requires |seps| == (if ws == [] then 0 else |ws| - 1)
    requires forall k :: 0 <= k < |ws| ==> IsWord(ws[k])
    ensures Trimmed(Join(ws, seps))
    ensures ws != [] ==> IsWord(ws[0]) && Join(ws, seps) != [] && Join(ws, seps)[0] == ws[0][0]
  {
    if |ws| > 1 {
      JoinTrimmed(ws[1..], seps[1..]);
      var j := Join(ws, seps);
      var rest := Join(ws[1..], seps[1..]);
      assert j == ws[0] + (seps[0] + rest);
      assert j[|j| - 1] == rest[|rest| - 1];
    }
  }

  /** Every string that is not all whitespace is its tokens, joined by the
      whitespace runs that separate them and padded with whitespace on both
      sides: the tokens are exactly its maximal runs of non-whitespace. */
  lemma {:induction false} SplitDecomposes(s: string) returns (pre: string, seps: seq<string>, post: string)
    requires !AllSpace(s)
    ensures AllSpace(pre) && AllSpace(post) && Separators(seps, |Split(s)|)
    ensures s == pre + Join(Split(s), seps) + post
    decreases |s|, 1
  {
    if IsSpace(s[0]) {
      var i :| 0 <= i < |s| && !IsSpace(s[i]);
      assert s[1..][i - 1] == s[i];
      var p;
      p, seps, post := SplitDecomposes(s[1..]);
      SplitSpaceFirst(s[0], s[1..]);
      assert [s[0]] + s[1..] == s;
      pre := [s[0]] + p;
      PadFront(s[0], s[1..], p, Join(Split(s[1..]), seps), post);
    } else {
      pre, seps, post := WordFirstDecomposes(s);
    }
  }

  /** `SplitDecomposes` for a string that starts with a word. */
  lemma {:induction false} WordFirstDecomposes(s: string) returns (pre: string, seps: seq<string>, post: string)
    requires s != [] && !IsSpace(s[0])
    ensures AllSpace(pre) && AllSpace(post) && Separators(seps, |Split(s)|)
    ensures s == pre + Join(Split(s), seps) + post
    decreases |s|, 0
  {
    var n := WordLength(s);
    var w, rest := s[..n], s[n..];
    assert s == w + rest;
    SplitWordFirst(w, rest);
    if AllSpace(rest) {
      pre, seps, post := [], [], rest;
      assert [] + Join([w], []) + rest == w + rest;
    } else {
      var p, sp, q := SplitDecomposes(rest);
      pre, post := [], q;
      seps := WordDecomposes(w, rest, Split(rest), p, sp, q);
    }
  }

  /** The whitespace case of `SplitDecomposes`: a leading whitespace
      character joins the padding in front. */
  lemma PadFront(c: char, t: string, p: string, j: string, post: string)
    requires IsSpace(c) && AllSpace(p) && t == p + j + post
    ensures AllSpace([c] + p) && [c] + t == ([c] + p) + j + post
  {
  }

  /** The word case of `SplitDecomposes`: the whitespace in front of the
      rest's tokens becomes the first separator. */
  lemma WordDecomposes(w: string, rest: string, toks: seq<string>, p: string, sp: seq<string>, q: string)
    returns (seps: seq<string>)
    requires IsWord(w) && rest != [] && IsSpace(rest[0])
    requires toks != [] && forall k :: 0 <= k < |toks| ==> IsWord(toks[k])
    requires AllSpace(p) && Separators(sp, |toks|)
    requires rest == p + Join(toks, sp) + q
    ensures Separators(seps, 1 + |toks|)
    ensures w + rest == [] + Join([w] + toks, seps) + q
  {
    var j := Join(toks, sp);
    JoinTrimmed(toks, sp);
    PaddingBeforeWord(rest, p, j, q);
    seps := [p] + sp;
    SeparatorsCons(p, sp, |toks|);
    JoinCons(w, p, toks, sp);
    assert w + rest == (w + p + j) + q;
  }

  /** Text that starts with whitespace and continues with a word has
      non-empty padding before the word. */
  lemma PaddingBeforeWord(rest: string, p: string, j: string, q: string)
    requires rest == p + j + q && rest != [] && IsSpace(rest[0])
    requires j != [] && !IsSpace(j[0])
    ensures p != []
  {
    assert (p + j + q)[|p|] == j[0];
  }

  /** One more separator in front. */
  lemma SeparatorsCons(p: string, sp: seq<string>, n: nat)
    requires n > 0 && Separators(sp, n) && p != [] && AllSpace(p)
    ensures Separators([p] + sp, n + 1)
  {
    assert forall k :: 0 <= k < |sp| ==> ([p] + sp)[k + 1] == sp[k];
  }

  /** Joining one more word in front, with its separator. */
  lemma JoinCons(w: string, sep: string, ws: seq<string>, seps: seq<string>)
    requires ws != [] && |seps| == |ws| - 1
    ensures Join([w] + ws, [sep] + seps) == w + sep + Join(ws, seps)
  {
    assert ([w] + ws)[1..] == ws;
    assert ([sep] + seps)[1..] == seps;
  }

  /** Whitespace followed by whitespace is whitespace. */
  lemma AllSpaceConcat(a: string, b: string)
    requires AllSpace(a) && AllSpace(b)
    ensures AllSpace(a + b)
  {
    assert forall k :: 0 <= k < |a + b| ==> (a + b)[k] == if k < |a| then a[k] else b[k - |a|];
  }

  /** Padding around the middle of a line, itself padded, extends to the
      whole line. */
  lemma PadBoth(line: string, i: nat, j: nat, p: string, mid: string, q: string)
    requires i <= j <= |line| && line[i..j] == p + mid + q
    requires AllSpace(line[..i]) && AllSpace(p) && AllSpace(q) && AllSpace(line[j..])
    ensures AllSpace(line[..i] + p) && AllSpace(q + line[j..])
    ensures line == (line[..i] + p) + mid + (q + line[j..])
  {
    AllSpaceConcat(line[..i], p);
    AllSpaceConcat(q, line[j..]);
    assert line == line[..i] + line[i..j] + line[j..];
  }
}
