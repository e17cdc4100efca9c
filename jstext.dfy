/** The JavaScript string built-ins the watchdog relies on, on `string` = `seq<char>`:
    `trim`, `split` on a one-character separator, `replace` of the first occurrence of a
    character, a global `replace` that deletes one character, and the end-anchored
    `replace(/[...]+$/, "")`. */
module JsText {
  import opened Seqs

  /** U+0000, the padding the RCON server appends to its responses. */
  const NUL: char := '\0'

  /** What `String.prototype.trim` removes: ECMAScript WhiteSpace (tab, vertical tab,
      form feed, space, no-break space, byte-order mark and the other space separators)
      and LineTerminator (line feed, carriage return, line and paragraph separators). */
  const Whitespace: set<char> := {
    '\t', '\U{000B}', '\U{000C}', ' ', '\U{00A0}', '\U{FEFF}',
    '\U{1680}', '\U{2000}', '\U{2001}', '\U{2002}', '\U{2003}', '\U{2004}', '\U{2005}',
    '\U{2006}', '\U{2007}', '\U{2008}', '\U{2009}', '\U{200A}', '\U{202F}', '\U{205F}',
    '\U{3000}',
    '\n', '\r', '\U{2028}', '\U{2029}'
  }

  /** Every character of `s` belongs to `cs`. */
  predicate AllIn(s: string, cs: set<char>) {
    forall i :: 0 <= i < |s| ==> s[i] in cs
  }

  /** Drops the longest prefix of characters from `cs`. */
  function StripStart(s: string, cs: set<char>): (r: string)
    ensures |r| <= |s| && r == s[|s| - |r|..]
    ensures AllIn(s[..|s| - |r|], cs)
    ensures r == [] || r[0] !in cs
  {
    if s != [] && s[0] in cs then
      var r := StripStart(s[1..], cs);
      assert s[..|s| - |r|] == [s[0]] + s[1..][..|s| - 1 - |r|];
      r
    else s
  }

  /** Drops the longest suffix of characters from `cs`. The pattern `/[\n\u0000]+$/`
      replaced by "" is `StripEnd(s, {'\n', NUL})`: its leftmost match is that whole
      trailing run, and there is no match when `s` does not end in one of them. */
  function StripEnd(s: string, cs: set<char>): (r: string)
    ensures |r| <= |s| && r == s[..|r|]
    ensures AllIn(s[|r|..], cs)
    ensures r == [] || r[|r| - 1] !in cs
  {
    if s != [] && s[|s| - 1] in cs then
      var r := StripEnd(s[..|s| - 1], cs);
      assert s[|r|..] == s[..|s| - 1][|r|..] + [s[|s| - 1]];
      r
    else s
  }

  /** `String.prototype.trim`. */
  function Trim(s: string): (r: string)
    ensures |r| <= |s|
    ensures r == [] || (r[0] !in Whitespace && r[|r| - 1] !in Whitespace)
  {
    StripEnd(StripStart(s, Whitespace), Whitespace)
  }

  lemma {:induction false} StripStartAppend(s: string, t: string, cs: set<char>)
    ensures StripStart(s + t, cs) == if StripStart(s, cs) == [] then StripStart(t, cs) else StripStart(s, cs) + t
  {
    if s == [] {
      assert s + t == t;
    } else {
      assert (s + t)[1..] == s[1..] + t;
      StripStartAppend(s[1..], t, cs);
    }
  }

  lemma {:induction false} StripEndAppend(s: string, t: string, cs: set<char>)
    ensures StripEnd(s + t, cs) == if StripEnd(t, cs) == [] then StripEnd(s, cs) else s + StripEnd(t, cs)
  {
    if t == [] {
      assert s + t == s;
    } else {
      assert (s + t)[..|s + t| - 1] == s + t[..|t| - 1];
      StripEndAppend(s, t[..|t| - 1], cs);
    }
  }

  /** A string made only of characters from `cs` is stripped away entirely. */
  lemma StripAll(w: string, cs: set<char>)
    requires AllIn(w, cs)
    ensures StripStart(w, cs) == [] && StripEnd(w, cs) == []
  {
  }

  /** Stripping `cs` from both ends ignores padding made of `cs`. */
  lemma StripPadded(w1: string, s: string, w2: string, cs: set<char>)
    requires AllIn(w1, cs) && AllIn(w2, cs)
    ensures StripEnd(StripStart(w1 + s + w2, cs), cs) == StripEnd(StripStart(s, cs), cs)
  {
    StripAll(w1, cs);
    StripAll(w2, cs);
    assert w1 + s + w2 == w1 + (s + w2);
    StripStartAppend(w1, s + w2, cs);
    StripStartAppend(s, w2, cs);
    var h := StripStart(s, cs);
    if h != [] {
      StripEndAppend(h, w2, cs);
    }
  }

  /** Surrounding whitespace, including blank lines, makes no difference to `trim`. */
  lemma TrimPadded(w1: string, s: string, w2: string)
    requires AllIn(w1, Whitespace) && AllIn(w2, Whitespace)
    ensures Trim(w1 + s + w2) == Trim(s)
  {
    StripPadded(w1, s, w2, Whitespace);
  }

  /** `trim` leaves a string without surrounding whitespace alone, so it is idempotent. */
  lemma TrimUnpadded(s: string)
    requires s == [] || (s[0] !in Whitespace && s[|s| - 1] !in Whitespace)
    ensures Trim(s) == s
  {
  }

  /** Index of the first `c` in `s` (`String.prototype.indexOf`). */
  function FirstIndex(s: string, c: char): (i: nat)
    requires c in s
    ensures i < |s| && s[i] == c && c !in s[..i]
  {
    if s[0] == c then 0
    else
      var j := FirstIndex(s[1..], c);
      assert s[..j + 1] == [s[0]] + s[1..][..j];
      j + 1
  }

  /** `parts.join(sep)`. */
  function Join(parts: seq<string>, sep: char): string {
    if parts == [] then ""
    else if |parts| == 1 then parts[0]
    else parts[0] + [sep] + Join(parts[1..], sep)
  }

  /** `String.prototype.split` on a one-character separator: the pieces between the
      separators, at least one, none containing it, and joined back they give `s`. */
  function Split(s: string, sep: char): (parts: seq<string>)
    ensures |parts| >= 1
    ensures forall k :: 0 <= k < |parts| ==> sep !in parts[k]
    ensures Join(parts, sep) == s
    decreases |s|
  {
    if sep !in s then [s]
    else
      var i := FirstIndex(s, sep);
      var rest := Split(s[i + 1..], sep);
      assert s == s[..i] + [sep] + s[i + 1..];
      [s[..i]] + rest
  }

  /** `split` undoes `join` on separator-free pieces; with the contract of `Split` this
      makes the pieces of a string unique. */
  lemma {:induction false} SplitJoin(parts: seq<string>, sep: char)
    requires |parts| >= 1
    requires forall k :: 0 <= k < |parts| ==> sep !in parts[k]
    ensures Split(Join(parts, sep), sep) == parts
  {
    if |parts| > 1 {
      var p, rest := parts[0], Join(parts[1..], sep);
      assert Join(parts, sep) == p + ([sep] + rest);
      SplitAt(p, sep, rest);
      SplitJoin(parts[1..], sep);
      assert parts == [p] + parts[1..];
    }
  }

  /** Splitting at the first separator. */
  lemma SplitAt(a: string, c: char, b: string)
    requires c !in a
    ensures Split(a + ([c] + b), c) == [a] + Split(b, c)
  {
    var s := a + ([c] + b);
    assert s[|a|] == c;
    var i := FirstIndex(s, c);
    assert i == |a|;
    assert s[..i] == a;
    assert s[i + 1..] == b;
  }

  /** `split` yields one piece more than there are separators. */
  lemma {:induction false} SplitCount(s: string, sep: char)
    ensures |Split(s, sep)| == Count(s, sep) + 1
    decreases |s|
  {
    if sep in s {
      var i := FirstIndex(s, sep);
      assert s == s[..i] + ([sep] + s[i + 1..]);
      CountAppend(s[..i], [sep] + s[i + 1..], sep);
      CountAppend([sep], s[i + 1..], sep);
      SplitCount(s[i + 1..], sep);
    }
  }

  /** `s.replace(new RegExp(c, "g"), "")`: every `c` deleted, the other characters kept
      in their order. */
  function Remove(s: string, c: char): (r: string)
    ensures c !in r
    ensures IsSubsequence(r, s)
    ensures forall d :: d != c ==> Count(r, d) == Count(s, d)
  {
    var r := Filter(s, d => d != c);
    forall d | d != c ensures Count(r, d) == Count(s, d) {
      FilterCount(s, d => d != c, d);
    }
    r
  }

  /** Deleting `c` works piecewise, and a string without `c` is left as it is. */
  lemma RemoveAppend(s: string, t: string, c: char)
    ensures Remove(s + t, c) == Remove(s, c) + Remove(t, c)
    ensures c !in s ==> Remove(s, c) == s
  {
    FilterAppend(s, t, d => d != c);
    if c !in s {
      assert Remove(s, c) == s by { RemoveNone(s, c); }
    }
  }

  lemma {:induction false} RemoveNone(s: string, c: char)
    requires c !in s
    ensures Remove(s, c) == s
  {
    if s != [] {
      RemoveNone(s[1..], c);
    }
  }

  /** `s.replace(a, b)` with a one-character string pattern: only the FIRST occurrence of
      `a` becomes `b`. */
  function ReplaceFirst(s: string, a: char, b: char): (r: string)
    ensures |r| == |s|
    ensures a !in s ==> r == s
    ensures a in s ==> r[FirstIndex(s, a)] == b
    ensures a in s ==> forall i :: 0 <= i < |s| && i != FirstIndex(s, a) ==> r[i] == s[i]
  {
    if a in s then
      var i := FirstIndex(s, a);
      s[..i] + [b] + s[i + 1..]
    else s
  }
}
