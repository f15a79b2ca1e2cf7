/**
 The JavaScript string and array built-ins that the rule applier relies on:
 `String.prototype.split` with a one-character separator, `Array.prototype.join`,
 `String.prototype.indexOf`, `String.prototype.replace` with a string pattern,
 `String.prototype.trim` and `Array.prototype.indexOf` (strict equality).
 Strings are sequences of characters.
 */
module Text {

  // ---------------------------------------------------------------------------
  // split and join
  // ---------------------------------------------------------------------------

  /** `s.split(sep)`: the pieces between separators, empty pieces included.
      Splitting the empty string gives one empty piece. */
  function Split(s: string, sep: char): (parts: seq<string>)
    ensures |parts| >= 1
    ensures forall p :: p in parts ==> sep !in p
    decreases |s|
  {
    if |s| == 0 then [""]
    else
      var rest := Split(s[1..], sep);
      if s[0] == sep then [""] + rest
      else [[s[0]] + rest[0]] + rest[1..]
  }

  /** `parts.join(sep)`: the pieces with `sep` between consecutive ones. */
  function Join(parts: seq<string>, sep: string): string
  {
    if |parts| == 0 then ""
    else if |parts| == 1 then parts[0]
    else parts[0] + sep + Join(parts[1..], sep)
  }

  /** Joining the pieces of a split with the same separator gives back the text:
      nothing is dropped, trimmed or merged. */
  lemma {:induction false} JoinSplit(s: string, sep: char)
    ensures Join(Split(s, sep), [sep]) == s
    decreases |s|
  {
    if |s| > 0 {
      var rest := Split(s[1..], sep);
      JoinSplit(s[1..], sep);
      assert s == [s[0]] + s[1..];
      if s[0] == sep {
        assert ([""] + rest)[1..] == rest;
      } else if |rest| > 1 {
        var parts := Split(s, sep);
        assert parts[1..] == rest[1..];
        assert Join(rest, [sep]) == rest[0] + [sep] + Join(rest[1..], [sep]);
      }
    }
  }

  /** A separator-free text is one piece. */
  lemma {:induction false} SplitWithoutSeparator(p: string, sep: char)
    requires sep !in p
    ensures Split(p, sep) == [p]
    decreases |p|
  {
    if |p| > 0 {
      SplitWithoutSeparator(p[1..], sep);
      assert p == [p[0]] + p[1..];
    }
  }

  /** A separator-free prefix ending at a separator is the first piece. */
  lemma {:induction false} SplitAfterSeparator(p: string, t: string, sep: char)
    requires sep !in p
    ensures Split(p + [sep] + t, sep) == [p] + Split(t, sep)
    decreases |p|
  {
    var s := p + [sep] + t;
    if |p| == 0 {
      assert s[1..] == t;
    } else {
      SplitAfterSeparator(p[1..], t, sep);
      assert s[1..] == p[1..] + [sep] + t;
      assert p == [p[0]] + p[1..];
    }
  }

  /** Splitting a join of separator-free pieces gives back the pieces. */
  lemma {:induction false} SplitJoin(parts: seq<string>, sep: char)
    requires |parts| >= 1
    requires forall p :: p in parts ==> sep !in p
    ensures Split(Join(parts, [sep]), sep) == parts
    decreases |parts|
  {
    if |parts| == 1 {
      SplitWithoutSeparator(parts[0], sep);
    } else {
      assert parts[0] in parts;
      assert forall p :: p in parts[1..] ==> p in parts;
      SplitJoin(parts[1..], sep);
      SplitAfterSeparator(parts[0], Join(parts[1..], [sep]), sep);
      assert parts == [parts[0]] + parts[1..];
    }
  }

  // ---------------------------------------------------------------------------
  // indexOf on strings, and replace of the first occurrence
  // ---------------------------------------------------------------------------

  /** `pat` occurs in `s` starting at position `i`. */
  predicate OccursAt(s: string, pat: string, i: int)
  {
    0 <= i && i + |pat| <= |s| && s[i..i + |pat|] == pat
  }

  /** The search of `s.indexOf(pat)` from position `from`: the first position
      at or after `from` where `pat` occurs, or -1 when there is none. It agrees
      with `s.indexOf(pat, from)` for `from <= |s|`; past the end, JavaScript
      answers `|s|` for an empty pattern. */
  function IndexOfFrom(s: string, pat: string, from: nat): (r: int)
    ensures r == -1 || (from <= r && r + |pat| <= |s|)
    decreases |s| - from
  {
    if from + |pat| > |s| then -1
    else if s[from..from + |pat|] == pat then from
    else IndexOfFrom(s, pat, from + 1)
  }

  /** The search from `from` finds an occurrence, the first one at or after
      `from`, or answers -1 exactly when there is none. */
  lemma {:induction false} IndexOfFromFirst(s: string, pat: string, from: nat)
    ensures var r := IndexOfFrom(s, pat, from);
            && (r == -1 || (from <= r && OccursAt(s, pat, r)))
            && (r == -1 ==> forall i :: from <= i ==> !OccursAt(s, pat, i))
            && (r >= 0 ==> forall i :: from <= i < r ==> !OccursAt(s, pat, i))
    decreases |s| - from
  {
    if from + |pat| <= |s| && s[from..from + |pat|] != pat {
      IndexOfFromFirst(s, pat, from + 1);
    }
  }

  /** `s.indexOf(pat)`. */
  function IndexOf(s: string, pat: string): int
  {
    IndexOfFrom(s, pat, 0)
  }

  /** `s.indexOf(pat) >= 0`. */
  predicate Contains(s: string, pat: string)
  {
    IndexOf(s, pat) >= 0
  }

  /** The substring test holds exactly when `pat` occurs somewhere in `s`. */
  lemma ContainsIff(s: string, pat: string)
    ensures Contains(s, pat) <==> exists i :: OccursAt(s, pat, i)
  {
    IndexOfFromFirst(s, pat, 0);
  }

  /** `s.replace(pat, rep)` with a string pattern and a replacement without `$`
      patterns: the first occurrence is replaced, and nothing happens when
      there is none. */
  function ReplaceFirst(s: string, pat: string, rep: string): string
  {
    var i := IndexOf(s, pat);
    if i < 0 then s else s[..i] + rep + s[i + |pat|..]
  }

  /** Replace finds the first occurrence and only that one: whatever follows
      it, further occurrences included, is kept. */
  lemma ReplaceFirstSplice(a: string, pat: string, b: string, rep: string)
    requires forall i :: 0 <= i < |a| ==> !OccursAt(a + pat + b, pat, i)
    ensures ReplaceFirst(a + pat + b, pat, rep) == a + rep + b
  {
    var s := a + pat + b;
    assert s[|a|..|a| + |pat|] == pat;
    assert OccursAt(s, pat, |a|);
    IndexOfFromFirst(s, pat, 0);
    var i := IndexOf(s, pat);
    assert i == |a|;
    assert s[..i] == a;
    assert s[i + |pat|..] == b;
  }

  /** Without an occurrence, replace returns the text unchanged. */
  lemma ReplaceFirstAbsent(s: string, pat: string, rep: string)
    requires forall i :: !OccursAt(s, pat, i)
    ensures ReplaceFirst(s, pat, rep) == s
  {
    IndexOfFromFirst(s, pat, 0);
  }

  // ---------------------------------------------------------------------------
  // trim
  // ---------------------------------------------------------------------------

  /** The characters `trim` removes: ECMAScript WhiteSpace (tab, vertical tab,
      form feed, space, no-break space, the byte order mark and the other space
      separators) and LineTerminator (line feed, carriage return, line and
      paragraph separators). */
  predicate IsWhitespace(c: char)
  {
    || c == '\t' || c == '\n' || c == '\U{000B}' || c == '\U{000C}' || c == '\r'
    || c == ' ' || c == '\U{00A0}' || c == '\U{1680}'
    || ('\U{2000}' <= c <= '\U{200A}')
    || c == '\U{2028}' || c == '\U{2029}' || c == '\U{202F}' || c == '\U{205F}'
    || c == '\U{3000}' || c == '\U{FEFF}'
  }

  /** `s` with its leading whitespace removed. */
  function TrimStart(s: string): string
    decreases |s|
  {
    if |s| > 0 && IsWhitespace(s[0]) then TrimStart(s[1..]) else s
  }

  /** `TrimStart` keeps a suffix that does not start with whitespace, and what
      it drops is all whitespace. */
  lemma {:induction false} TrimStartSuffix(s: string)
    ensures var r := TrimStart(s);
            && |r| <= |s| && r == s[|s| - |r|..]
            && (r == [] || !IsWhitespace(r[0]))
            && (forall k :: 0 <= k < |s| - |r| ==> IsWhitespace(s[k]))
    decreases |s|
  {
    if |s| > 0 && IsWhitespace(s[0]) {
      TrimStartSuffix(s[1..]);
    }
  }

  /** `s` with its trailing whitespace removed. */
  function TrimEnd(s: string): string
    decreases |s|
  {
    if |s| > 0 && IsWhitespace(s[|s| - 1]) then TrimEnd(s[..|s| - 1]) else s
  }

  /** `TrimEnd` keeps a prefix that does not end with whitespace, and what it
      drops is all whitespace. */
  lemma {:induction false} TrimEndPrefix(s: string)
    ensures var r := TrimEnd(s);
            && |r| <= |s| && r == s[..|r|]
            && (r == [] || !IsWhitespace(r[|r| - 1]))
            && (forall k :: |r| <= k < |s| ==> IsWhitespace(s[k]))
    decreases |s|
  {
    if |s| > 0 && IsWhitespace(s[|s| - 1]) {
      TrimEndPrefix(s[..|s| - 1]);
    }
  }

  /** `s.trim()`. */
  function Trim(s: string): string
  {
    TrimEnd(TrimStart(s))
  }

  /** The trimmed text is no longer than the text and neither starts nor ends
      with whitespace. */
  lemma TrimEnds(s: string)
    ensures |Trim(s)| <= |s|
    ensures Trim(s) == [] || (!IsWhitespace(Trim(s)[0]) && !IsWhitespace(Trim(s)[|Trim(s)| - 1]))
  {
    TrimStartSuffix(s);
    var u := TrimStart(s);
    TrimEndPrefix(u);
    var r := TrimEnd(u);
    if r != [] {
      assert r[0] == u[0];
    }
  }

  predicate AllWhitespace(s: string)
  {
    forall k :: 0 <= k < |s| ==> IsWhitespace(s[k])
  }

  /** Leading whitespace in front of a text that starts with a non-whitespace
      character is exactly what `TrimStart` removes. */
  lemma TrimStartPadded(lead: string, u: string)
    requires AllWhitespace(lead)
    requires u != [] && !IsWhitespace(u[0])
    ensures TrimStart(lead + u) == u
  {
    var s := lead + u;
    TrimStartSuffix(s);
    var r := TrimStart(s);
    assert s[|lead|] == u[0];
    assert r[0] == s[|s| - |r|];
  }

  /** Trailing whitespace behind a text that ends with a non-whitespace
      character is exactly what `TrimEnd` removes. */
  lemma TrimEndPadded(t: string, trail: string)
    requires AllWhitespace(trail)
    requires t != [] && !IsWhitespace(t[|t| - 1])
    ensures TrimEnd(t + trail) == t
  {
    var s := t + trail;
    TrimEndPrefix(s);
    var r := TrimEnd(s);
    assert s[|t| - 1] == t[|t| - 1];
    assert r[|r| - 1] == s[|r| - 1];
  }

  /** Reference definition of trim: the text between a whitespace prefix and a
      whitespace suffix, when it neither starts nor ends with whitespace. */
  lemma TrimPadded(lead: string, t: string, trail: string)
    requires AllWhitespace(lead) && AllWhitespace(trail)
    requires t == [] || (!IsWhitespace(t[0]) && !IsWhitespace(t[|t| - 1]))
    ensures Trim(lead + t + trail) == t
  {
    var s := lead + t + trail;
    if t == [] {
      assert AllWhitespace(s);
      TrimStartSuffix(s);
    } else {
      assert s == lead + (t + trail);
      TrimStartPadded(lead, t + trail);
      TrimEndPadded(t, trail);
    }
  }

  /** A single leading space in front of a text with non-whitespace ends is
      all that `trim` removes. */
  lemma TrimLeadingSpace(t: string)
    requires t != [] && !IsWhitespace(t[0]) && !IsWhitespace(t[|t| - 1])
    ensures Trim(" " + t) == t
  {
    assert AllWhitespace(" ");
    assert " " + t + [] == " " + t;
    TrimPadded(" ", t, []);
  }

  /** Trimming twice is trimming once. */
  lemma TrimIdempotent(s: string)
    ensures Trim(Trim(s)) == Trim(s)
  {
    var t := Trim(s);
    TrimEnds(s);
    if t != [] {
      assert [] + t == t && t + [] == t;
      TrimStartPadded([], t);
      TrimEndPadded(t, []);
    }
  }

  // ---------------------------------------------------------------------------
  // indexOf on arrays
  // ---------------------------------------------------------------------------

  /** `list.indexOf(x)`: the first index holding an element strictly equal to
      `x`, or -1. */
  function ElementIndex<T(==)>(list: seq<T>, x: T): int
    decreases |list|
  {
    if |list| == 0 then -1
    else if list[0] == x then 0
    else
      var k := ElementIndex(list[1..], x);
      if k < 0 then -1 else k + 1
  }

  /** The search answers -1 exactly when `x` is not an element, and otherwise
      the index of its first occurrence. */
  lemma {:induction false} ElementIndexFirst<T>(list: seq<T>, x: T)
    ensures var r := ElementIndex(list, x);
            && -1 <= r < |list|
            && (r == -1 <==> x !in list)
            && (r >= 0 ==> list[r] == x && forall k :: 0 <= k < r ==> list[k] != x)
    decreases |list|
  {
    if |list| > 0 && list[0] != x {
      ElementIndexFirst(list[1..], x);
      assert list == [list[0]] + list[1..];
    }
  }
}
