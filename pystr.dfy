/** Models of the Python `str` operations the caption generator relies on:
    `str.isspace` / `str.strip()`, the `in` operator, `str.split(sep)` and
    `str.replace(old, new)`.  Each is defined once and shared by the prompt
    builder, the generation guard and the response splitter.  `sep.join(parts)`
    is not called by the program; it is here as the inverse of `split`, to
    state what `split` and `replace` compute. */
module PyStr {

  // ---------------------------------------------------------------------------
  // Whitespace and strip()
  // ---------------------------------------------------------------------------

  /** The characters Python's `str.isspace` accepts (the ones `str.strip()` with
      no argument removes).  The general lemmas do not depend on which
      characters these are; the example lemmas need only that their texts'
      first and last characters are not whitespace. */
  predicate IsSpace(c: char) {
    || c == ' '
    || ('\t' <= c <= '\r')                 // \t \n \v \f \r
    || ('\U{1C}' <= c <= '\U{1F}')         // file, group, record, unit separators
    || c == '\U{85}' || c == '\U{A0}' || c == '\U{1680}'
    || ('\U{2000}' <= c <= '\U{200A}')
    || c == '\U{2028}' || c == '\U{2029}' || c == '\U{202F}' || c == '\U{205F}' || c == '\U{3000}'
  }

  /** Every character of `s` is whitespace (the empty string included). */
  predicate IsBlank(s: string) {
    forall k :: 0 <= k < |s| ==> IsSpace(s[k])
  }

  /** Number of leading whitespace characters. */
  function Lead(s: string): (n: nat)
    ensures n <= |s|
    ensures forall k :: 0 <= k < n ==> IsSpace(s[k])
    ensures n < |s| ==> !IsSpace(s[n])
  {
    if s == [] || !IsSpace(s[0]) then 0 else 1 + Lead(s[1..])
  }

  /** Number of trailing whitespace characters. */
  function Trail(s: string): (n: nat)
    ensures n <= |s|
    ensures forall k :: |s| - n <= k < |s| ==> IsSpace(s[k])
    ensures n < |s| ==> !IsSpace(s[|s| - 1 - n])
  {
    if s == [] || !IsSpace(s[|s| - 1]) then 0 else 1 + Trail(s[..|s| - 1])
  }

  /** `r` is what is left of `s` once the whitespace before position `i` and
      after position `i + |r|` is cut off, and neither end of `r` is whitespace:
      a declarative description of `s.strip()`. */
  predicate StrippedAt(s: string, r: string, i: int) {
    && 0 <= i && i + |r| <= |s|
    && s[i..i + |r|] == r
    && (forall k :: 0 <= k < i ==> IsSpace(s[k]))
    && (forall k :: i + |r| <= k < |s| ==> IsSpace(s[k]))
    && (r == [] || (!IsSpace(r[0]) && !IsSpace(r[|r| - 1])))
  }

  /** Python's `s.strip()`. */
  function Strip(s: string): (r: string)
    ensures StrippedAt(s, r, Lead(s))
    ensures r == [] <==> IsBlank(s)
  {
    var t := s[Lead(s)..];
    t[..|t| - Trail(t)]
  }

  /** `Strip` is the only string that fits the declarative description. */
  lemma StripUnique(s: string, r: string, i: int)
    requires StrippedAt(s, r, i)
    ensures r == Strip(s)
  {
    var r', i' := Strip(s), Lead(s);
    if r == [] {
      assert IsBlank(s) by {
        forall k | 0 <= k < |s| ensures IsSpace(s[k]) {
          if k < i { } else { assert i + |r| <= k; }
        }
      }
    } else {
      assert s[i] == r[0];
      assert !IsBlank(s);
      assert s[i'] == r'[0];
      assert i == i';
      var j, j' := i + |r|, i' + |r'|;
      assert s[j - 1] == r[|r| - 1];
      assert s[j' - 1] == r'[|r'| - 1];
      assert !IsSpace(s[j - 1]) && !IsSpace(s[j' - 1]);
      assert j == j';
    }
  }

  /** A string with no whitespace at either end is its own strip. */
  lemma StripUnchanged(s: string)
    requires s == [] || (!IsSpace(s[0]) && !IsSpace(s[|s| - 1]))
    ensures Strip(s) == s
  {
    assert s[0..|s|] == s;
    StripUnique(s, s, 0);
  }

  /** Stripping twice is the same as stripping once. */
  lemma StripIdempotent(s: string)
    ensures Strip(Strip(s)) == Strip(s)
  {
    var r := Strip(s);
    assert r[0..|r|] == r;
    StripUnique(r, r, 0);
  }

  // ---------------------------------------------------------------------------
  // Substrings: startswith and `in`
  // ---------------------------------------------------------------------------

  predicate StartsWith(s: string, p: string) {
    |p| <= |s| && s[..|p|] == p
  }

  predicate EndsWith(s: string, p: string) {
    |p| <= |s| && s[|s| - |p|..] == p
  }

  /** `sub` occurs in `s` starting at index `i`. */
  predicate OccursAt(s: string, sub: string, i: int) {
    0 <= i && i + |sub| <= |s| && s[i..i + |sub|] == sub
  }

  /** Python's `sub in s` (true for the empty `sub`). */
  predicate Contains(s: string, sub: string) {
    exists i | 0 <= i <= |s| - |sub| :: OccursAt(s, sub, i)
  }

  lemma ContainsAt(s: string, sub: string, i: int)
    requires OccursAt(s, sub, i)
    ensures Contains(s, sub)
  {
  }

  /** `y` occurs in `x + y + z` right after `x`. */
  lemma OccursInMiddle(x: string, y: string, z: string)
    ensures OccursAt(x + y + z, y, |x|)
  {
    assert (x + y + z)[|x|..|x| + |y|] == y;
  }

  /** An occurrence in a suffix is an occurrence in the whole string, shifted. */
  lemma OccursShift(s: string, sub: string, d: nat, i: int)
    requires d <= |s|
    ensures OccursAt(s[d..], sub, i) <==> (0 <= i && OccursAt(s, sub, i + d))
  {
    if 0 <= i && i + |sub| <= |s| - d {
      assert s[d..][i..i + |sub|] == s[i + d..i + d + |sub|];
    }
  }

  /** An occurrence inside a prefix is an occurrence in the whole string. */
  lemma OccursInPrefix(s: string, sub: string, n: nat, i: int)
    requires n <= |s| && OccursAt(s[..n], sub, i)
    ensures OccursAt(s, sub, i)
  {
    assert s[..n][i..i + |sub|] == s[i..i + |sub|];
  }

  /** `y` occurs in `x + (y + z)` right after `x`. */
  lemma OccursAfter(x: string, y: string, z: string)
    ensures OccursAt(x + (y + z), y, |x|)
  {
    assert x + (y + z) == x + y + z;
    OccursInMiddle(x, y, z);
  }

  /** An occurrence in a prefix of `s` is an occurrence in `s`. */
  lemma OccursInLonger(s: string, p: string, sub: string, i: int)
    requires StartsWith(s, p) && OccursAt(p, sub, i)
    ensures OccursAt(s, sub, i)
  {
    assert s[..|p|] == p;
    OccursInPrefix(s, sub, |p|, i);
  }

  /** An occurrence inside an occurrence, at the summed offset. */
  lemma OccursWithin(s: string, big: string, small: string, i: int, j: int)
    requires OccursAt(s, big, i) && OccursAt(big, small, j)
    ensures OccursAt(s, small, i + j)
  {
    forall k | 0 <= k < |small| ensures s[i + j + k] == small[k] {
      assert big[j + k] == s[i..i + |big|][j + k] == s[i + j + k];
      assert small[k] == big[j..j + |small|][k];
    }
    assert s[i + j..i + j + |small|] == small;
  }

  // ---------------------------------------------------------------------------
  // split(sep), the count of separators it finds, and sep.join(parts)
  // ---------------------------------------------------------------------------

  /** Number of occurrences of `sep` that Python's `split`, `replace` and
      `count` find: scanning from the left, never overlapping. */
  function CountOf(s: string, sep: string): nat
    requires |sep| > 0
    decreases |s|
  {
    if s == [] then 0
    else if StartsWith(s, sep) then 1 + CountOf(s[|sep|..], sep)
    else CountOf(s[1..], sep)
  }

  /** Python's `s.split(sep)` for a non-empty `sep`: one more part than
      there are separators. */
  function SplitAll(s: string, sep: string): (parts: seq<string>)
    requires |sep| > 0
    ensures |parts| == CountOf(s, sep) + 1
    decreases |s|
  {
    if s == [] then [s]
    else if StartsWith(s, sep) then [[]] + SplitAll(s[|sep|..], sep)
    else
      var rest := SplitAll(s[1..], sep);
      [[s[0]] + rest[0]] + rest[1..]
  }

  /** Python's `sep.join(parts)` for a non-empty list of parts. */
  function Join(parts: seq<string>, sep: string): string
    requires |parts| > 0
  {
    if |parts| == 1 then parts[0] else parts[0] + sep + Join(parts[1..], sep)
  }

  /** A character put in front of the first part goes in front of the join. */
  lemma JoinConsFirst(c: char, parts: seq<string>, sep: string)
    requires |parts| > 0
    ensures Join([[c] + parts[0]] + parts[1..], sep) == [c] + Join(parts, sep)
  {
    var parts' := [[c] + parts[0]] + parts[1..];
    assert parts'[1..] == parts[1..];
  }

  /** An empty first part leaves just the separator in front of the join. */
  lemma JoinEmptyFirst(parts: seq<string>, sep: string)
    requires |parts| > 0
    ensures Join([[]] + parts, sep) == sep + Join(parts, sep)
  {
    var parts' := [[]] + parts;
    assert parts'[1..] == parts;
  }

  /** `sep` is found exactly when there is at least one separator to count. */
  lemma {:induction false} ContainsIffCount(s: string, sep: string)
    requires |sep| > 0
    ensures Contains(s, sep) <==> CountOf(s, sep) > 0
    decreases |s|
  {
    if s == [] {
    } else if StartsWith(s, sep) {
      assert OccursAt(s, sep, 0);
    } else {
      ContainsIffCount(s[1..], sep);
      if Contains(s, sep) {
        var i :| 0 <= i <= |s| - |sep| && OccursAt(s, sep, i);
        assert i != 0;
        OccursShift(s, sep, 1, i - 1);
        ContainsAt(s[1..], sep, i - 1);
      }
      if Contains(s[1..], sep) {
        var i :| 0 <= i <= |s[1..]| - |sep| && OccursAt(s[1..], sep, i);
        OccursShift(s, sep, 1, i);
        ContainsAt(s, sep, i + 1);
      }
    }
  }

  /** Joining the parts with the separator gives back the original string. */
  lemma {:induction false} JoinSplit(s: string, sep: string)
    requires |sep| > 0
    ensures Join(SplitAll(s, sep), sep) == s
    decreases |s|
  {
    if s == [] {
    } else if StartsWith(s, sep) {
      var t := s[|sep|..];
      JoinSplit(t, sep);
      JoinEmptyFirst(SplitAll(t, sep), sep);
      assert s == s[..|sep|] + t;
    } else {
      var rest := SplitAll(s[1..], sep);
      JoinSplit(s[1..], sep);
      JoinConsFirst(s[0], rest, sep);
      assert s == [s[0]] + s[1..];
    }
  }

  /** The first part is a prefix of the split string. */
  lemma FirstPartIsPrefix(s: string, sep: string)
    requires |sep| > 0
    ensures StartsWith(s, SplitAll(s, sep)[0])
  {
    var parts := SplitAll(s, sep);
    JoinSplit(s, sep);
    if |parts| > 1 {
      assert s == parts[0] + (sep + Join(parts[1..], sep));
    }
  }

  /** None of `parts` contains `sep`. */
  predicate NoneContains(parts: seq<string>, sep: string) {
    forall k :: 0 <= k < |parts| ==> !Contains(parts[k], sep)
  }

  /** No part of a split contains the separator. */
  lemma {:induction false} SplitPartsFree(s: string, sep: string)
    requires |sep| > 0
    ensures NoneContains(SplitAll(s, sep), sep)
    decreases |s|
  {
    var parts := SplitAll(s, sep);
    if s == [] {
    } else if StartsWith(s, sep) {
      SplitPartsFree(s[|sep|..], sep);
      assert parts[1..] == SplitAll(s[|sep|..], sep);
      forall k | 0 <= k < |parts| ensures !Contains(parts[k], sep) {
        if k > 0 { assert parts[k] == parts[1..][k - 1]; }
      }
    } else {
      var rest := SplitAll(s[1..], sep);
      SplitPartsFree(s[1..], sep);
      FirstPartIsPrefix(s[1..], sep);
      var p := [s[0]] + rest[0];
      assert p == s[..|p|];
      assert p[1..] == rest[0];
      forall i | 0 <= i <= |p| - |sep| ensures !OccursAt(p, sep, i) {
        if i == 0 {
          assert p[..|sep|] == s[..|sep|];
        } else {
          OccursShift(p, sep, 1, i - 1);
        }
      }
      forall k | 0 <= k < |parts| ensures !Contains(parts[k], sep) {
        if k > 0 { assert parts[k] == rest[k]; }
      }
    }
  }

  /** Without the separator, split returns the whole string as the only part. */
  lemma SplitNone(s: string, sep: string)
    requires |sep| > 0 && !Contains(s, sep)
    ensures SplitAll(s, sep) == [s]
  {
    ContainsIffCount(s, sep);
    JoinSplit(s, sep);
  }

  /** When no occurrence of `sep` starts inside `a`, splitting `a + sep + b`
      cuts at the separator right after `a`. */
  lemma {:induction false} SplitFirst(a: string, sep: string, b: string)
    requires |sep| > 0
    requires forall i :: 0 <= i < |a| ==> !OccursAt(a + sep + b, sep, i)
    ensures SplitAll(a + sep + b, sep) == [a] + SplitAll(b, sep)
    decreases |a|
  {
    var s := a + sep + b;
    if a == [] {
      assert s == sep + b;
      assert s[|sep|..] == b;
    } else {
      assert !OccursAt(s, sep, 0);
      assert !StartsWith(s, sep);
      var a' := a[1..];
      assert s[1..] == a' + sep + b;
      forall i | 0 <= i < |a'| ensures !OccursAt(a' + sep + b, sep, i) {
        OccursShift(s, sep, 1, i);
      }
      SplitFirst(a', sep, b);
      assert [s[0]] + a' == a;
    }
  }

  /** A separator whose first character does not occur again in it cannot
      overlap itself: two occurrences are at least its length apart. */
  lemma NoSelfOverlap(s: string, sep: string, i: int, j: int)
    requires |sep| > 0 && sep[0] !in sep[1..]
    requires OccursAt(s, sep, i) && OccursAt(s, sep, j) && i < j
    ensures i + |sep| <= j
  {
  }

  /** For such a separator, `a` free of it means no occurrence starts inside `a`. */
  lemma FreePrefixNoEarlyMatch(a: string, sep: string, b: string)
    requires |sep| > 0 && sep[0] !in sep[1..]
    requires !Contains(a, sep)
    ensures forall i :: 0 <= i < |a| ==> !OccursAt(a + sep + b, sep, i)
  {
    var s := a + sep + b;
    forall i | 0 <= i < |a| ensures !OccursAt(s, sep, i) {
      if OccursAt(s, sep, i) {
        OccursInMiddle(a, sep, b);
        NoSelfOverlap(s, sep, i, |a|);
        assert s[..|a|] == a;
        assert OccursAt(s[..|a|], sep, i) by {
          assert s[..|a|][i..i + |sep|] == s[i..i + |sep|];
        }
        ContainsAt(a, sep, i);
      }
    }
  }

  /** A string that starts with `sep` and holds another occurrence of it past
      the first has at least two separators for split to find. */
  lemma CountAfterLeadingSep(s: string, sep: string, j: int)
    requires |sep| > 0 && StartsWith(s, sep)
    requires OccursAt(s, sep, j) && |sep| <= j
    ensures CountOf(s, sep) >= 2
  {
    var t := s[|sep|..];
    OccursShift(s, sep, |sep|, j - |sep|);
    ContainsAt(t, sep, j - |sep|);
    ContainsIffCount(t, sep);
  }

  /** For such a separator, two occurrences are two separators split finds. */
  lemma {:induction false} CountAtLeastTwo(s: string, sep: string, i: int, j: int)
    requires |sep| > 0 && sep[0] !in sep[1..]
    requires OccursAt(s, sep, i) && OccursAt(s, sep, j) && i < j
    ensures CountOf(s, sep) >= 2
    decreases |s|
  {
    if StartsWith(s, sep) {
      if i > 0 { NoSelfOverlap(s, sep, 0, i); } else { NoSelfOverlap(s, sep, i, j); }
      CountAfterLeadingSep(s, sep, j);
    } else {
      assert i != 0;
      OccursShift(s, sep, 1, i - 1);
      OccursShift(s, sep, 1, j - 1);
      CountAtLeastTwo(s[1..], sep, i - 1, j - 1);
    }
  }

  // ---------------------------------------------------------------------------
  // replace(old, new)
  // ---------------------------------------------------------------------------

  /** Python's `s.replace(pat, rep)`: every occurrence of `pat` found scanning
      from the left, never overlapping, becomes `rep`; an empty `pat` puts
      `rep` before every character and at the end. */
  function ReplaceAll(s: string, pat: string, rep: string): (r: string)
    decreases |s|
  {
    if pat == [] then
      (if s == [] then rep else rep + [s[0]] + ReplaceAll(s[1..], pat, rep))
    else if s == [] then []
    else if StartsWith(s, pat) then rep + ReplaceAll(s[|pat|..], pat, rep)
    else [s[0]] + ReplaceAll(s[1..], pat, rep)
  }

  /** The arithmetic of one replaced occurrence. */
  lemma LengthStep(n: int, m: int, c: int, d: int, p: int, q: int)
    requires n == m + c * d && d == q - p
    ensures q + n == (p + m) + (c + 1) * d
  {
  }

  /** Each replaced occurrence changes the length by `|rep| - |pat|`. */
  lemma {:induction false} ReplaceLength(s: string, pat: string, rep: string)
    requires |pat| > 0
    ensures |ReplaceAll(s, pat, rep)| == |s| + CountOf(s, pat) * (|rep| - |pat|)
    decreases |s|
  {
    if s == [] {
    } else if StartsWith(s, pat) {
      var t := s[|pat|..];
      ReplaceLength(t, pat, rep);
      LengthStep(|ReplaceAll(t, pat, rep)|, |t|, CountOf(t, pat), |rep| - |pat|, |pat|, |rep|);
      assert |s| == |pat| + |t|;
    } else {
      ReplaceLength(s[1..], pat, rep);
    }
  }

  /** Replacing is splitting at the pattern and joining with the replacement. */
  lemma {:induction false} ReplaceIsJoinOfSplit(s: string, pat: string, rep: string)
    requires |pat| > 0
    ensures ReplaceAll(s, pat, rep) == Join(SplitAll(s, pat), rep)
    decreases |s|
  {
    if s == [] {
    } else if StartsWith(s, pat) {
      ReplaceIsJoinOfSplit(s[|pat|..], pat, rep);
      var parts := SplitAll(s, pat);
      assert parts[1..] == SplitAll(s[|pat|..], pat);
    } else {
      ReplaceIsJoinOfSplit(s[1..], pat, rep);
      JoinConsFirst(s[0], SplitAll(s[1..], pat), rep);
    }
  }

  /** Deleting a pattern (`s.replace(pat, "")`) leaves the concatenation of the
      pattern-free pieces that, joined back with the pattern, give `s`. */
  lemma ReplaceDeletes(s: string, pat: string)
    requires |pat| > 0
    ensures var pieces := SplitAll(s, pat);
      && ReplaceAll(s, pat, []) == Join(pieces, [])
      && Join(pieces, pat) == s
      && NoneContains(pieces, pat)
  {
    ReplaceIsJoinOfSplit(s, pat, []);
    JoinSplit(s, pat);
    SplitPartsFree(s, pat);
  }

  /** A string without the pattern is left unchanged by `replace`. */
  lemma ReplaceAbsent(s: string, pat: string, rep: string)
    requires |pat| > 0 && !Contains(s, pat)
    ensures ReplaceAll(s, pat, rep) == s
  {
    SplitNone(s, pat);
    ReplaceIsJoinOfSplit(s, pat, rep);
  }

  /** A string lacking some character of `sub` does not contain `sub`. */
  lemma MissingCharNotContained(s: string, sub: string, k: nat)
    requires k < |sub| && sub[k] !in s
    ensures !Contains(s, sub)
  {
    forall i | 0 <= i <= |s| - |sub| ensures !OccursAt(s, sub, i) {
      assert s[i..i + |sub|][k] == s[i + k];
    }
  }
}
