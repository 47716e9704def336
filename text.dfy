/**
 * The string primitives the application relies on, written as JavaScript defines them:
 * `trim`, `split` on one character, `includes`, `startsWith`, global literal replacement
 * and `parseInt(s, 10)`. Strings are sequences of characters.
 */
module Text {
  import opened Wrappers

  /** Group `g` of JavaScript's WhiteSpace and LineTerminator code points: 0 the ASCII
      ones, 1 no-break space and Ogham space mark, 2 the typographic spaces U+2000 to
      U+200A, 3 the separators and narrow spaces of the U+2020 block, 4 the ideographic
      space and the byte-order mark. */
  predicate InWhitespaceGroup(c: char, g: nat) {
    if g == 0 then c == ' ' || ('\t' <= c <= '\r')
    else if g == 1 then c == '\U{00A0}' || c == '\U{1680}'
    else if g == 2 then '\U{2000}' <= c <= '\U{200A}'
    else if g == 3 then c == '\U{2028}' || c == '\U{2029}' || c == '\U{202F}' || c == '\U{205F}'
    else g == 4 && (c == '\U{3000}' || c == '\U{FEFF}')
  }

  /** `c` belongs to one of the groups `0` to `g`, searched from the last. */
  predicate InWhitespaceGroups(c: char, g: nat)
    decreases g
  {
    InWhitespaceGroup(c, g) || (g > 0 && InWhitespaceGroups(c, g - 1))
  }

  /** What `trim` removes, what `parseInt` skips and what the regular-expression class
      `\s` matches. */
  predicate IsWhitespace(c: char) {
    InWhitespaceGroups(c, 4)
  }

  predicate IsDigit(c: char) {
    '0' <= c <= '9'
  }

  predicate AllDigits(s: string) {
    forall i :: 0 <= i < |s| ==> IsDigit(s[i])
  }

  /** `p` occurs in `s` starting at index `i`. */
  predicate OccursAt(s: string, p: string, i: int) {
    0 <= i <= |s| - |p| && s[i..i + |p|] == p
  }

  /** True when `s` has no white space at either end. */
  predicate IsTrimmed(s: string) {
    s == [] || (!IsWhitespace(s[0]) && !IsWhitespace(s[|s| - 1]))
  }

  function TrimStart(s: string): (r: string)
    ensures |r| <= |s| && r == s[|s| - |r|..]
    ensures r == [] || !IsWhitespace(r[0])
  {
    if s != [] && IsWhitespace(s[0]) then TrimStart(s[1..]) else s
  }

  /** `TrimStart` removes nothing but white space. */
  lemma {:induction false} TrimStartRemoves(s: string)
    ensures forall i :: 0 <= i < |s| - |TrimStart(s)| ==> IsWhitespace(s[i])
    decreases |s|
  {
    if s != [] && IsWhitespace(s[0]) {
      TrimStartRemoves(s[1..]);
      forall i | 1 <= i < |s| - |TrimStart(s)| ensures IsWhitespace(s[i]) {
        assert s[i] == s[1..][i - 1];
      }
    }
  }

  function TrimEnd(s: string): (r: string)
    ensures |r| <= |s| && r == s[..|r|]
    ensures r == [] || !IsWhitespace(r[|r| - 1])
  {
    if s != [] && IsWhitespace(s[|s| - 1]) then TrimEnd(s[..|s| - 1]) else s
  }

  /** `TrimEnd` removes nothing but white space. */
  lemma {:induction false} TrimEndRemoves(s: string)
    ensures forall i :: |TrimEnd(s)| <= i < |s| ==> IsWhitespace(s[i])
    decreases |s|
  {
    if s != [] && IsWhitespace(s[|s| - 1]) {
      TrimEndRemoves(s[..|s| - 1]);
      forall i | |TrimEnd(s)| <= i < |s| - 1 ensures IsWhitespace(s[i]) {
        assert s[i] == s[..|s| - 1][i];
      }
    }
  }

  /** `s.trim()`: an infix of `s` without white space at either end. */
  function Trim(s: string): (r: string)
    ensures IsTrimmed(r)
  {
    var t := TrimStart(s);
    var r := TrimEnd(t);
    assert r == t[..|r|];
    assert r != [] ==> r[0] == t[0];
    r
  }

  /** `r` is `s` with only white space removed before index `k` and after `r`. */
  predicate StrippedAt(s: string, r: string, k: int) {
    && OccursAt(s, r, k)
    && (forall i :: 0 <= i < k ==> IsWhitespace(s[i]))
    && (forall i :: k + |r| <= i < |s| ==> IsWhitespace(s[i]))
  }

  /** What `trim` removes is white space, at the start and at the end of `s` only. */
  lemma TrimRemovesOnlyWhitespace(s: string)
    ensures exists k :: StrippedAt(s, Trim(s), k)
  {
    var t := TrimStart(s);
    var r := TrimEnd(t);
    TrimStartRemoves(s);
    TrimEndRemoves(t);
    StrippedInTwoSteps(s, t, r);
    assert Trim(s) == r;
  }

  /** Stripping white space from the start and then from the end strips it at both. */
  lemma StrippedInTwoSteps(s: string, t: string, r: string)
    requires |t| <= |s| && t == s[|s| - |t|..]
    requires forall i :: 0 <= i < |s| - |t| ==> IsWhitespace(s[i])
    requires |r| <= |t| && r == t[..|r|]
    requires forall i :: |r| <= i < |t| ==> IsWhitespace(t[i])
    ensures StrippedAt(s, r, |s| - |t|)
  {
    var k := |s| - |t|;
    assert s[k..][..|r|] == s[k..k + |r|];
    forall i | k + |r| <= i < |s| ensures IsWhitespace(s[i]) {
      assert s[i] == t[i - k];
    }
  }

  /** Trimming adds no character. */
  lemma TrimAvoids(s: string, c: char)
    requires c !in s
    ensures c !in Trim(s)
  {
    var t := TrimStart(s);
    var r := TrimEnd(t);
    assert Trim(s) == r;
  }

  /** Trimming a string that is already trimmed changes nothing, so `Trim` is idempotent. */
  lemma TrimTrimmed(s: string)
    requires IsTrimmed(s)
    ensures Trim(s) == s
  {
  }

  lemma TrimIdempotent(s: string)
    ensures Trim(Trim(s)) == Trim(s)
  {
    TrimTrimmed(Trim(s));
  }

  /** A string of white space trims to the empty string. */
  lemma TrimAllWhitespace(s: string)
    requires forall i :: 0 <= i < |s| ==> IsWhitespace(s[i])
    ensures Trim(s) == []
  {
  }

  /** `s.startsWith(p)`. */
  predicate StartsWith(s: string, p: string) {
    |p| <= |s| && s[..|p|] == p
  }

  /** `s.includes(p)`: `p` occurs in `s` at some position. */
  predicate Contains(s: string, p: string)
    decreases |s|
  {
    StartsWith(s, p) || (s != [] && Contains(s[1..], p))
  }

  /** `Contains` holds exactly when `p` occurs at some index of `s`. */
  lemma {:induction false} ContainsAt(s: string, p: string)
    ensures Contains(s, p) <==> exists i :: OccursAt(s, p, i)
    decreases |s|
  {
    if StartsWith(s, p) {
      assert OccursAt(s, p, 0);
    } else if s == [] {
    } else {
      ContainsAt(s[1..], p);
      if exists i :: OccursAt(s, p, i) {
        var i :| OccursAt(s, p, i);
        assert i != 0;
        assert OccursAt(s[1..], p, i - 1);
      }
      if Contains(s[1..], p) {
        var i :| OccursAt(s[1..], p, i);
        assert OccursAt(s, p, i + 1);
      }
    }
  }

  /** An occurrence in a suffix is an occurrence in the whole string. */
  lemma {:induction false} ContainsSuffix(a: string, b: string, p: string)
    requires Contains(b, p)
    ensures Contains(a + b, p)
    decreases |a|
  {
    if a != [] {
      ContainsSuffix(a[1..], b, p);
      assert (a + b)[1..] == a[1..] + b;
    } else {
      assert a + b == b;
    }
  }

  /** A string contains nothing that starts with a character the string lacks. */
  lemma {:induction false} NotContainsFirst(s: string, p: string)
    requires p != [] && p[0] !in s
    ensures !Contains(s, p)
    decreases |s|
  {
    if s != [] {
      NotContainsFirst(s[1..], p);
    }
  }

  /** `s.split(sep)`: the pieces of `s` between occurrences of `sep`; never empty, and
      `""` splits into `[""]`. */
  function Split(s: string, sep: char): (r: seq<string>)
    ensures |r| >= 1
    ensures forall i :: 0 <= i < |r| ==> sep !in r[i]
    decreases |s|
  {
    if s == [] then [[]]
    else
      var rest := Split(s[1..], sep);
      if s[0] == sep then [[]] + rest else [[s[0]] + rest[0]] + rest[1..]
  }

  /** `parts.join(sep)`. */
  function Join(parts: seq<string>, sep: string): string
    decreases |parts|
  {
    if |parts| == 0 then []
    else if |parts| == 1 then parts[0]
    else parts[0] + sep + Join(parts[1..], sep)
  }

  /** A prefix free of the separator only lengthens the first piece. */
  lemma {:induction false} SplitPrefix(a: string, b: string, sep: char)
    requires sep !in a
    ensures Split(a + b, sep) == [a + Split(b, sep)[0]] + Split(b, sep)[1..]
    decreases |a|
  {
    if a == [] {
      assert a + b == b;
      var r := Split(b, sep);
      assert a + r[0] == r[0];
      assert r == [r[0]] + r[1..];
    } else {
      assert (a + b)[1..] == a[1..] + b;
      SplitPrefix(a[1..], b, sep);
      assert [a[0]] + (a[1..] + Split(b, sep)[0]) == a + Split(b, sep)[0];
    }
  }

  /** Splitting at one separator splits the two sides independently. */
  lemma {:induction false} SplitConcat(a: string, b: string, sep: char)
    ensures Split(a + [sep] + b, sep) == Split(a, sep) + Split(b, sep)
    decreases |a|
  {
    if a == [] {
      assert a + [sep] + b == [sep] + b;
      assert ([sep] + b)[1..] == b;
    } else {
      assert (a + [sep] + b)[1..] == a[1..] + [sep] + b;
      SplitConcat(a[1..], b, sep);
    }
  }

  /** Joining pieces that are free of the separator and splitting again gives the pieces back. */
  lemma {:induction false} SplitJoin(parts: seq<string>, sep: char)
    requires |parts| >= 1
    requires forall i :: 0 <= i < |parts| ==> sep !in parts[i]
    ensures Split(Join(parts, [sep]), sep) == parts
    decreases |parts|
  {
    if |parts| == 1 {
      SplitPrefix(parts[0], [], sep);
      assert parts[0] + [] == parts[0];
    } else {
      SplitJoin(parts[1..], sep);
      SplitConcat(parts[0], Join(parts[1..], [sep]), sep);
      SplitPrefix(parts[0], [], sep);
      assert parts[0] + [] == parts[0];
      assert parts == [parts[0]] + parts[1..];
    }
  }

  /** Splitting and joining again with the same separator gives the string back. */
  lemma {:induction false} JoinSplit(s: string, sep: char)
    ensures Join(Split(s, sep), [sep]) == s
    decreases |s|
  {
    if s != [] {
      var rest := Split(s[1..], sep);
      JoinSplit(s[1..], sep);
      if s[0] == sep {
        assert Split(s, sep) == [[]] + rest;
        assert ([[]] + rest)[1..] == rest;
        assert s == [sep] + s[1..];
      } else {
        var parts := [[s[0]] + rest[0]] + rest[1..];
        if |rest| == 1 {
          assert rest == [rest[0]];
        } else {
          assert rest[0] + [sep] + Join(rest[1..], [sep]) == Join(rest, [sep]);
          assert parts[1..] == rest[1..];
        }
        assert s == [s[0]] + s[1..];
      }
    }
  }

  /** `s.replace(new RegExp(pat, "g"), rep)` for a pattern with no regular-expression
      operators: every non-overlapping occurrence, scanning left to right, is replaced
      and the inserted text is not scanned again. */
  function ReplaceAll(s: string, pat: string, rep: string): string
    requires pat != []
    decreases |s|
  {
    if s == [] then []
    else if StartsWith(s, pat) then rep + ReplaceAll(s[|pat|..], pat, rep)
    else [s[0]] + ReplaceAll(s[1..], pat, rep)
  }

  /** Replacing a pattern that does not occur leaves the string unchanged. */
  lemma {:induction false} ReplaceAbsent(s: string, pat: string, rep: string)
    requires pat != [] && !Contains(s, pat)
    ensures ReplaceAll(s, pat, rep) == s
    decreases |s|
  {
    if s != [] {
      ReplaceAbsent(s[1..], pat, rep);
      assert s == [s[0]] + s[1..];
    }
  }

  /** Replacing a single character is splitting at it and joining with the replacement. */
  lemma {:induction false} ReplaceCharIsSplitJoin(s: string, c: char, rep: string)
    ensures ReplaceAll(s, [c], rep) == Join(Split(s, c), rep)
    decreases |s|
  {
    if s != [] {
      var rest := Split(s[1..], c);
      ReplaceCharIsSplitJoin(s[1..], c, rep);
      if s[0] == c {
        assert StartsWith(s, [c]);
        assert ([[]] + rest)[1..] == rest;
      } else {
        assert !StartsWith(s, [c]);
        var parts := [[s[0]] + rest[0]] + rest[1..];
        if |rest| == 1 {
          assert rest == [rest[0]];
        } else {
          assert parts[1..] == rest[1..];
        }
      }
    }
  }

  /** Pieces free of `c` joined by a separator free of `c` are free of `c`. */
  lemma {:induction false} JoinAvoids(parts: seq<string>, sep: string, c: char)
    requires forall i :: 0 <= i < |parts| ==> c !in parts[i]
    requires c !in sep
    ensures c !in Join(parts, sep)
    decreases |parts|
  {
    if |parts| > 1 {
      JoinAvoids(parts[1..], sep, c);
    }
  }

  /** After replacing every `c` by text free of `c`, no `c` is left. */
  lemma ReplaceCharRemoves(s: string, c: char, rep: string)
    requires c !in rep
    ensures c !in ReplaceAll(s, [c], rep)
  {
    ReplaceCharIsSplitJoin(s, c, rep);
    JoinAvoids(Split(s, c), rep, c);
  }

  /** The longest prefix of decimal digits. */
  function DigitPrefix(s: string): (r: string)
    ensures |r| <= |s| && r == s[..|r|]
    ensures AllDigits(r)
    ensures |r| < |s| ==> !IsDigit(s[|r|])
  {
    if s != [] && IsDigit(s[0]) then [s[0]] + DigitPrefix(s[1..]) else []
  }

  /** The value of a string of decimal digits, most significant first. */
  function DigitsValue(ds: string): nat
    requires AllDigits(ds)
  {
    if ds == [] then 0
    else
      var last := ds[|ds| - 1];
      assert IsDigit(last);
      DigitsValue(ds[..|ds| - 1]) * 10 + ((last as int) - ('0' as int))
  }

  /** `parseInt(s, 10)`, with `None` for `NaN`: leading white space is skipped, one
      optional sign is read, and then the longest run of decimal digits; anything after
      it is ignored. Without a digit the result is `NaN`. */
  function ParseInt(s: string): Option<int> {
    ParseSigned(TrimStart(s))
  }

  function ParseSigned(t: string): Option<int> {
    if t != [] && t[0] == '-' then
      var magnitude := ParseUnsigned(t[1..]);
      if magnitude.Some? then Some(-magnitude.value) else None
    else if t != [] && t[0] == '+' then ParseUnsigned(t[1..])
    else ParseUnsigned(t)
  }

  /** The value of the leading run of digits of `u`, `None` when `u` does not start
      with a digit. */
  function ParseUnsigned(u: string): (r: Option<int>)
    ensures r.None? <==> u == [] || !IsDigit(u[0])
    ensures r.Some? ==> r.value >= 0
  {
    var ds := DigitPrefix(u);
    if ds == [] then None else Some(DigitsValue(ds))
  }

  lemma ParseUnsignedDigits(ds: string, rest: string)
    requires ds != [] && AllDigits(ds)
    requires rest == [] || !IsDigit(rest[0])
    ensures ParseUnsigned(ds + rest) == Some(DigitsValue(ds))
  {
    DigitPrefixOf(ds, rest);
  }

  /** A run of digits followed by anything that does not continue it parses to the
      run's value. */
  lemma ParseDigits(ds: string, rest: string)
    requires ds != [] && AllDigits(ds)
    requires rest == [] || !IsDigit(rest[0])
    ensures ParseInt(ds + rest) == Some(DigitsValue(ds))
  {
    var t := ds + rest;
    assert t[0] == ds[0] && IsDigit(t[0]);
    assert TrimStart(t) == t by { assert !IsWhitespace(t[0]); }
    ParseUnsignedDigits(ds, rest);
  }

  /** `parseInt("0", 10)` is zero. */
  lemma ParseZero()
    ensures ParseInt("0") == Some(0)
  {
    assert AllDigits("0") && DigitsValue("0") == 0 by {
      assert "0"[..0] == [];
    }
    assert "0" == "0" + [];
    ParseDigits("0", []);
  }

  /** With a leading minus sign, a run of digits parses to its negated value. */
  lemma ParseNegative(t: string)
    requires ParseUnsigned(t).Some?
    ensures ParseInt("-" + t) == Some(-ParseUnsigned(t).value)
  {
    var u := "-" + t;
    assert u[0] == '-' && u[1..] == t;
    assert TrimStart(u) == u by { assert !IsWhitespace(u[0]); }
  }

  lemma {:induction false} DigitPrefixOf(ds: string, rest: string)
    requires AllDigits(ds)
    requires rest == [] || !IsDigit(rest[0])
    ensures DigitPrefix(ds + rest) == ds
    decreases |ds|
  {
    if ds != [] {
      assert (ds + rest)[1..] == ds[1..] + rest;
      DigitPrefixOf(ds[1..], rest);
      assert ds == [ds[0]] + ds[1..];
    } else {
      assert ds + rest == rest;
    }
  }

  /** A string with no digit at all parses to `NaN`. */
  lemma ParseNoDigits(s: string)
    requires forall i :: 0 <= i < |s| ==> !IsDigit(s[i])
    ensures ParseInt(s) == None
  {
    var t := TrimStart(s);
    assert forall i :: 0 <= i < |t| ==> t[i] == s[|s| - |t| + i];
    if t != [] {
      assert forall i :: 0 <= i < |t[1..]| ==> t[1..][i] == t[i + 1];
    }
  }
}
