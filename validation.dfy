/**
 * Input validation shared by the admin forms and the contact form: the slug pattern
 * `^[a-z0-9]+(?:-[a-z0-9]+)*$`, the e-mail pattern `^[^\s@]+@[^\s@]+\.[^\s@]+$`, the
 * comma-separated features list and the `parseInt(...) || null` / `x || null` coercions.
 * Each pattern is a hand-written left-to-right recogniser, proved equal to a structural
 * description of the strings it accepts.
 */
module Validation {
  import opened Wrappers
  import opened Text

  // ---------------------------------------------------------------------------
  // Slugs: ^[a-z0-9]+(?:-[a-z0-9]+)*$
  // ---------------------------------------------------------------------------

  /** The character class `[a-z0-9]`. */
  predicate IsSlugChar(c: char) {
    ('a' <= c <= 'z') || ('0' <= c <= '9')
  }

  /** The recogniser's state is `inWord`: the current hyphen-separated segment already
      has a character, so the input may end here or continue with `-`. */
  predicate SlugRun(s: string, inWord: bool)
    decreases |s|
  {
    if s == [] then inWord
    else if IsSlugChar(s[0]) then SlugRun(s[1..], true)
    else if s[0] == '-' && inWord then SlugRun(s[1..], false)
    else false
  }

  /** `/^[a-z0-9]+(?:-[a-z0-9]+)*$/.test(s)`. */
  predicate IsSlug(s: string) {
    SlugRun(s, false)
  }

  /** Every character is in `[a-z0-9-]`. */
  predicate SlugAlphabet(s: string) {
    forall i :: 0 <= i < |s| ==> IsSlugChar(s[i]) || s[i] == '-'
  }

  /** No two adjacent hyphens. */
  predicate NoDoubleHyphen(s: string) {
    forall i :: 0 <= i < |s| - 1 ==> !(s[i] == '-' && s[i + 1] == '-')
  }

  /** The structural description of a slug: non-empty, only `a-z0-9-`, no hyphen at
      either end and no `--`. */
  predicate SlugShape(s: string) {
    && s != []
    && SlugAlphabet(s)
    && s[0] != '-'
    && s[|s| - 1] != '-'
    && NoDoubleHyphen(s)
  }

  lemma {:induction false} SlugRunShape(s: string, inWord: bool)
    ensures SlugRun(s, inWord) <==>
      && (s == [] ==> inWord)
      && SlugAlphabet(s)
      && NoDoubleHyphen(s)
      && (s != [] ==> s[|s| - 1] != '-')
      && (s != [] && s[0] == '-' ==> inWord)
    decreases |s|
  {
    if s != [] {
      SlugRunShape(s[1..], IsSlugChar(s[0]));
      var t := s[1..];
      assert SlugAlphabet(s) <==> (IsSlugChar(s[0]) || s[0] == '-') && SlugAlphabet(t) by {
        assert forall i :: 0 < i < |s| ==> s[i] == t[i - 1];
      }
      assert NoDoubleHyphen(s) <==> (t != [] ==> !(s[0] == '-' && t[0] == '-')) && NoDoubleHyphen(t) by {
        assert forall i :: 0 < i < |s| ==> s[i] == t[i - 1];
      }
      if t != [] {
        assert s[|s| - 1] == t[|t| - 1];
      }
    }
  }

  /** A string passes the slug pattern exactly when it has the slug shape. */
  lemma SlugCharacterisation(s: string)
    ensures IsSlug(s) <==> SlugShape(s)
  {
    SlugRunShape(s, false);
  }

  /** A non-empty run of `[a-z0-9]`: one segment of a slug. */
  predicate IsSlugWord(w: string) {
    w != [] && forall i :: 0 <= i < |w| ==> IsSlugChar(w[i])
  }

  /** The hyphen-separated segments of a run: every character of the first segment is
      in `[a-z0-9]`, and it is non-empty unless the run started inside a word; every
      later segment is a slug word. */
  predicate SegmentsShape(ps: seq<string>, inWord: bool)
    requires |ps| >= 1
  {
    && (inWord || ps[0] != [])
    && (forall i :: 0 <= i < |ps[0]| ==> IsSlugChar(ps[0][i]))
    && (forall k :: 1 <= k < |ps| ==> IsSlugWord(ps[k]))
  }

  lemma {:induction false} SlugRunWords(s: string, inWord: bool)
    ensures SlugRun(s, inWord) <==> SegmentsShape(Split(s, '-'), inWord)
    decreases |s|
  {
    if s != [] {
      var rest := Split(s[1..], '-');
      SlugRunWords(s[1..], IsSlugChar(s[0]));
      if s[0] == '-' {
        assert Split(s, '-') == [[]] + rest;
        HyphenSegments(rest, inWord);
      } else {
        assert Split(s, '-') == [[s[0]] + rest[0]] + rest[1..];
        CharSegments(s[0], rest, inWord);
      }
    }
  }

  /** Segments after a leading hyphen. */
  lemma HyphenSegments(rest: seq<string>, inWord: bool)
    requires |rest| >= 1
    ensures SegmentsShape([[]] + rest, inWord) <==> inWord && SegmentsShape(rest, false)
  {
    var ps := [[]] + rest;
    assert ps[0] == [];
    if SegmentsShape(ps, inWord) {
      assert IsSlugWord(ps[1]) && ps[1] == rest[0];
      forall k | 1 <= k < |rest| ensures IsSlugWord(rest[k]) {
        assert ps[k + 1] == rest[k];
      }
    }
    if inWord && SegmentsShape(rest, false) {
      forall k | 1 <= k < |ps| ensures IsSlugWord(ps[k]) {
        assert ps[k] == rest[k - 1];
      }
    }
  }

  /** Segments after a leading character other than a hyphen. */
  lemma CharSegments(c: char, rest: seq<string>, inWord: bool)
    requires |rest| >= 1
    ensures SegmentsShape([[c] + rest[0]] + rest[1..], inWord) <==> IsSlugChar(c) && SegmentsShape(rest, true)
  {
    var ps := [[c] + rest[0]] + rest[1..];
    var w := ps[0];
    assert w == [c] + rest[0];
    assert forall k :: 1 <= k < |ps| ==> ps[k] == rest[k];
    if forall i :: 0 <= i < |w| ==> IsSlugChar(w[i]) {
      assert w[0] == c;
      forall i | 0 <= i < |rest[0]| ensures IsSlugChar(rest[0][i]) {
        assert w[i + 1] == rest[0][i];
      }
    }
    if IsSlugChar(c) && forall i :: 0 <= i < |rest[0]| ==> IsSlugChar(rest[0][i]) {
      forall i | 0 <= i < |w| ensures IsSlugChar(w[i]) {
        if i > 0 {
          assert w[i] == rest[0][i - 1];
        }
      }
    }
  }

  /** A string passes the slug pattern exactly when every one of its hyphen-separated
      segments is a non-empty run of `[a-z0-9]`. */
  lemma SlugWords(s: string)
    ensures IsSlug(s) <==> forall k :: 0 <= k < |Split(s, '-')| ==> IsSlugWord(Split(s, '-')[k])
  {
    SlugRunWords(s, false);
    var ps := Split(s, '-');
    assert SegmentsShape(ps, false) <==> IsSlugWord(ps[0]) && forall k :: 1 <= k < |ps| ==> IsSlugWord(ps[k]);
  }

  /** Joining non-empty `[a-z0-9]` words with hyphens always yields a valid slug. */
  lemma JoinedWordsAreSlug(words: seq<string>)
    requires |words| >= 1
    requires forall k :: 0 <= k < |words| ==> IsSlugWord(words[k])
    ensures IsSlug(Join(words, "-"))
  {
    forall k | 0 <= k < |words| ensures '-' !in words[k] {
      assert forall i :: 0 <= i < |words[k]| ==> words[k][i] != '-';
    }
    SplitJoin(words, '-');
    SlugWords(Join(words, "-"));
  }

  // ---------------------------------------------------------------------------
  // E-mail addresses: ^[^\s@]+@[^\s@]+\.[^\s@]+$
  // ---------------------------------------------------------------------------

  /** The character class `[^\s@]`. */
  predicate IsEmailChar(c: char) {
    !IsWhitespace(c) && c != '@'
  }

  predicate AllEmailChars(s: string) {
    forall i :: 0 <= i < |s| ==> IsEmailChar(s[i])
  }

  /** A `.` that is neither the first nor the last character. */
  predicate HasInnerDot(d: string) {
    exists i :: 0 < i < |d| - 1 && d[i] == '.'
  }

  /** Recogniser for the domain part `[^\s@]+\.[^\s@]+`. States: 0 nothing read yet;
      1 inside the first run; 2 just read a dot that follows the first run; 3 at least
      one character after such a dot (accepting). */
  function DomainStep(state: nat, c: char): nat {
    if state == 0 then 1
    else if state == 1 then (if c == '.' then 2 else 1)
    else 3
  }

  predicate DomainRun(d: string, state: nat)
    decreases |d|
  {
    if d == [] then state == 3
    else IsEmailChar(d[0]) && DomainRun(d[1..], DomainStep(state, d[0]))
  }

  /** Recogniser for the local part `[^\s@]+` followed by `@` and the domain. */
  predicate LocalRun(s: string, seen: bool)
    decreases |s|
  {
    if s == [] then false
    else if s[0] == '@' then seen && DomainRun(s[1..], 0)
    else IsEmailChar(s[0]) && LocalRun(s[1..], true)
  }

  /** `/^[^\s@]+@[^\s@]+\.[^\s@]+$/.test(s)`. */
  predicate IsEmail(s: string) {
    LocalRun(s, false)
  }

  /** The `@` at index `k` splits `s` into a local part and a domain that contain no
      white space and no other `@`, and the domain has a dot that is neither its first
      nor its last character. */
  predicate SplitsAt(s: string, k: int) {
    && 0 <= k < |s|
    && s[k] == '@'
    && AllEmailChars(s[..k])
    && AllEmailChars(s[k + 1..])
    && HasInnerDot(s[k + 1..])
  }

  /** The structural description of an accepted address: it splits at an `@` that is
      not its first character. */
  ghost predicate EmailShape(s: string) {
    exists k :: k > 0 && SplitsAt(s, k)
  }

  lemma AllEmailCharsTail(d: string)
    requires d != []
    ensures AllEmailChars(d) <==> IsEmailChar(d[0]) && AllEmailChars(d[1..])
  {
    assert forall i :: 0 < i < |d| ==> d[i] == d[1..][i - 1];
  }

  lemma {:induction false} DomainAccepting(d: string)
    ensures DomainRun(d, 3) <==> AllEmailChars(d)
    decreases |d|
  {
    if d != [] {
      DomainAccepting(d[1..]);
      AllEmailCharsTail(d);
    }
  }

  lemma DomainAfterDot(d: string)
    ensures DomainRun(d, 2) <==> d != [] && AllEmailChars(d)
  {
    if d != [] {
      DomainAccepting(d[1..]);
      AllEmailCharsTail(d);
    }
  }

  lemma {:induction false} DomainInFirstRun(d: string)
    ensures DomainRun(d, 1) <==> AllEmailChars(d) && exists i :: 0 <= i < |d| - 1 && d[i] == '.'
    decreases |d|
  {
    if d != [] {
      AllEmailCharsTail(d);
      var t := d[1..];
      if d[0] == '.' {
        DomainAfterDot(t);
        if AllEmailChars(d) && |d| > 1 {
          assert 0 <= 0 < |d| - 1 && d[0] == '.';
        }
      } else {
        DomainInFirstRun(t);
        if exists i :: 0 <= i < |d| - 1 && d[i] == '.' {
          var i :| 0 <= i < |d| - 1 && d[i] == '.';
          assert 0 <= i - 1 < |t| - 1 && t[i - 1] == '.';
        }
        if exists i :: 0 <= i < |t| - 1 && t[i] == '.' {
          var i :| 0 <= i < |t| - 1 && t[i] == '.';
          assert d[i + 1] == '.';
        }
      }
    }
  }

  /** The domain recogniser accepts exactly the domains of the structural description. */
  lemma DomainCharacterisation(d: string)
    ensures DomainRun(d, 0) <==> AllEmailChars(d) && HasInnerDot(d)
  {
    if d != [] {
      AllEmailCharsTail(d);
      var t := d[1..];
      DomainInFirstRun(t);
      if HasInnerDot(d) {
        var i :| 0 < i < |d| - 1 && d[i] == '.';
        assert 0 <= i - 1 < |t| - 1 && t[i - 1] == '.';
      }
      if exists i :: 0 <= i < |t| - 1 && t[i] == '.' {
        var i :| 0 <= i < |t| - 1 && t[i] == '.';
        assert d[i + 1] == '.';
      }
    }
  }

  /** Splitting after a leading `[^\s@]` character is splitting the rest. */
  lemma SplitsAtShift(s: string, k: int)
    requires s != [] && k > 0
    ensures SplitsAt(s, k) <==> IsEmailChar(s[0]) && SplitsAt(s[1..], k - 1)
  {
    var t := s[1..];
    if 0 <= k < |s| {
      AllEmailCharsTail(s[..k]);
      assert s[..k][1..] == t[..k - 1];
      assert s[..k][0] == s[0];
      assert t[k - 1 + 1..] == s[k + 1..];
    }
  }

  lemma {:induction false} LocalRunShape(s: string, seen: bool)
    ensures LocalRun(s, seen) <==> exists k :: (seen || k > 0) && SplitsAt(s, k)
    decreases |s|
  {
    if s != [] {
      var t := s[1..];
      if s[0] == '@' {
        DomainCharacterisation(t);
        assert s[..0] == [] && s[0 + 1..] == t;
        if seen && DomainRun(t, 0) {
          assert SplitsAt(s, 0);
        }
        if exists k :: (seen || k > 0) && SplitsAt(s, k) {
          var k :| (seen || k > 0) && SplitsAt(s, k);
          assert k == 0;
        }
      } else {
        LocalRunShape(t, true);
        if exists k :: (seen || k > 0) && SplitsAt(s, k) {
          var k :| (seen || k > 0) && SplitsAt(s, k);
          assert k != 0;
          SplitsAtShift(s, k);
        }
        if IsEmailChar(s[0]) && exists k :: SplitsAt(t, k) {
          var k :| SplitsAt(t, k);
          SplitsAtShift(s, k + 1);
        }
      }
    }
  }

  /** A string passes the e-mail pattern exactly when it has the structural shape. */
  lemma EmailCharacterisation(s: string)
    ensures IsEmail(s) <==> EmailShape(s)
  {
    LocalRunShape(s, false);
  }

  /** Consequences spelled out: an accepted address has no white space, exactly one
      `@`, a non-empty local part, and a domain with an inner dot. */
  lemma EmailConsequences(s: string)
    requires IsEmail(s)
    ensures forall i :: 0 <= i < |s| ==> !IsWhitespace(s[i])
    ensures exists k :: (0 < k < |s| && s[k] == '@' && HasInnerDot(s[k + 1..])
                         && forall j :: 0 <= j < |s| && s[j] == '@' ==> j == k)
  {
    EmailCharacterisation(s);
    var k :| k > 0 && SplitsAt(s, k);
    forall j | 0 <= j < |s| && j != k ensures IsEmailChar(s[j]) {
      if j < k {
        assert s[j] == s[..k][j];
      } else {
        assert s[j] == s[k + 1..][j - k - 1];
      }
    }
  }

  // ---------------------------------------------------------------------------
  // Features: csv.split(',').map(f => f.trim()).filter(Boolean)
  // ---------------------------------------------------------------------------

  /** `map(f)` on strings. */
  function Map(xs: seq<string>, f: string -> string): (r: seq<string>)
    ensures |r| == |xs|
    ensures forall i :: 0 <= i < |r| ==> r[i] == f(xs[i])
  {
    seq(|xs|, i requires 0 <= i < |xs| => f(xs[i]))
  }

  lemma MapAppend(a: seq<string>, b: seq<string>, f: string -> string)
    ensures Map(a + b, f) == Map(a, f) + Map(b, f)
  {
    var l, r := Map(a + b, f), Map(a, f) + Map(b, f);
    forall i | 0 <= i < |l| ensures l[i] == r[i] {
      if i < |a| {
        assert (a + b)[i] == a[i];
      } else {
        assert (a + b)[i] == b[i - |a|];
      }
    }
  }

  /** `filter(Boolean)` on strings: the non-empty ones, in order. */
  function NonEmpty(xs: seq<string>): (r: seq<string>)
    ensures |r| <= |xs|
    ensures forall x :: x in r <==> x in xs && x != []
  {
    if xs == [] then []
    else
      assert xs == [xs[0]] + xs[1..];
      (if xs[0] == [] then [] else [xs[0]]) + NonEmpty(xs[1..])
  }

  lemma {:induction false} NonEmptyAppend(a: seq<string>, b: seq<string>)
    ensures NonEmpty(a + b) == NonEmpty(a) + NonEmpty(b)
    decreases |a|
  {
    if a == [] {
      assert a + b == b;
    } else {
      assert (a + b)[0] == a[0];
      assert (a + b)[1..] == a[1..] + b;
      NonEmptyAppend(a[1..], b);
    }
  }

  /** The features list of the add-property form: the comma-separated pieces, trimmed,
      without the empty ones. */
  function ParseFeatures(csv: string): (r: seq<string>)
    ensures forall i :: 0 <= i < |r| ==> r[i] != [] && IsTrimmed(r[i]) && ',' !in r[i]
  {
    var pieces := Split(csv, ',');
    var r := NonEmpty(Map(pieces, Trim));
    forall i | 0 <= i < |r| ensures r[i] != [] && IsTrimmed(r[i]) && ',' !in r[i] {
      assert r[i] in r;
      var j :| 0 <= j < |pieces| && Map(pieces, Trim)[j] == r[i];
      TrimAvoids(pieces[j], ',');
    }
    r
  }

  /** An empty features field gives no features. */
  lemma ParseFeaturesEmpty()
    ensures ParseFeatures("") == []
  {
    assert Split("", ',') == [""];
    assert Map([""], Trim) == [Trim("")];
    assert Trim("") == "";
  }

  /** A single field without a comma contributes its trimmed text, unless that is empty. */
  lemma ParseFeaturesSingle(piece: string)
    requires ',' !in piece
    ensures ParseFeatures(piece) == if Trim(piece) == [] then [] else [Trim(piece)]
  {
    SplitPrefix(piece, [], ',');
    assert piece + [] == piece;
    assert Split(piece, ',') == [piece];
    assert Map([piece], Trim) == [Trim(piece)];
  }

  /** Features of fields joined by a comma are the features of each field, in order. */
  lemma ParseFeaturesConcat(a: string, b: string)
    ensures ParseFeatures(a + "," + b) == ParseFeatures(a) + ParseFeatures(b)
  {
    SplitConcat(a, b, ',');
    MapAppend(Split(a, ','), Split(b, ','), Trim);
    NonEmptyAppend(Map(Split(a, ','), Trim), Map(Split(b, ','), Trim));
  }

  /** Round trip: a list of non-empty, trimmed, comma-free features written out with
      commas is read back as the same list. */
  lemma {:induction false} ParseFeaturesJoin(fs: seq<string>)
    requires forall i :: 0 <= i < |fs| ==> fs[i] != [] && IsTrimmed(fs[i]) && ',' !in fs[i]
    ensures ParseFeatures(Join(fs, ",")) == fs
    decreases |fs|
  {
    if fs == [] {
      ParseFeaturesEmpty();
    } else if |fs| == 1 {
      calc {
        ParseFeatures(Join(fs, ","));
        { assert Join(fs, ",") == fs[0]; }
        ParseFeatures(fs[0]);
        { ParseFeaturesSingle(fs[0]); TrimTrimmed(fs[0]); }
        [fs[0]];
      }
    } else {
      var rest := Join(fs[1..], ",");
      forall i | 0 <= i < |fs[1..]|
        ensures fs[1..][i] != [] && IsTrimmed(fs[1..][i]) && ',' !in fs[1..][i]
      {
        assert fs[1..][i] == fs[i + 1];
      }
      calc {
        ParseFeatures(Join(fs, ","));
        { assert Join(fs, ",") == fs[0] + "," + rest; }
        ParseFeatures(fs[0] + "," + rest);
        { ParseFeaturesConcat(fs[0], rest); }
        ParseFeatures(fs[0]) + ParseFeatures(rest);
        { ParseFeaturesSingle(fs[0]); TrimTrimmed(fs[0]); ParseFeaturesJoin(fs[1..]); }
        [fs[0]] + fs[1..];
      }
      assert [fs[0]] + fs[1..] == fs;
    }
  }

  // ---------------------------------------------------------------------------
  // Coercions of form fields
  // ---------------------------------------------------------------------------

  /** A form field as text: an absent field reads as `""` (`field || ''`). */
  function FieldText(raw: Option<string>): string {
    raw.GetOr("")
  }

  /** A text value JavaScript treats as true: present and non-empty. */
  predicate Truthy(s: Option<string>) {
    s.Some? && s.value != []
  }

  /** `(field as string) || null`: absent or empty text becomes null. */
  function OptionalText(raw: Option<string>): (r: Option<string>)
    ensures r.Some? <==> FieldText(raw) != []
    ensures r.Some? ==> r.value == FieldText(raw)
  {
    if FieldText(raw) == [] then None else raw
  }

  /** `parseInt(field || '', 10) || null`: absent, unparsable and zero all become null,
      any other parsed value is kept. */
  function OptionalInt(raw: Option<string>): (r: Option<int>)
    ensures r.Some? ==> r.value != 0 && ParseInt(FieldText(raw)) == r
    ensures r.None? <==> ParseInt(FieldText(raw)).None? || ParseInt(FieldText(raw)) == Some(0)
  {
    match ParseInt(FieldText(raw))
    case Some(n) => if n == 0 then None else Some(n)
    case None => None
  }

  /** `parseInt(field || '0', 10)`: an absent or empty field reads as `"0"`. */
  function IntOrZero(raw: Option<string>): Option<int> {
    ParseInt(if FieldText(raw) == [] then "0" else FieldText(raw))
  }

  /** An absent or empty field therefore reads as zero. */
  lemma EmptyIntOrZero(raw: Option<string>)
    requires FieldText(raw) == []
    ensures IntOrZero(raw) == Some(0)
  {
    assert IntOrZero(raw) == ParseInt("0");
    ParseZero();
  }

  /** `parseFloat(field || '') || null` for coordinates, given the float parse (`None`
      for `NaN`): zero becomes null as well. */
  function OptionalCoordinate(parsed: Option<real>): (r: Option<real>)
    ensures r.Some? ==> r == parsed && r.value != 0.0
    ensures r.None? <==> parsed.None? || parsed == Some(0.0)
  {
    if parsed == Some(0.0) then None else parsed
  }
}
