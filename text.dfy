/** Python's string primitives as the modelled scripts use them: `str.isspace`
    (which is also what the regular-expression class `\s` and a bare `strip()`
    treat as whitespace), `upper`, `lower`, `title`, `strip`, `replace` of one
    character, `endswith`, the substring test `in`, and the substitution
    `re.sub(r"\s{2,}", " ", s)`.

    Case mapping covers the ASCII letters, the Latin-1 letters U+00C0..U+00FF
    (every letter of Portuguese), the Latin-1 cased characters `ª`, `µ` and
    `º`, and the Greek mu pair `Μ`/`μ` that `µ` upper-cases into. `ß` keeps
    its form, and every other character is uncased and left unchanged. */
module Text {

  /** Python's `str.isspace` for one character. */
  predicate IsSpace(c: char) {
    || ('\t' <= c <= '\r')
    || ('\U{1C}' <= c <= '\U{1F}')
    || c == ' ' || c == '\U{85}' || c == '\U{A0}' || c == '\U{1680}'
    || ('\U{2000}' <= c <= '\U{200A}')
    || c == '\U{2028}' || c == '\U{2029}' || c == '\U{202F}' || c == '\U{205F}' || c == '\U{3000}'
  }

  predicate IsUpperLetter(c: char) {
    ('A' <= c <= 'Z') || ('\U{C0}' <= c <= '\U{DE}' && c != '\U{D7}') || c == '\U{178}' || c == '\U{39C}'
  }

  /** Lower-case letters, with the ordinal indicators `ª` and `º`, which
      Python counts as cased although no case mapping changes them. */
  predicate IsLowerLetter(c: char) {
    || ('a' <= c <= 'z') || ('\U{DF}' <= c <= '\U{FF}' && c != '\U{F7}')
    || c == '\U{AA}' || c == '\U{B5}' || c == '\U{BA}' || c == '\U{3BC}'
  }

  /** A letter that has case: `title` starts a new word after any other character. */
  predicate IsCased(c: char) {
    IsUpperLetter(c) || IsLowerLetter(c)
  }

  function UpperChar(c: char): char {
    if ('a' <= c <= 'z') || ('\U{E0}' <= c <= '\U{FE}' && c != '\U{F7}') then (c as int - 32) as char
    else if c == '\U{FF}' then '\U{178}'
    else if c == '\U{B5}' || c == '\U{3BC}' then '\U{39C}'
    else c
  }

  function LowerChar(c: char): char {
    if ('A' <= c <= 'Z') || ('\U{C0}' <= c <= '\U{DE}' && c != '\U{D7}') then (c as int + 32) as char
    else if c == '\U{178}' then '\U{FF}'
    else if c == '\U{39C}' then '\U{3BC}'
    else c
  }

  /** How the case mappings interact: each is idempotent, upper-casing
      forgets an earlier lower-casing, and neither changes whether a
      character is a space or a cased letter. */
  lemma CaseCharFacts(c: char)
    ensures UpperChar(UpperChar(c)) == UpperChar(c)
    ensures LowerChar(LowerChar(c)) == LowerChar(c)
    ensures UpperChar(LowerChar(c)) == UpperChar(c)
    ensures IsCased(UpperChar(c)) == IsCased(c) && IsCased(LowerChar(c)) == IsCased(c)
    ensures IsSpace(UpperChar(c)) == IsSpace(c) && IsSpace(LowerChar(c)) == IsSpace(c)
    ensures IsSpace(c) ==> !IsCased(c)
  {
  }

  /** `s.upper()` */
  function Upper(s: string): string {
    seq(|s|, i requires 0 <= i < |s| => UpperChar(s[i]))
  }

  /** `s.lower()` */
  function Lower(s: string): string {
    seq(|s|, i requires 0 <= i < |s| => LowerChar(s[i]))
  }

  /** `s.replace(a, b)` for one-character `a` and `b`. */
  function ReplaceChar(s: string, a: char, b: char): (r: string)
    ensures |r| == |s|
    ensures a != b ==> a !in r
    ensures forall i :: 0 <= i < |s| && s[i] != a ==> r[i] == s[i]
  {
    seq(|s|, i requires 0 <= i < |s| => if s[i] == a then b else s[i])
  }

  /** Replacing `a` by `b` adds no character other than `b`. */
  lemma ReplaceCharKeepsAbsent(s: string, a: char, b: char, c: char)
    requires c != b && c !in s
    ensures c !in ReplaceChar(s, a, b)
  {
    var r := ReplaceChar(s, a, b);
    forall i | 0 <= i < |r| ensures r[i] != c {
      assert s[i] in s;
    }
  }

  /** `s.endswith(suffix)` */
  predicate EndsWith(s: string, suffix: string) {
    |suffix| <= |s| && s[|s| - |suffix|..] == suffix
  }

  /** A string ending with `b`, where `b` ends with `c`, ends with `c`. */
  lemma EndsWithTransitive(a: string, b: string, c: string)
    requires EndsWith(a, b) && EndsWith(b, c)
    ensures EndsWith(a, c)
  {
    assert a[|a| - |c|..] == a[|a| - |b|..][|b| - |c|..];
  }

  // ---------------------------------------------------------------------
  // title()
  // ---------------------------------------------------------------------

  /** `title()` continued from a position whose previous character was cased
      (`prevCased`) or not: a cased character after a cased one is lowered,
      any other is upper-cased. */
  function TitleFrom(s: string, prevCased: bool): (r: string)
    ensures |r| == |s|
    decreases |s|
  {
    if s == [] then []
    else [if prevCased then LowerChar(s[0]) else UpperChar(s[0])] + TitleFrom(s[1..], IsCased(s[0]))
  }

  /** Title-casing changes only the case of cased characters: each character
      keeps its upper-case form, whether it is whitespace and whether it is
      cased, and an uncased character is kept as it is. */
  lemma {:induction false} TitleFromChars(s: string, p: bool)
    ensures forall i :: 0 <= i < |s| ==> UpperChar(TitleFrom(s, p)[i]) == UpperChar(s[i])
    ensures forall i :: 0 <= i < |s| ==>
      IsSpace(TitleFrom(s, p)[i]) == IsSpace(s[i]) && IsCased(TitleFrom(s, p)[i]) == IsCased(s[i])
    ensures forall i :: 0 <= i < |s| && !IsCased(s[i]) ==> TitleFrom(s, p)[i] == s[i]
    decreases |s|
  {
    if s != [] {
      var r := TitleFrom(s, p);
      CaseCharFacts(s[0]);
      TitleFromChars(s[1..], IsCased(s[0]));
      forall i | 1 <= i < |s| ensures r[i] == TitleFrom(s[1..], IsCased(s[0]))[i - 1] && s[i] == s[1..][i - 1] {
      }
    }
  }

  /** `s.title()` */
  function Title(s: string): string {
    TitleFrom(s, false)
  }

  /** Title-casing only changes case: upper-casing afterwards gives what
      upper-casing the original gives. */
  lemma UpperOfTitle(s: string)
    ensures Upper(Title(s)) == Upper(s)
  {
    TitleFromChars(s, false);
  }

  lemma {:induction false} TitleFromSuffix(s: string, p: bool, k: nat)
    requires k <= |s|
    ensures TitleFrom(s, p)[k..] == TitleFrom(s[k..], if k == 0 then p else IsCased(s[k - 1]))
    decreases k
  {
    if k > 0 {
      TitleFromSuffix(s[1..], IsCased(s[0]), k - 1);
      assert s[1..][k - 1..] == s[k..];
      if k > 1 {
        assert s[1..][k - 2] == s[k - 1];
      }
    }
  }

  lemma {:induction false} TitleFromPrefix(s: string, p: bool, k: nat)
    requires k <= |s|
    ensures TitleFrom(s, p)[..k] == TitleFrom(s[..k], p)
    decreases k
  {
    if k > 0 {
      TitleFromPrefix(s[1..], IsCased(s[0]), k - 1);
      assert s[..k][1..] == s[1..][..k - 1];
    }
  }

  /** `title()` is idempotent. */
  lemma {:induction false} TitleFromIdempotent(s: string, p: bool)
    ensures TitleFrom(TitleFrom(s, p), p) == TitleFrom(s, p)
    decreases |s|
  {
    if s != [] {
      var r := TitleFrom(s, p);
      CaseCharFacts(s[0]);
      assert r[1..] == TitleFrom(s[1..], IsCased(s[0]));
      TitleFromIdempotent(s[1..], IsCased(s[0]));
    }
  }

  // ---------------------------------------------------------------------
  // strip()
  // ---------------------------------------------------------------------

  /** Number of whitespace characters that start `s` (`SpacesAround` says
      they are all whitespace). */
  function LeadingSpaces(s: string): (k: nat)
    ensures k <= |s|
    ensures k < |s| ==> !IsSpace(s[k])
    decreases |s|
  {
    if s != [] && IsSpace(s[0]) then 1 + LeadingSpaces(s[1..]) else 0
  }

  /** Index where the whitespace that ends `s` begins. */
  function TrailingStart(s: string): (k: nat)
    ensures k <= |s|
    ensures 0 < k ==> !IsSpace(s[k - 1])
    decreases |s|
  {
    if s != [] && IsSpace(s[|s| - 1]) then TrailingStart(s[..|s| - 1]) else |s|
  }

  /** What `LeadingSpaces` counts is whitespace. */
  lemma {:induction false} LeadingAreSpaces(s: string)
    ensures forall i :: 0 <= i < LeadingSpaces(s) ==> IsSpace(s[i])
    decreases |s|
  {
    if s != [] && IsSpace(s[0]) {
      var t := s[1..];
      LeadingAreSpaces(t);
      forall i | 1 <= i < LeadingSpaces(s) ensures IsSpace(s[i]) {
        assert s[i] == t[i - 1];
      }
    }
  }

  /** What follows `TrailingStart` is whitespace. */
  lemma {:induction false} TrailingAreSpaces(s: string)
    ensures forall i :: TrailingStart(s) <= i < |s| ==> IsSpace(s[i])
    decreases |s|
  {
    if s != [] && IsSpace(s[|s| - 1]) {
      var t := s[..|s| - 1];
      TrailingAreSpaces(t);
      forall i | TrailingStart(s) <= i < |s| - 1 ensures IsSpace(s[i]) {
        assert s[i] == t[i];
      }
    }
  }

  /** What `LeadingSpaces` and `TrailingStart` count is whitespace. */
  lemma SpacesAround(s: string)
    ensures forall i :: 0 <= i < LeadingSpaces(s) ==> IsSpace(s[i])
    ensures forall i :: TrailingStart(s) <= i < |s| ==> IsSpace(s[i])
  {
    LeadingAreSpaces(s);
    TrailingAreSpaces(s);
  }

  /** `s.strip()`: neither starts nor ends with whitespace (`StripSlice`
      says which slice of `s` it is). */
  function Strip(s: string): (r: string)
    ensures r == [] || (!IsSpace(r[0]) && !IsSpace(r[|r| - 1]))
  {
    var a, b := LeadingSpaces(s), TrailingStart(s);
    if b <= a then [] else s[a..b]
  }

  /** `strip()` keeps the slice of `s` between its leading and its trailing
      whitespace. */
  lemma StripSlice(s: string)
    ensures LeadingSpaces(s) + |Strip(s)| <= |s|
    ensures Strip(s) == s[LeadingSpaces(s)..LeadingSpaces(s) + |Strip(s)|]
    ensures forall i :: 0 <= i < LeadingSpaces(s) ==> IsSpace(s[i])
    ensures forall i :: LeadingSpaces(s) + |Strip(s)| <= i < |s| ==> IsSpace(s[i])
  {
    SpacesAround(s);
  }

  /** A string with no whitespace at either end is its own `strip()`. */
  lemma StripTrimmed(s: string)
    requires s == [] || (!IsSpace(s[0]) && !IsSpace(s[|s| - 1]))
    ensures Strip(s) == s
  {
    assert s[0..|s|] == s;
  }

  /** Stripping shortens a string and adds no character to it. */
  lemma StripKeepsAbsent(s: string, c: char)
    requires c !in s
    ensures c !in Strip(s) && |Strip(s)| <= |s|
  {
    StripSlice(s);
    var r, l := Strip(s), LeadingSpaces(s);
    forall i | 0 <= i < |r| ensures r[i] != c {
      assert r[i] == s[l + i];
    }
  }

  /** `strip()` is idempotent. */
  lemma StripIdempotent(s: string)
    ensures Strip(Strip(s)) == Strip(s)
  {
    StripTrimmed(Strip(s));
  }

  /** Strings with whitespace in the same places strip at the same places. */
  lemma SameSpacesStrip(s: string, t: string)
    requires |s| == |t|
    requires forall i :: 0 <= i < |s| ==> IsSpace(s[i]) == IsSpace(t[i])
    ensures LeadingSpaces(s) == LeadingSpaces(t) && TrailingStart(s) == TrailingStart(t)
  {
    SpacesAround(s);
    SpacesAround(t);
  }

  /** Upper-casing maps whitespace to whitespace and nothing else to it. */
  lemma UpperKeepsSpaces(s: string)
    ensures |Upper(s)| == |s|
    ensures forall i :: 0 <= i < |s| ==> IsSpace(s[i]) == IsSpace(Upper(s)[i])
  {
    forall i | 0 <= i < |s| ensures IsSpace(s[i]) == IsSpace(Upper(s)[i]) {
      CaseCharFacts(s[i]);
    }
  }

  /** Upper-casing a slice is slicing the upper-cased string. */
  lemma UpperSlice(s: string, a: int, b: int)
    requires 0 <= a <= b <= |s|
    ensures Upper(s[a..b]) == Upper(s)[a..b]
  {
    forall i | 0 <= i < b - a ensures Upper(s[a..b])[i] == Upper(s)[a..b][i] {
      assert s[a..b][i] == s[a + i];
    }
  }

  /** Upper-casing and stripping commute, since upper-casing maps spaces to
      spaces and nothing else to a space. */
  lemma UpperStrip(s: string)
    ensures Upper(Strip(s)) == Strip(Upper(s))
  {
    UpperKeepsSpaces(s);
    SameSpacesStrip(s, Upper(s));
    var a, b := LeadingSpaces(s), TrailingStart(s);
    if a < b {
      UpperSlice(s, a, b);
    }
  }

  lemma {:induction false} UpperIdempotent(s: string)
    ensures Upper(Upper(s)) == Upper(s)
  {
    forall i | 0 <= i < |s| ensures Upper(Upper(s))[i] == Upper(s)[i] {
      CaseCharFacts(s[i]);
    }
  }

  // ---------------------------------------------------------------------
  // Substrings: Python's `w in s`
  // ---------------------------------------------------------------------

  predicate OccursAt(s: string, w: string, i: int) {
    0 <= i && i + |w| <= |s| && s[i..i + |w|] == w
  }

  /** `w in s` */
  predicate Contains(s: string, w: string) {
    exists i :: 0 <= i <= |s| - |w| && OccursAt(s, w, i)
  }

  lemma ContainsPrefix(s: string, w: string)
    requires |w| <= |s| && s[..|w|] == w
    ensures Contains(s, w)
  {
    assert OccursAt(s, w, 0);
  }

  /** A substring of a substring is a substring. */
  lemma ContainsTransitive(s: string, a: string, b: string)
    requires Contains(s, a) && Contains(a, b)
    ensures Contains(s, b)
  {
    var i :| 0 <= i <= |s| - |a| && OccursAt(s, a, i);
    var j :| 0 <= j <= |a| - |b| && OccursAt(a, b, j);
    forall k | 0 <= k < |b| ensures s[i + j + k] == b[k] {
      assert s[i..i + |a|][j + k] == a[j + k];
      assert a[j..j + |b|][k] == b[k];
    }
    assert s[i + j..i + j + |b|] == b;
    assert OccursAt(s, b, i + j);
  }

  /** Upper-casing keeps an occurrence, upper-cased. */
  lemma ContainsUpper(s: string, w: string)
    requires Contains(s, w)
    ensures Contains(Upper(s), Upper(w))
  {
    var i :| 0 <= i <= |s| - |w| && OccursAt(s, w, i);
    assert Upper(s)[i..i + |w|] == Upper(w);
    assert OccursAt(Upper(s), Upper(w), i);
  }

  /** An occurrence that lies inside a slice is an occurrence in the slice. */
  lemma OccursInSlice(s: string, a: int, b: int, w: string, i: int)
    requires 0 <= a <= i && i + |w| <= b <= |s| && OccursAt(s, w, i)
    ensures OccursAt(s[a..b], w, i - a)
  {
    forall k | 0 <= k < |w| ensures s[a..b][i - a + k] == w[k] {
      assert s[i..i + |w|][k] == w[k];
    }
    assert s[a..b][i - a..i - a + |w|] == w;
  }

  /** An occurrence of a word that neither starts nor ends with whitespace
      lies inside any slice that cuts off only whitespace. */
  lemma OccursInTrimmedSlice(s: string, a: int, b: int, r: string, w: string, i: int)
    requires 0 <= a <= b <= |s| && r == s[a..b] && OccursAt(s, w, i)
    requires w != [] && !IsSpace(w[0]) && !IsSpace(w[|w| - 1])
    requires forall j :: 0 <= j < a ==> IsSpace(s[j])
    requires forall j :: b <= j < |s| ==> IsSpace(s[j])
    ensures Contains(r, w)
  {
    assert s[i..i + |w|][0] == w[0] && s[i..i + |w|][|w| - 1] == w[|w| - 1];
    assert !IsSpace(s[i]) && !IsSpace(s[i + |w| - 1]);
    OccursInSlice(s, a, b, w, i);
    assert OccursAt(r, w, i - a);
  }

  /** `strip()` keeps every occurrence of a word that neither starts nor
      ends with whitespace. */
  lemma ContainsStrip(s: string, w: string)
    requires Contains(s, w)
    requires w != [] && !IsSpace(w[0]) && !IsSpace(w[|w| - 1])
    ensures Contains(Strip(s), w)
  {
    var i :| 0 <= i <= |s| - |w| && OccursAt(s, w, i);
    var r, a := Strip(s), LeadingSpaces(s);
    StripSlice(s);
    OccursInTrimmedSlice(s, a, a + |r|, r, w, i);
  }

  // ---------------------------------------------------------------------
  // re.sub(r"\s{2,}", " ", s)
  // ---------------------------------------------------------------------

  /** Positions `i - 1` and `i` both hold whitespace. */
  predicate SpacePairAt(s: string, i: int) {
    0 < i < |s| && IsSpace(s[i - 1]) && IsSpace(s[i])
  }

  /** No two whitespace characters are next to each other. */
  predicate NoAdjacentSpaces(s: string) {
    forall i :: 0 < i < |s| ==> !SpacePairAt(s, i)
  }

  /** `re.sub(r"\s{2,}", " ", s)`: every maximal run of two or more
      whitespace characters becomes one space; a lone whitespace character
      stays as it is. */
  function CollapseSpaces(s: string): (r: string)
    ensures |r| <= |s|
    ensures r == [] <==> s == []
    decreases |s|
  {
    if s == [] then []
    else if !IsSpace(s[0]) then [s[0]] + CollapseSpaces(s[1..])
    else
      var k := LeadingSpaces(s);
      (if k >= 2 then " " else [s[0]]) + CollapseSpaces(s[k..])
  }

  /** Collapsing leaves no two whitespace characters in a row, and the
      result starts with whitespace exactly when the input does. */
  lemma {:induction false} CollapseSpacesShape(s: string)
    ensures var r := CollapseSpaces(s);
      (r != [] ==> IsSpace(r[0]) == IsSpace(s[0])) && NoAdjacentSpaces(r)
    decreases |s|
  {
    if s != [] {
      var k := if IsSpace(s[0]) then LeadingSpaces(s) else 1;
      var h := if IsSpace(s[0]) && k >= 2 then " " else [s[0]];
      var c := CollapseSpaces(s[k..]);
      var r := CollapseSpaces(s);
      CollapseSpacesShape(s[k..]);
      assert r == h + c;
      assert c != [] ==> IsSpace(c[0]) == IsSpace(s[k]);
      forall i | 0 < i < |r| ensures !SpacePairAt(r, i) {
        if 2 <= i {
          assert r[i - 1] == c[i - 2] && r[i] == c[i - 1];
          assert !SpacePairAt(c, i - 1);
        } else {
          assert r[1] == c[0];
        }
      }
    }
  }

  /** Collapsing brings in no character other than a space. */
  lemma {:induction false} CollapseSpacesChars(s: string, c: char)
    requires c != ' ' && c !in s
    ensures c !in CollapseSpaces(s)
    decreases |s|
  {
    if s != [] {
      var k := if IsSpace(s[0]) then LeadingSpaces(s) else 1;
      assert c !in s[k..];
      CollapseSpacesChars(s[k..], c);
    }
  }

  /** A slice of a string without adjacent whitespace has none either. */
  lemma NoAdjacentSpacesSlice(s: string, i: nat, j: nat)
    requires i <= j <= |s| && NoAdjacentSpaces(s)
    ensures NoAdjacentSpaces(s[i..j])
  {
    forall k | 0 < k < j - i ensures !SpacePairAt(s[i..j], k) {
      assert s[i..j][k - 1] == s[i + k - 1] && s[i..j][k] == s[i + k];
      assert !SpacePairAt(s, i + k);
    }
  }

  /** The first character passes through unchanged when it is not the start
      of a run of two or more whitespace characters. */
  lemma CollapseSpacesCons(s: string)
    requires s != [] && (IsSpace(s[0]) && |s| > 1 ==> !IsSpace(s[1]))
    ensures CollapseSpaces(s) == [s[0]] + CollapseSpaces(s[1..])
  {
    if IsSpace(s[0]) {
      assert LeadingSpaces(s[1..]) == 0 by {
        assert |s| > 1 ==> s[1..][0] == s[1];
      }
    }
  }

  /** A string without adjacent whitespace is left as it is. */
  lemma {:induction false} CollapseSpacesNoop(s: string)
    requires NoAdjacentSpaces(s)
    ensures CollapseSpaces(s) == s
    decreases |s|
  {
    if s != [] {
      assert !SpacePairAt(s, 1);
      CollapseSpacesCons(s);
      NoAdjacentSpacesSlice(s, 1, |s|);
      assert s[1..|s|] == s[1..];
      CollapseSpacesNoop(s[1..]);
    }
  }

  /** Collapsing keeps a first character that does not start a run of
      whitespace, whatever follows. */
  lemma CollapseSpacesConsAppend(p: string, t: string)
    requires p != [] && (!IsSpace(p[0]) || (|p| > 1 && !IsSpace(p[1])))
    ensures CollapseSpaces(p + t) == [p[0]] + CollapseSpaces(p[1..] + t)
  {
    var s := p + t;
    assert s[0] == p[0] && s[1..] == p[1..] + t;
    if |p| > 1 {
      assert s[1] == p[1];
    }
    CollapseSpacesCons(s);
  }

  /** `a == [p[0]] + b` and `b == p[1..] + x` give `a == p + x`. */
  lemma ConsStep(a: string, b: string, p: string, x: string)
    requires p != [] && a == [p[0]] + b && b == p[1..] + x
    ensures a == p + x
  {
    assert [p[0]] + p[1..] == p;
  }

  /** A prefix without adjacent whitespace that ends in a non-space passes
      through unchanged, whatever follows it. */
  lemma {:induction false} CollapseSpacesPrefix(p: string, t: string)
    requires p != [] && NoAdjacentSpaces(p) && !IsSpace(p[|p| - 1])
    ensures CollapseSpaces(p + t) == p + CollapseSpaces(t)
    decreases |p|
  {
    var q := p[1..];
    if |p| > 1 {
      NoAdjacentSpacesSlice(p, 1, |p|);
      assert p[1..|p|] == q;
      CollapseSpacesPrefix(q, t);
      assert !SpacePairAt(p, 1);
    } else {
      assert q + t == t && q + CollapseSpaces(t) == CollapseSpaces(t);
    }
    CollapseSpacesConsAppend(p, t);
    ConsStep(CollapseSpaces(p + t), CollapseSpaces(q + t), p, CollapseSpaces(t));
  }
}
