/** The metadata cleaner (lapidar_metadata.py): extracting RPPS names from a
    document's text, and the pass over the metadata records that keeps only
    valid names, re-extracts when none survive and sets the canonical name.

    The regular-expression engine is a collaborator: `findAll(pattern, t)`
    stands for `re.findall(pattern, t)`, the list of matches of one of the
    five patterns in the upper-cased text. */
module LapidarMetadata {
  import opened Wrappers
  import opened Text
  import opened StrOrder
  import opened RppsNames

  /** The five patterns tried, in order, on the upper-cased text. */
  const RPPS_PATTERNS: seq<string> := [
    "\\bIPRE[A-Z]{2,}\\b",
    "\\bIPRES[A-Z]{2,}\\b",
    "\\bIPREM[A-Z]{2,}\\b",
    "\\b[A-Z\\s]{3,40} PREV\\b",
    "INSTITUTO DE PREVID[ÊE]NCIA[^\\n]{0,80}"
  ]

  /** `re.findall`: the matches of a pattern in a text. */
  type FindAll = (string, string) -> seq<string>

  // ---------------------------------------------------------------------
  // One candidate name
  // ---------------------------------------------------------------------

  /** What the cleaner does with every candidate, whether matched in a text
      or stored in a record: `normalizar` it, and keep the result only when
      `rpps_valido` accepts it. */
  function CleanName(raw: string): Option<string> {
    var nome := Normalizar(raw);
    if RppsValido(nome) then Some(nome) else None
  }

  /** A kept name is valid, already normalised and tidy. */
  lemma CleanNameClean(raw: string)
    requires CleanName(raw).Some?
    ensures var x := CleanName(raw).value; RppsValido(x) && Normalizar(x) == x && Tidy(x)
  {
    NormalizarIdempotent(raw);
    NormalizarTidy(raw);
  }

  /** The step both loops of the cleaner take on one candidate name: it is
      normalised and kept when valid. A kept name is valid, already
      normalised and tidy. */
  method CleanCandidate(raw: string) returns (r: Option<string>)
    ensures r == CleanName(raw)
    ensures r.Some? ==> RppsValido(r.value) && Normalizar(r.value) == r.value && Tidy(r.value)
  {
    var r2 := Normalizar(raw);
    if RppsValido(r2) {
      CleanNameClean(raw);
      r := Some(r2);
    } else {
      r := None;
    }
  }

  /** The specifications below are stated for any per-candidate step
      `clean`; the cleaner's own step is `CleanName`. */
  type Cleaner = string -> Option<string>

  // ---------------------------------------------------------------------
  // extract_rpps_from_text
  // ---------------------------------------------------------------------

  /** The names that cleaning some matches keeps. */
  function ValidNames(ms: seq<string>, clean: Cleaner): set<string>
    decreases |ms|
  {
    if ms == [] then {}
    else
      ValidNames(ms[..|ms| - 1], clean) +
      (match clean(ms[|ms| - 1]) case Some(nome) => {nome} case None => {})
  }

  /** The names that cleaning the matches of some patterns keeps. */
  function Found(ps: seq<string>, t: string, findAll: FindAll, clean: Cleaner): set<string>
    decreases |ps|
  {
    if ps == [] then {}
    else Found(ps[..|ps| - 1], t, findAll, clean) + ValidNames(findAll(ps[|ps| - 1], t), clean)
  }

  /** Extending the matches by one adds what cleaning that match keeps. */
  lemma ValidNamesSnoc(ms: seq<string>, clean: Cleaner, k: nat)
    requires k < |ms|
    ensures ValidNames(ms[..k + 1], clean) ==
      ValidNames(ms[..k], clean) + (match clean(ms[k]) case Some(nome) => {nome} case None => {})
  {
    assert ms[..k + 1][..k] == ms[..k];
  }

  /** Cleaning some match of one of the patterns yields `x`. */
  predicate Yields(ps: seq<string>, t: string, findAll: FindAll, clean: Cleaner, x: string) {
    exists i, j :: 0 <= i < |ps| && 0 <= j < |findAll(ps[i], t)| && clean(findAll(ps[i], t)[j]) == Some(x)
  }

  /** What `extract_rpps_from_text(text)` returns: nothing for a bank's text,
      otherwise the names kept from the matches of all five patterns, sorted. */
  ghost function ExtractSpec(text: string, findAll: FindAll): seq<string> {
    var t := Upper(text);
    if IsBanco(t) then [] else SortedList(Found(RPPS_PATTERNS, t, findAll, CleanName))
  }

  /** Extending the patterns by one adds the names kept from that
      pattern's matches. */
  lemma FoundSnoc(ps: seq<string>, t: string, findAll: FindAll, clean: Cleaner, k: nat)
    requires k < |ps|
    ensures Found(ps[..k + 1], t, findAll, clean) ==
      Found(ps[..k], t, findAll, clean) + ValidNames(findAll(ps[k], t), clean)
  {
    assert ps[..k + 1][..k] == ps[..k];
  }

  /** The inner loop of `extract_rpps_from_text` over one pattern's
      matches, adding the cleaned names to `encontrados`. */
  method AddMatches(encontrados: set<string>, ms: seq<string>) returns (r: set<string>)
    ensures r == encontrados + ValidNames(ms, CleanName)
  {
    r := encontrados;
    var mi := 0;
    while mi < |ms|
      invariant 0 <= mi <= |ms|
      invariant r == encontrados + ValidNames(ms[..mi], CleanName)
    {
      var nome := CleanCandidate(ms[mi]);
      ValidNamesSnoc(ms, CleanName, mi);
      if nome.Some? {
        r := r + {nome.value};
      }
      mi := mi + 1;
    }
    assert ms[..mi] == ms;
  }

  /** The two loops of `extract_rpps_from_text` over the patterns and their
      matches in the upper-cased text `t`, collecting the cleaned names. */
  method CollectNames(ps: seq<string>, t: string, findAll: FindAll) returns (encontrados: set<string>)
    ensures encontrados == Found(ps, t, findAll, CleanName)
  {
    encontrados := {};
    var pi := 0;
    while pi < |ps|
      invariant 0 <= pi <= |ps|
      invariant encontrados == Found(ps[..pi], t, findAll, CleanName)
    {
      encontrados := AddMatches(encontrados, findAll(ps[pi], t));
      FoundSnoc(ps, t, findAll, CleanName, pi);
      pi := pi + 1;
    }
    assert ps[..pi] == ps;
  }

  /** `extract_rpps_from_text(text)` */
  method ExtractRppsFromText(text: string, findAll: FindAll) returns (r: seq<string>)
    ensures r == ExtractSpec(text, findAll)
  {
    var t := Upper(text);
    if IsBanco(t) {
      return [];
    }
    var encontrados := CollectNames(RPPS_PATTERNS, t, findAll);
    r := SortSet(encontrados);
  }

  /** A name is kept from some matches exactly when cleaning one of them
      yields it. */
  lemma {:induction false} ValidNamesIff(ms: seq<string>, clean: Cleaner, x: string)
    ensures x in ValidNames(ms, clean) <==> exists j :: 0 <= j < |ms| && clean(ms[j]) == Some(x)
    decreases |ms|
  {
    if ms != [] {
      var init := ms[..|ms| - 1];
      ValidNamesIff(init, clean, x);
      if exists j :: 0 <= j < |init| && clean(init[j]) == Some(x) {
        var j :| 0 <= j < |init| && clean(init[j]) == Some(x);
        assert ms[j] == init[j];
      }
      if exists j :: 0 <= j < |ms| && clean(ms[j]) == Some(x) {
        var j :| 0 <= j < |ms| && clean(ms[j]) == Some(x);
        if j < |init| {
          assert init[j] == ms[j];
        }
      }
    }
  }

  /** A name is found by some patterns exactly when cleaning one of their
      matches yields it. */
  lemma {:induction false} FoundIff(ps: seq<string>, t: string, findAll: FindAll, clean: Cleaner, x: string)
    ensures x in Found(ps, t, findAll, clean) <==> Yields(ps, t, findAll, clean, x)
    decreases |ps|
  {
    if ps != [] {
      var init, last := ps[..|ps| - 1], ps[|ps| - 1];
      FoundIff(init, t, findAll, clean, x);
      ValidNamesIff(findAll(last, t), clean, x);
      if Yields(init, t, findAll, clean, x) {
        var i, j :| 0 <= i < |init| && 0 <= j < |findAll(init[i], t)| && clean(findAll(init[i], t)[j]) == Some(x);
        assert ps[i] == init[i];
      }
      if exists j :: 0 <= j < |findAll(last, t)| && clean(findAll(last, t)[j]) == Some(x) {
        var j :| 0 <= j < |findAll(last, t)| && clean(findAll(last, t)[j]) == Some(x);
        assert ps[|ps| - 1] == last;
      }
      if Yields(ps, t, findAll, clean, x) {
        var i, j :| 0 <= i < |ps| && 0 <= j < |findAll(ps[i], t)| && clean(findAll(ps[i], t)[j]) == Some(x);
        if i < |init| {
          assert init[i] == ps[i];
        }
      }
    }
  }

  /** A bank's text yields no names, whatever the patterns match. */
  lemma ExtractBancoEmpty(text: string, findAll: FindAll)
    requires IsBanco(text)
    ensures ExtractSpec(text, findAll) == []
  {
    IsBancoIgnoresCase(text);
  }

  /** The extracted list is strictly ascending (sorted, no repetitions), and
      a name is in it exactly when the text is not a bank's and cleaning a
      match of one of the patterns in the upper-cased text yields it. */
  lemma ExtractMembers(text: string, findAll: FindAll, x: string)
    ensures StrictlyAscending(ExtractSpec(text, findAll))
    ensures x in ExtractSpec(text, findAll) <==>
      !IsBanco(text) && Yields(RPPS_PATTERNS, Upper(text), findAll, CleanName, x)
  {
    IsBancoIgnoresCase(text);
    var t := Upper(text);
    if !IsBanco(t) {
      FoundIff(RPPS_PATTERNS, t, findAll, CleanName, x);
      assert x in ExtractSpec(text, findAll) <==> x in Elems(SortedList(Found(RPPS_PATTERNS, t, findAll, CleanName)));
    }
  }

  /** Every extracted name is valid, already normalised and tidy. */
  lemma ExtractClean(text: string, findAll: FindAll, x: string)
    requires x in ExtractSpec(text, findAll)
    ensures RppsValido(x) && Normalizar(x) == x && Tidy(x)
  {
    ExtractMembers(text, findAll, x);
    var t := Upper(text);
    var i, j :| 0 <= i < |RPPS_PATTERNS| && 0 <= j < |findAll(RPPS_PATTERNS[i], t)|
             && CleanName(findAll(RPPS_PATTERNS[i], t)[j]) == Some(x);
    CleanNameClean(findAll(RPPS_PATTERNS[i], t)[j]);
  }

  // ---------------------------------------------------------------------
  // The fifth pattern never contributes
  // ---------------------------------------------------------------------

  /** The shape of a match of the fifth pattern: "INSTITUTO DE PREVID", an
      "Ê" or "E", "NCIA", then at most 80 characters other than a newline. */
  predicate InstitutoMatch(m: string) {
    && 24 <= |m| <= 104
    && m[..19] == "INSTITUTO DE PREVID"
    && (m[19] == 'Ê' || m[19] == 'E')
    && m[20..24] == "NCIA"
    && '\n' !in m[24..]
  }

  /** A match of the fifth pattern starts with "INSTITUTO DE PREV", also
      once its newlines are replaced. */
  lemma InstitutoPrefix(m: string)
    requires InstitutoMatch(m)
    ensures ReplaceChar(m, '\n', ' ')[..17] == "INSTITUTO DE PREV"
  {
    var f := ReplaceChar(m, '\n', ' ');
    assert m[..19][..17] == "INSTITUTO DE PREV";
    forall i | 0 <= i < 17 ensures f[i] == "INSTITUTO DE PREV"[i] {
      assert m[i] == m[..19][i];
    }
  }

  /** Collapsing whitespace keeps a prefix that has no adjacent whitespace
      and ends in a non-space. */
  lemma CollapseKeepsPrefix(f: string, p: string)
    requires p != [] && NoAdjacentSpaces(p) && !IsSpace(p[|p| - 1])
    requires |p| <= |f| && f[..|p|] == p
    ensures Contains(CollapseSpaces(f), p)
  {
    assert f == p + f[|p|..];
    CollapseSpacesPrefix(p, f[|p|..]);
    var c := CollapseSpaces(f);
    assert c[..|p|] == p;
    ContainsPrefix(c, p);
  }

  /** Title-casing and stripping keep an upper-case word, as `rpps_valido`
      sees it after upper-casing. */
  lemma TitleStripKeepsWord(c: string, w: string)
    requires Contains(c, w) && Upper(w) == w
    requires w != [] && !IsSpace(w[0]) && !IsSpace(w[|w| - 1])
    ensures Contains(Upper(Strip(Title(c))), w)
  {
    ContainsUpper(c, w);
    UpperOfTitle(c);
    UpperStrip(Title(c));
    ContainsStrip(Upper(Title(c)), w);
  }

  /** "INSTITUTO DE PREV" is upper case, has no adjacent whitespace and
      neither starts nor ends with whitespace. */
  lemma InstitutoDePrevShape()
    ensures var p := "INSTITUTO DE PREV";
      Upper(p) == p && NoAdjacentSpaces(p) && !IsSpace(p[0]) && !IsSpace(p[|p| - 1])
  {
    var p := "INSTITUTO DE PREV";
    forall i | 0 <= i < |p| ensures Upper(p)[i] == p[i] && (IsSpace(p[i]) <==> p[i] == ' ') {
      assert p[i] == ' ' || 'A' <= p[i] <= 'Z';
    }
    assert p[9] == ' ' && p[12] == ' ';
  }

  /** Once normalised and upper-cased, a match of the fifth pattern still
      contains "INSTITUTO DE PREV". */
  lemma InstitutoSurvivesNormalizar(m: string)
    requires InstitutoMatch(m)
    ensures Contains(Upper(Normalizar(m)), "INSTITUTO DE PREV")
  {
    var p := "INSTITUTO DE PREV";
    var f := ReplaceChar(m, '\n', ' ');
    InstitutoPrefix(m);
    InstitutoDePrevShape();
    CollapseKeepsPrefix(f, p);
    TitleStripKeepsWord(CollapseSpaces(f), p);
  }

  /** No match of the fifth pattern survives `normalizar` and `rpps_valido`:
      every such match mentions the disqualifying "INSTITUTO DE PREV". */
  lemma InstitutoMatchRejected(m: string)
    requires InstitutoMatch(m)
    ensures !RppsValido(Normalizar(m)) && CleanName(m) == None
  {
    InstitutoSurvivesNormalizar(m);
    RejectsInstitutoDePrev(Normalizar(m));
  }

  /** Cleaning matches of the fifth pattern keeps nothing. */
  lemma InstitutoNamesEmpty(ms: seq<string>)
    requires forall m :: m in ms ==> InstitutoMatch(m)
    ensures ValidNames(ms, CleanName) == {}
  {
    forall x | x in ValidNames(ms, CleanName) ensures false {
      ValidNamesIff(ms, CleanName, x);
      var j :| 0 <= j < |ms| && CleanName(ms[j]) == Some(x);
      InstitutoMatchRejected(ms[j]);
    }
  }

  /** Names kept by some patterns depend only on those patterns' matches. */
  lemma {:induction false} FoundAgrees(ps: seq<string>, t: string, f: FindAll, g: FindAll, clean: Cleaner)
    requires forall i :: 0 <= i < |ps| ==> f(ps[i], t) == g(ps[i], t)
    ensures Found(ps, t, f, clean) == Found(ps, t, g, clean)
    decreases |ps|
  {
    if ps != [] {
      FoundAgrees(ps[..|ps| - 1], t, f, g, clean);
    }
  }

  /** `findAll` with the fifth pattern's matches dropped. */
  function WithoutInstituto(findAll: FindAll): FindAll {
    (p, t) => if p == RPPS_PATTERNS[4] then [] else findAll(p, t)
  }

  /** The fifth pattern differs from the other four. */
  lemma PatternsDistinct()
    ensures forall i :: 0 <= i < 4 ==> RPPS_PATTERNS[i] != RPPS_PATTERNS[4]
  {
    assert RPPS_PATTERNS[4][0] == 'I';
    assert forall i :: 0 <= i < 4 ==> RPPS_PATTERNS[i][0] == '\\';
  }

  /** When the fifth pattern matches only what it can match, the names
      found are those found without it. */
  lemma InstitutoFoundNothing(t: string, findAll: FindAll)
    requires forall m :: m in findAll(RPPS_PATTERNS[4], t) ==> InstitutoMatch(m)
    ensures Found(RPPS_PATTERNS, t, findAll, CleanName) == Found(RPPS_PATTERNS, t, WithoutInstituto(findAll), CleanName)
  {
    var g := WithoutInstituto(findAll);
    InstitutoNamesEmpty(findAll(RPPS_PATTERNS[4], t));
    assert g(RPPS_PATTERNS[4], t) == [];
    PatternsDistinct();
    FoundAgrees(RPPS_PATTERNS[..4], t, findAll, g, CleanName);
    assert RPPS_PATTERNS[..5][..4] == RPPS_PATTERNS[..4];
    assert RPPS_PATTERNS[..5] == RPPS_PATTERNS;
  }

  /** When the fifth pattern matches only what it can match, extraction gives
      the same names as if that pattern were not there. */
  lemma InstitutoPatternIsDead(text: string, findAll: FindAll)
    requires forall m :: m in findAll(RPPS_PATTERNS[4], Upper(text)) ==> InstitutoMatch(m)
    ensures ExtractSpec(text, findAll) == ExtractSpec(text, WithoutInstituto(findAll))
  {
    InstitutoFoundNothing(Upper(text), findAll);
  }

  // ---------------------------------------------------------------------
  // The cleaning pass of main()
  // ---------------------------------------------------------------------

  /** One metadata record: its "text", its "rpps" list, its "rpps_canonico"
      (None standing for JSON null) and the fields the pass does not touch. */
  datatype Record = Record(
    text: string,
    rpps: seq<string>,
    rppsCanonico: Option<string>,
    other: map<string, string>)

  /** The names that cleaning a record's stored names keeps, in order. */
  function KeepValid(rpps: seq<string>, clean: Cleaner): seq<string>
    decreases |rpps|
  {
    if rpps == [] then []
    else
      KeepValid(rpps[..|rpps| - 1], clean) +
      (match clean(rpps[|rpps| - 1]) case Some(r2) => [r2] case None => [])
  }

  /** Extending the stored names by one appends what cleaning that name keeps. */
  lemma KeepValidSnoc(rpps: seq<string>, clean: Cleaner, k: nat)
    requires k < |rpps|
    ensures KeepValid(rpps[..k + 1], clean) ==
      KeepValid(rpps[..k], clean) + (match clean(rpps[k]) case Some(r2) => [r2] case None => [])
  {
    assert rpps[..k + 1][..k] == rpps[..k];
  }

  /** The loop over a record's stored names (step 1 of the pass). */
  method CleanExisting(rpps: seq<string>) returns (kept: seq<string>)
    ensures kept == KeepValid(rpps, CleanName)
  {
    kept := [];
    var i := 0;
    while i < |rpps|
      invariant 0 <= i <= |rpps|
      invariant kept == KeepValid(rpps[..i], CleanName)
    {
      var r2 := CleanCandidate(rpps[i]);
      KeepValidSnoc(rpps, CleanName, i);
      if r2.Some? {
        kept := kept + [r2.value];
      }
      i := i + 1;
    }
    assert rpps[..i] == rpps;
  }

  /** Every kept name comes from cleaning a stored one. */
  lemma {:induction false} KeepValidFrom(rpps: seq<string>, clean: Cleaner)
    ensures forall x :: x in KeepValid(rpps, clean) ==> exists r :: r in rpps && clean(r) == Some(x)
    decreases |rpps|
  {
    if rpps != [] {
      var init := rpps[..|rpps| - 1];
      KeepValidFrom(init, clean);
      forall x | x in KeepValid(init, clean) ensures exists r :: r in rpps && clean(r) == Some(x) {
        var r :| r in init && clean(r) == Some(x);
        assert r in rpps;
      }
    }
  }

  /** Names that cleaning leaves as they are are all kept, in order. */
  lemma {:induction false} KeepValidFixpoint(rpps: seq<string>, clean: Cleaner)
    requires forall i :: 0 <= i < |rpps| ==> clean(rpps[i]) == Some(rpps[i])
    ensures KeepValid(rpps, clean) == rpps
    decreases |rpps|
  {
    if rpps != [] {
      var init, last := rpps[..|rpps| - 1], rpps[|rpps| - 1];
      forall i | 0 <= i < |init| ensures clean(init[i]) == Some(init[i]) {
        assert init[i] == rpps[i];
      }
      KeepValidFixpoint(init, clean);
      assert clean(last) == Some(last);
      assert init + [last] == rpps;
    }
  }

  /** Every name kept by the pass over stored names is valid, already
      normalised and tidy. */
  lemma KeepValidClean(rpps: seq<string>)
    ensures forall x :: x in KeepValid(rpps, CleanName) ==> RppsValido(x) && Normalizar(x) == x && Tidy(x)
  {
    KeepValidFrom(rpps, CleanName);
    forall x | x in KeepValid(rpps, CleanName) ensures RppsValido(x) && Normalizar(x) == x && Tidy(x) {
      var r :| r in rpps && CleanName(r) == Some(x);
      CleanNameClean(r);
    }
  }

  /** The names the pass stores for a record: the kept names, or, when none
      survive and the text is not empty, the names extracted from the text. */
  ghost function CleanNames(d: Record, findAll: FindAll): seq<string> {
    var kept := KeepValid(d.rpps, CleanName);
    if kept == [] && d.text != "" then ExtractSpec(d.text, findAll) else kept
  }

  /** A record as the pass leaves it. */
  ghost function CleanRecord(d: Record, findAll: FindAll): Record {
    var names := CleanNames(d, findAll);
    d.(rpps := names, rppsCanonico := if names != [] then Some(names[0]) else None)
  }

  /** The record was refilled from its text (counted in `preenchidos`). */
  ghost predicate Refilled(d: Record, findAll: FindAll) {
    KeepValid(d.rpps, CleanName) == [] && d.text != "" && ExtractSpec(d.text, findAll) != []
  }

  /** Records refilled from their text. */
  ghost function CountRefilled(ds: seq<Record>, findAll: FindAll): nat
    decreases |ds|
  {
    if ds == [] then 0
    else CountRefilled(ds[..|ds| - 1], findAll) + (if Refilled(ds[|ds| - 1], findAll) then 1 else 0)
  }

  /** Records left with at least one name (counted in `limpos`). */
  ghost function CountCleaned(ds: seq<Record>, findAll: FindAll): nat
    decreases |ds|
  {
    if ds == [] then 0
    else CountCleaned(ds[..|ds| - 1], findAll) + (if CleanNames(ds[|ds| - 1], findAll) != [] then 1 else 0)
  }

  /** Every record as the pass leaves it, in order. */
  ghost function CleanAll(ds: seq<Record>, findAll: FindAll): (r: seq<Record>)
    ensures |r| == |ds|
    decreases |ds|
  {
    if ds == [] then [] else CleanAll(ds[..|ds| - 1], findAll) + [CleanRecord(ds[|ds| - 1], findAll)]
  }

  /** The pass cleans each record on its own: record `k` of the result is
      record `k` cleaned. */
  lemma {:induction false} CleanAllIndex(ds: seq<Record>, findAll: FindAll, k: nat)
    requires k < |ds|
    ensures CleanAll(ds, findAll)[k] == CleanRecord(ds[k], findAll)
    decreases |ds|
  {
    if k < |ds| - 1 {
      CleanAllIndex(ds[..|ds| - 1], findAll, k);
    }
  }

  /** Extending the processed records by one extends the cleaned records
      and the two counts by that record's contribution. */
  lemma CleanAllSnoc(ds: seq<Record>, findAll: FindAll, i: nat)
    requires i < |ds|
    ensures CleanAll(ds[..i + 1], findAll) == CleanAll(ds[..i], findAll) + [CleanRecord(ds[i], findAll)]
    ensures CountRefilled(ds[..i + 1], findAll) == CountRefilled(ds[..i], findAll) + (if Refilled(ds[i], findAll) then 1 else 0)
    ensures CountCleaned(ds[..i + 1], findAll) == CountCleaned(ds[..i], findAll) + (if CleanNames(ds[i], findAll) != [] then 1 else 0)
  {
    assert ds[..i + 1][..i] == ds[..i];
  }

  /** The body of the pass for one record: its stored names are cleaned,
      and when none survive and it has text, names are extracted from the
      text; `preenchido` tells whether that refilled it. */
  method CleanOne(d: Record, findAll: FindAll) returns (c: Record, preenchido: bool)
    ensures c == CleanRecord(d, findAll)
    ensures preenchido == Refilled(d, findAll)
  {
    var texto := d.text;
    var rppsLimpos := CleanExisting(d.rpps);
    preenchido := false;
    if rppsLimpos == [] && texto != "" {
      rppsLimpos := ExtractRppsFromText(texto, findAll);
      if rppsLimpos != [] {
        preenchido := true;
      }
    }
    c := d.(rpps := rppsLimpos, rppsCanonico := if rppsLimpos != [] then Some(rppsLimpos[0]) else None);
  }

  /** The cleaning pass of `main()` over the loaded records: each record is
      rewritten in place, and the two counters are returned. */
  method Lapidar(data: array<Record>, findAll: FindAll) returns (preenchidos: nat, limpos: nat)
    modifies data
    ensures data[..] == CleanAll(old(data[..]), findAll)
    ensures preenchidos == CountRefilled(old(data[..]), findAll)
    ensures limpos == CountCleaned(old(data[..]), findAll)
  {
    ghost var orig := data[..];
    preenchidos, limpos := 0, 0;
    var i := 0;
    while i < data.Length
      invariant 0 <= i <= data.Length
      invariant data[..i] == CleanAll(orig[..i], findAll)
      invariant forall j :: i <= j < data.Length ==> data[j] == orig[j]
      invariant preenchidos == CountRefilled(orig[..i], findAll)
      invariant limpos == CountCleaned(orig[..i], findAll)
    {
      var c, preenchido := CleanOne(data[i], findAll);
      CleanAllSnoc(orig, findAll, i);
      if preenchido {
        preenchidos := preenchidos + 1;
      }
      if c.rpps != [] {
        limpos := limpos + 1;
      }
      data[i] := c;
      assert data[..i + 1] == data[..i] + [data[i]];
      i := i + 1;
    }
    assert orig[..i] == orig;
    assert data[..i] == data[..];
  }

  /** After the pass a record holds only valid, normalised, tidy names, its
      canonical name is the first of them (None when there are none), and
      its text and other fields are unchanged. */
  lemma CleanRecordValid(d: Record, findAll: FindAll)
    ensures var c := CleanRecord(d, findAll);
      && (forall x :: x in c.rpps ==> RppsValido(x) && Normalizar(x) == x && Tidy(x))
      && c.rppsCanonico == (if c.rpps == [] then None else Some(c.rpps[0]))
      && c.text == d.text && c.other == d.other
  {
    KeepValidClean(d.rpps);
    forall x | x in ExtractSpec(d.text, findAll) ensures RppsValido(x) && Normalizar(x) == x && Tidy(x) {
      ExtractClean(d.text, findAll, x);
    }
  }

  /** A record keeps its valid stored names when any survive; only when none
      survive and it has text is it refilled from that text. */
  lemma CleanRecordPrefersStored(d: Record, findAll: FindAll)
    ensures KeepValid(d.rpps, CleanName) != [] ==> CleanRecord(d, findAll).rpps == KeepValid(d.rpps, CleanName)
    ensures KeepValid(d.rpps, CleanName) == [] && d.text == "" ==> CleanRecord(d, findAll).rpps == []
    ensures KeepValid(d.rpps, CleanName) == [] && d.text != "" ==>
      CleanRecord(d, findAll).rpps == ExtractSpec(d.text, findAll)
  {
  }

  /** Names already valid and normalised pass the cleaner unchanged. */
  lemma CleanNamesStable(names: seq<string>)
    requires forall x :: x in names ==> RppsValido(x) && Normalizar(x) == x
    ensures KeepValid(names, CleanName) == names
  {
    forall i | 0 <= i < |names| ensures CleanName(names[i]) == Some(names[i]) {
      assert names[i] in names;
    }
    KeepValidFixpoint(names, CleanName);
  }

  /** Cleaning is idempotent: a second pass leaves every record as the
      first pass left it. */
  lemma CleanRecordIdempotent(d: Record, findAll: FindAll)
    ensures CleanRecord(CleanRecord(d, findAll), findAll) == CleanRecord(d, findAll)
  {
    var c := CleanRecord(d, findAll);
    CleanRecordValid(d, findAll);
    CleanNamesStable(c.rpps);
  }

  /** A cleaned record is never refilled by a second pass. */
  lemma RefilledOnlyOnce(d: Record, findAll: FindAll)
    ensures !Refilled(CleanRecord(d, findAll), findAll)
  {
    var c := CleanRecord(d, findAll);
    CleanRecordValid(d, findAll);
    CleanNamesStable(c.rpps);
  }

  /** `preenchidos <= limpos <= len(data)`: every refilled record ends with a
      name, and each record is counted at most once. */
  lemma {:induction false} CountsBounded(ds: seq<Record>, findAll: FindAll)
    ensures CountRefilled(ds, findAll) <= CountCleaned(ds, findAll) <= |ds|
    decreases |ds|
  {
    if ds != [] {
      CountsBounded(ds[..|ds| - 1], findAll);
    }
  }
}
