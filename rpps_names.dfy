/** The name rules of the metadata cleaner (lapidar_metadata.py): the bank
    denylist check `is_banco`, the validity rule `rpps_valido` for a pension
    institute (RPPS) name, and the name normaliser `normalizar`. */
module RppsNames {
  import opened Text

  /** Words whose presence marks a text as coming from a bank or an asset
      manager rather than from an RPPS. */
  const BANCO_BLACKLIST: seq<string> := [
    "BANCO", "BB ", "BRADESCO", "CAIXA",
    "SICREDI", "CITIBANK", "DTVM", "ASSET",
    "GESTÃO", "GESTORA"
  ]

  /** Words whose presence disqualifies a candidate RPPS name. */
  const RPPS_INVALIDOS: seq<string> := [
    "INVESTIMENTOS DO RPPS",
    "NÍVEL BÁSICO",
    "CP RPPS",
    "CGINV",
    "ONLINE",
    "CURSO",
    "CERTIFICAÇÃO",
    "ADOR",
    "INSTITUTO DE PREV"
  ]

  /** A valid name must contain one of these. */
  const RPPS_ANCHORS: seq<string> := ["IPRE", "PREV", "INSTITUTO DE PREVIDÊNCIA"]

  /** The shortest valid name, counted after upper-casing and stripping. */
  const MIN_NAME_LENGTH := 10

  /** `any(w in s for w in words)` */
  predicate ContainsAny(s: string, words: seq<string>) {
    exists i :: 0 <= i < |words| && Contains(s, words[i])
  }

  /** `is_banco(text)`: the upper-cased text contains a denylisted word. */
  predicate IsBanco(text: string) {
    ContainsAny(Upper(text), BANCO_BLACKLIST)
  }

  /** `rpps_valido(nome)`: upper-cased and stripped, the name has at least
      ten characters, no disqualifying word and an anchor. */
  predicate RppsValido(nome: string) {
    var n := Strip(Upper(nome));
    if |n| < MIN_NAME_LENGTH then false
    else if ContainsAny(n, RPPS_INVALIDOS) then false
    else ContainsAny(n, RPPS_ANCHORS)
  }

  /** `normalizar(nome)`: newlines become spaces, runs of whitespace become
      one space, then the name is title-cased and stripped. */
  function Normalizar(nome: string): string {
    Strip(Title(CollapseSpaces(ReplaceChar(nome, '\n', ' '))))
  }

  /** What `normalizar` guarantees of its output. */
  predicate Tidy(s: string) {
    && '\n' !in s
    && NoAdjacentSpaces(s)
    && (s == [] || (!IsSpace(s[0]) && !IsSpace(s[|s| - 1])))
  }

  // ---------------------------------------------------------------------
  // is_banco
  // ---------------------------------------------------------------------

  /** `is_banco` ignores case: upper-, lower- or title-casing the text first
      changes nothing. */
  lemma IsBancoIgnoresCase(text: string)
    ensures IsBanco(Upper(text)) == IsBanco(text)
    ensures IsBanco(Lower(text)) == IsBanco(text)
    ensures IsBanco(Title(text)) == IsBanco(text)
  {
    UpperIdempotent(text);
    UpperOfTitle(text);
    forall i | 0 <= i < |text| ensures Upper(Lower(text))[i] == Upper(text)[i] {
      CaseCharFacts(text[i]);
    }
    assert Upper(Lower(text)) == Upper(text);
  }

  // ---------------------------------------------------------------------
  // rpps_valido
  // ---------------------------------------------------------------------

  /** The third anchor is redundant: it contains "PREV" (and it also
      contains the disqualifying "INSTITUTO DE PREV"). */
  lemma ThirdAnchorRedundant(n: string)
    requires Contains(n, RPPS_ANCHORS[2])
    ensures Contains(n, "PREV") && Contains(n, "INSTITUTO DE PREV")
  {
    var a := RPPS_ANCHORS[2];
    assert OccursAt(a, "PREV", 13);
    assert OccursAt(a, "INSTITUTO DE PREV", 0);
    ContainsTransitive(n, a, "PREV");
    ContainsTransitive(n, a, "INSTITUTO DE PREV");
  }

  /** A name is valid exactly when, upper-cased and stripped, it has at
      least ten characters, contains no disqualifying word, and contains
      "IPRE" or "PREV". */
  lemma RppsValidoIff(nome: string)
    ensures RppsValido(nome) <==>
      var n := Strip(Upper(nome));
      && |n| >= 10
      && (forall i :: 0 <= i < |RPPS_INVALIDOS| ==> !Contains(n, RPPS_INVALIDOS[i]))
      && (Contains(n, "IPRE") || Contains(n, "PREV"))
  {
    var n := Strip(Upper(nome));
    if Contains(n, RPPS_ANCHORS[2]) {
      ThirdAnchorRedundant(n);
    }
    if Contains(n, "IPRE") {
      assert Contains(n, RPPS_ANCHORS[0]);
    }
    if Contains(n, "PREV") {
      assert Contains(n, RPPS_ANCHORS[1]);
    }
  }

  /** `rpps_valido` ignores case: upper-, lower- or title-casing the name
      first changes nothing. */
  lemma RppsValidoIgnoresCase(nome: string)
    ensures RppsValido(Upper(nome)) == RppsValido(nome)
    ensures RppsValido(Lower(nome)) == RppsValido(nome)
    ensures RppsValido(Title(nome)) == RppsValido(nome)
  {
    UpperIdempotent(nome);
    UpperOfTitle(nome);
    forall i | 0 <= i < |nome| ensures Upper(Lower(nome))[i] == Upper(nome)[i] {
      CaseCharFacts(nome[i]);
    }
    assert Upper(Lower(nome)) == Upper(nome);
  }

  /** Any name that mentions "INSTITUTO DE PREV", in any case, is rejected. */
  lemma RejectsInstitutoDePrev(nome: string)
    requires Contains(Upper(nome), "INSTITUTO DE PREV")
    ensures !RppsValido(nome)
  {
    var n := Strip(Upper(nome));
    ContainsStrip(Upper(nome), "INSTITUTO DE PREV");
    assert RPPS_INVALIDOS[8] == "INSTITUTO DE PREV";
    assert |n| >= 10 ==> ContainsAny(n, RPPS_INVALIDOS);
  }

  // ---------------------------------------------------------------------
  // normalizar
  // ---------------------------------------------------------------------

  /** Title-casing introduces no newline and keeps whitespace where it was. */
  lemma TitleKeepsLayout(c: string)
    requires '\n' !in c && NoAdjacentSpaces(c)
    ensures '\n' !in Title(c) && NoAdjacentSpaces(Title(c))
  {
    var t := Title(c);
    TitleFromChars(c, false);
    forall i | 0 <= i < |t| ensures t[i] != '\n' {
      if !IsCased(c[i]) {
        assert t[i] == c[i];
      }
    }
    forall i | 0 < i < |t| ensures !SpacePairAt(t, i) {
      assert !SpacePairAt(c, i);
    }
  }

  /** Stripping a string without newlines or adjacent whitespace makes it tidy. */
  lemma StripMakesTidy(t: string)
    requires '\n' !in t && NoAdjacentSpaces(t)
    ensures Tidy(Strip(t))
  {
    var r := Strip(t);
    StripSlice(t);
    NoAdjacentSpacesSlice(t, LeadingSpaces(t), LeadingSpaces(t) + |r|);
    assert forall i :: 0 <= i < |r| ==> r[i] == t[LeadingSpaces(t) + i];
  }

  /** The output of `normalizar` has no newline, no two whitespace
      characters in a row and no whitespace at either end. */
  lemma NormalizarTidy(nome: string)
    ensures Tidy(Normalizar(nome))
  {
    var f := ReplaceChar(nome, '\n', ' ');
    var c := CollapseSpaces(f);
    CollapseSpacesChars(f, '\n');
    CollapseSpacesShape(f);
    TitleKeepsLayout(c);
    StripMakesTidy(Title(c));
  }

  /** Title-casing a stripped title-cased string changes nothing: the
      character before the kept slice, if any, is whitespace, so title-casing
      restarts there as it does at the start of a string. */
  lemma {:induction false} TitleOfStrippedTitle(c: string)
    ensures Title(Strip(Title(c))) == Strip(Title(c))
  {
    var t := Title(c);
    var y := Strip(t);
    StripSlice(t);
    var l := LeadingSpaces(t);
    TitleFromIdempotent(c, false);
    TitleFromSuffix(t, false, l);
    if l > 0 {
      CaseCharFacts(t[l - 1]);
    }
    TitleFromPrefix(t[l..], false, |y|);
    assert t[l..][..|y|] == y;
  }

  /** `normalizar` is idempotent. */
  lemma {:induction false} NormalizarIdempotent(nome: string)
    ensures Normalizar(Normalizar(nome)) == Normalizar(nome)
  {
    var c := CollapseSpaces(ReplaceChar(nome, '\n', ' '));
    var y := Strip(Title(c));
    NormalizarTidy(nome);
    assert ReplaceChar(y, '\n', ' ') == y;
    CollapseSpacesNoop(y);
    TitleOfStrippedTitle(c);
    StripTrimmed(y);
  }

}
