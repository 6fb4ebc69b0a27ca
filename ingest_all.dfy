/** The document ingester (ingest/ingest_all.py): for every PDF, DOC or DOCX
    file under the data directory (outside the text directories), it skips
    the file when the stored hash matches, otherwise extracts its text,
    falls back to OCR when the text is shorter than 50 characters once
    stripped, writes a useful text to the raw-text directory and only then records
    the file's hash in the state. */
module IngestAll {
  import opened Wrappers
  import opened Text
  import opened Paths

  /** Where the extracted texts are written. */
  const RAW_TXT_DIR := "data/raw_txt"

  /** The shortest length a text needs, once stripped, to be useful
      (whitespace inside the text counts). */
  const MIN_USEFUL := 50

  /** The outside world a document is processed against, each step `None`
      (or `false`) when it raised: `sha256_file`, `extract_any_text`,
      `ocr_pdf`, and whether writing a text to a path succeeds. */
  datatype Env = Env(
    hash: DocPath -> Option<string>,
    extract: string -> Option<string>,
    ocr: string -> Option<string>,
    writeOk: (string, string) -> bool)

  /** `not (not text or len(text.strip()) < 50)` */
  predicate Useful(text: string) {
    text != [] && |Strip(text)| >= MIN_USEFUL
  }

  /** `Path(RAW_TXT_DIR) / (path.stem + ".txt")` */
  function OutPath(path: DocPath): string {
    RAW_TXT_DIR + "/" + Stem(path) + ".txt"
  }

  /** How a call of `process_document` ends. */
  datatype Step =
    | AlreadyCurrent                                  // stored hash matches
    | Failed                                          // a step raised
    | NoUsefulText                                    // even OCR gave too little
    | Processed(hash: string, out: string, text: string)

  /** The decision `process_document` takes for `path` against `state`. */
  function Decide(state: map<string, string>, path: DocPath, env: Env): Step {
    var key := PathStr(path);
    match env.hash(path)
    case None => Failed
    case Some(h) =>
      if key in state && state[key] == h then AlreadyCurrent
      else
        match env.extract(key)
        case None => Failed
        case Some(t0) =>
          match (if Useful(t0) then Some(t0) else env.ocr(key))
          case None => Failed
          case Some(text) =>
            if !Useful(text) then NoUsefulText
            else if env.writeOk(OutPath(path), text) then Processed(h, OutPath(path), text)
            else Failed
  }

  /** The state after processing `path`. */
  function NextState(state: map<string, string>, path: DocPath, env: Env): map<string, string> {
    match Decide(state, path, env)
    case Processed(h, _, _) => state[PathStr(path) := h]
    case _ => state
  }

  /** The written texts after processing `path`. */
  function NextFiles(files: map<string, string>, state: map<string, string>, path: DocPath, env: Env): map<string, string> {
    match Decide(state, path, env)
    case Processed(_, out, text) => files[out := text]
    case _ => files
  }

  /** `p.suffix.lower() in [".pdf", ".doc", ".docx"]` and neither text
      directory among `p.parts`. */
  predicate IsCandidate(p: DocPath) {
    var ext := Lower(Suffix(p));
    && (ext == ".pdf" || ext == ".doc" || ext == ".docx")
    && "raw_txt" !in p.parts
    && "processed_txt" !in p.parts
  }

  /** The list comprehension `pdfs` over the files `rglob` finds, in order. */
  function Selected(found: seq<DocPath>): seq<DocPath>
    decreases |found|
  {
    if found == [] then []
    else
      var p := found[|found| - 1];
      Selected(found[..|found| - 1]) + (if IsCandidate(p) then [p] else [])
  }

  /** The state after processing `docs` in order. */
  function RunState(state: map<string, string>, docs: seq<DocPath>, env: Env): map<string, string>
    decreases |docs|
  {
    if docs == [] then state
    else NextState(RunState(state, docs[..|docs| - 1], env), docs[|docs| - 1], env)
  }

  /** The written texts after processing `docs` in order. */
  function RunFiles(files: map<string, string>, state: map<string, string>, docs: seq<DocPath>, env: Env): map<string, string>
    decreases |docs|
  {
    if docs == [] then files
    else
      var init := docs[..|docs| - 1];
      NextFiles(RunFiles(files, state, init, env), RunState(state, init, env), docs[|docs| - 1], env)
  }

  /** The ingester's mutable state: the hash state loaded by `load_state`
      and the texts under the raw-text directory. */
  class Ingest {
    var state: map<string, string>
    var rawTxt: map<string, string>

    constructor(loaded: map<string, string>, existing: map<string, string>)
      ensures state == loaded && rawTxt == existing
    {
      state := loaded;
      rawTxt := existing;
    }

    /** `process_document(path)` */
    method ProcessDocument(path: DocPath, env: Env)
      modifies this
      ensures state == NextState(old(state), path, env)
      ensures rawTxt == NextFiles(old(rawTxt), old(state), path, env)
    {
      var key := PathStr(path);
      var fileHash := env.hash(path);
      if fileHash.None? {
        assert Decide(state, path, env) == Failed;
        return;
      }
      if key in state && state[key] == fileHash.value {
        assert Decide(state, path, env) == AlreadyCurrent;
        return;
      }
      var text := env.extract(key);
      if text.None? {
        assert Decide(state, path, env) == Failed;
        return;
      }
      if !Useful(text.value) {
        text := env.ocr(key);
        if text.None? {
          assert Decide(state, path, env) == Failed;
          return;
        }
      }
      if !Useful(text.value) {
        assert Decide(state, path, env) == NoUsefulText;
        return;
      }
      var out := OutPath(path);
      if !env.writeOk(out, text.value) {
        assert Decide(state, path, env) == Failed;
        return;
      }
      assert Decide(state, path, env) == Processed(fileHash.value, out, text.value);
      rawTxt := rawTxt[out := text.value];
      state := state[key := fileHash.value];
    }

    /** `main()`, given the files `rglob` finds; saving the state is left to
        the caller. */
    method RunAll(found: seq<DocPath>, env: Env)
      modifies this
      ensures state == RunState(old(state), Selected(found), env)
      ensures rawTxt == RunFiles(old(rawTxt), old(state), Selected(found), env)
    {
      var pdfs := Selected(found);
      var i := 0;
      while i < |pdfs|
        invariant 0 <= i <= |pdfs|
        invariant state == RunState(old(state), pdfs[..i], env)
        invariant rawTxt == RunFiles(old(rawTxt), old(state), pdfs[..i], env)
      {
        assert pdfs[..i + 1][..i] == pdfs[..i];
        ProcessDocument(pdfs[i], env);
        i := i + 1;
      }
      assert pdfs[..i] == pdfs;
    }
  }

  // ---------------------------------------------------------------------
  // Properties of one call
  // ---------------------------------------------------------------------

  /** A file whose stored hash matches is skipped before any extraction:
      the outcome does not depend on the extractor or OCR, and nothing
      changes. */
  lemma SkipWhenCurrent(state: map<string, string>, files: map<string, string>, path: DocPath, env: Env)
    requires env.hash(path).Some?
    requires PathStr(path) in state && state[PathStr(path)] == env.hash(path).value
    ensures forall e, o :: Decide(state, path, env.(extract := e, ocr := o)) == AlreadyCurrent
    ensures NextState(state, path, env) == state && NextFiles(files, state, path, env) == files
  {
  }

  /** OCR is consulted only when the extracted text is not useful. */
  lemma OcrOnlyWhenShort(state: map<string, string>, path: DocPath, env: Env, t: string)
    requires env.extract(PathStr(path)) == Some(t) && Useful(t)
    ensures forall o :: Decide(state, path, env.(ocr := o)) == Decide(state, path, env)
  {
  }

  /** A processed document has a useful text, taken from the extractor when
      that was useful and from OCR otherwise, which was written to its
      output path; its hash is then recorded under `str(path)`. */
  lemma ProcessedMeans(state: map<string, string>, path: DocPath, env: Env)
    requires Decide(state, path, env).Processed?
    ensures var s := Decide(state, path, env);
      && env.hash(path) == Some(s.hash)
      && Useful(s.text)
      && s.out == OutPath(path)
      && env.writeOk(s.out, s.text)
      && env.extract(PathStr(path)).Some?
      && (if Useful(env.extract(PathStr(path)).value) then s.text == env.extract(PathStr(path)).value
          else env.ocr(PathStr(path)) == Some(s.text))
      && NextState(state, path, env) == state[PathStr(path) := s.hash]
  {
  }

  /** The state changes only when the document was processed, and then only
      at the key `str(path)`: a document skipped for lack of useful text, or
      whose processing raised, leaves state and files as they were. */
  lemma OnlyOwnKeyChanges(state: map<string, string>, files: map<string, string>, path: DocPath, env: Env)
    ensures !Decide(state, path, env).Processed? ==>
      NextState(state, path, env) == state && NextFiles(files, state, path, env) == files
    ensures forall k :: k != PathStr(path) ==>
      (k in NextState(state, path, env) <==> k in state)
      && (k in state ==> NextState(state, path, env)[k] == state[k])
  {
  }

  /** Processing a document a second time against the same files changes
      nothing more: a processed document is then current. */
  lemma ProcessTwice(state: map<string, string>, files: map<string, string>, path: DocPath, env: Env)
    ensures Decide(state, path, env).Processed? ==> Decide(NextState(state, path, env), path, env) == AlreadyCurrent
    ensures NextState(NextState(state, path, env), path, env) == NextState(state, path, env)
    ensures NextFiles(NextFiles(files, state, path, env), NextState(state, path, env), path, env)
         == NextFiles(files, state, path, env)
  {
  }

  // ---------------------------------------------------------------------
  // Properties of a run
  // ---------------------------------------------------------------------

  /** The selection keeps exactly the candidate files, in order. */
  lemma {:induction false} SelectedIff(found: seq<DocPath>)
    ensures forall p :: p in Selected(found) <==> p in found && IsCandidate(p)
    decreases |found|
  {
    if found != [] {
      var init := found[..|found| - 1];
      SelectedIff(init);
      assert found == init + [found[|found| - 1]];
    }
  }

  /** A run changes the state only at the keys of the documents it
      processes, and each key it sets holds the hash of such a document. */
  lemma {:induction false} RunStateFrame(state: map<string, string>, docs: seq<DocPath>, env: Env)
    ensures forall k :: (forall d :: d in docs ==> PathStr(d) != k) ==>
      (k in RunState(state, docs, env) <==> k in state)
      && (k in state ==> RunState(state, docs, env)[k] == state[k])
    ensures forall k :: k in RunState(state, docs, env) && (k !in state || RunState(state, docs, env)[k] != state[k]) ==>
      exists d :: d in docs && PathStr(d) == k && env.hash(d) == Some(RunState(state, docs, env)[k])
    decreases |docs|
  {
    if docs != [] {
      var init := docs[..|docs| - 1];
      var d := docs[|docs| - 1];
      RunStateFrame(state, init, env);
      var s0 := RunState(state, init, env);
      OnlyOwnKeyChanges(s0, map[], d, env);
      assert forall x :: x in init ==> x in docs;
      if Decide(s0, d, env).Processed? {
        ProcessedMeans(s0, d, env);
      }
    }
  }
}
