# Consepro-AI ingestion and metadata core in Dafny

This project models the string and bookkeeping logic around Consepro-AI's
document pipeline:

- **The RPPS metadata cleaner** (`lapidar_metadata.py`). It has three name
  rules:
  - `is_banco` checks a bank denylist.
  - `rpps_valido` is a length, denylist and anchor rule for pension-institute
    (RPPS) names.
  - `normalizar` folds newlines, collapses whitespace, title-cases and trims.

  `extract_rpps_from_text` collects the valid normalised matches of five
  patterns and returns them sorted. The pass in `main` rewrites every
  metadata record in place and counts the records it refilled and the
  records left with a name.
- **The index builder** (`embeddings/build_index.py`). `list_txts` lists
  ".txt" files. `build` embeds the first 5000 characters of each file. It
  keeps only non-empty list or array vectors of length 768, appending each
  to `vectors` and its path to `metadata` together. When no vector survives,
  it stops before writing anything.
- **The incremental ingester** (`ingest/ingest_all.py`). `process_document`
  is a state machine over the hash state (path to hash):
  - it skips a file whose hash is unchanged;
  - it falls back to OCR when the text is shorter than 50 characters once
    stripped (whitespace inside the text counts);
  - it records the hash only after the text is written.

  `main` selects the documents by suffix and directory.
- **Text preparation** (`ingest/prepare_txt.py`). `clean_text` replaces
  carriage returns and no-break spaces with spaces and strips the result.
  `extract_text_from_document` dispatches on the lower-cased suffix, with
  OCR for PDFs that have almost no text.

Layout:
- `wrappers.dfy` holds `Option`.
- `text.dfy` models Python's `str.upper`, `lower`, `title`, `strip`,
  `replace`, `in`, `endswith` and the `re.sub(r"\s{2,}", " ", s)` call.
- `str_order.dfy` models string order and `sorted` of a set.
- `paths.dfy` models `pathlib` parts, name, suffix, stem and `str`, plus
  `os.path.join`.
- The four core files are modelled in `rpps_names.dfy`,
  `lapidar_metadata.dfy`, `build_index.dfy`, `ingest_all.dfy` and
  `prepare_txt.dfy`.

The model takes the source's form:
- Pure helpers become functions and predicates.
- The loops of `extract_rpps_from_text`, `list_txts`, `build` and the
  cleaning pass become methods with loop invariants. Each method is proved
  equal to a specification function, and the properties are proved about
  those functions.
- The cleaning pass rewrites an `array` of records in place.
- The ingester's module-level `state` dictionary, and the texts it writes,
  are the two `map` fields of the class `IngestAll.Ingest`.

Collaborators are function-valued parameters:
- the regex engine (`findAll(pattern, text)` stands for `re.findall`);
- file reading, the embedder, `fix_string`;
- `sha256_file`, `extract_any_text`, `ocr_pdf`, the PDF and DOCX
  extractors, and whether a write succeeds.

An `Option` result of `None`, or `false` for writes, stands for "the call
raised".

## Model

| member | source | states |
|---|---|---|
| RppsNames.IsBancoIgnoresCase | lapidar_metadata.py:33-35 | `is_banco` gives the same answer for the text upper-cased, lower-cased or title-cased |
| RppsNames.IsBanco | lapidar_metadata.py:33-35 | defines `is_banco`: the upper-cased text contains one of the ten denylisted words (no contract of its own; see IsBancoIgnoresCase and ExtractBancoEmpty) |
| RppsNames.ThirdAnchorRedundant | lapidar_metadata.py:46 | a name containing "INSTITUTO DE PREVIDÊNCIA" contains both "PREV" and the disqualifying "INSTITUTO DE PREV" |
| RppsNames.RppsValido | lapidar_metadata.py:37-46 | defines `rpps_valido` with the three anchors as written (no contract of its own; see RppsValidoIff) |
| RppsNames.RppsValidoIff | lapidar_metadata.py:37-46 | a name is valid iff, upper-cased and stripped, it has at least 10 characters, none of the nine disqualifying words, and "IPRE" or "PREV" |
| RppsNames.RppsValidoIgnoresCase | lapidar_metadata.py:37-38 | validity is the same for the name upper-cased, lower-cased or title-cased |
| RppsNames.RejectsInstitutoDePrev | lapidar_metadata.py:13-44 | every name that mentions "INSTITUTO DE PREV", in any case, is rejected |
| RppsNames.TitleKeepsLayout | lapidar_metadata.py:51 | title-casing adds no newline and no adjacent whitespace |
| RppsNames.StripMakesTidy | lapidar_metadata.py:51 | stripping a newline-free string with no adjacent whitespace gives a tidy string |
| RppsNames.Normalizar | lapidar_metadata.py:48-51 | defines `normalizar` as newline replacement, whitespace collapse, `title` and `strip` (no contract of its own; see NormalizarTidy and NormalizarIdempotent) |
| RppsNames.NormalizarTidy | lapidar_metadata.py:48-51 | the output of `normalizar` has no newline, no two whitespace characters in a row, and no whitespace at either end |
| RppsNames.TitleOfStrippedTitle | lapidar_metadata.py:51 | title-casing a stripped title-cased string leaves it unchanged |
| RppsNames.NormalizarIdempotent | lapidar_metadata.py:48-51 | `normalizar(normalizar(x)) == normalizar(x)` |
| Text.CollapseSpacesShape | lapidar_metadata.py:50 | after `re.sub(r"\s{2,}", " ", s)` no two whitespace characters are adjacent, and the first character is whitespace iff it was before |
| Text.CollapseSpacesNoop | lapidar_metadata.py:50 | the substitution leaves a string with no adjacent whitespace unchanged |
| Text.CollapseSpacesPrefix | lapidar_metadata.py:50 | a prefix with no adjacent whitespace that ends in a non-space survives the substitution unchanged at the front |
| Text.StripIdempotent | lapidar_metadata.py:51 | `strip()` is idempotent |
| Text.UpperStrip | lapidar_metadata.py:38 | upper-casing and stripping commute |
| Text.ContainsStrip | lapidar_metadata.py:38-43 | stripping keeps every occurrence of a word that neither starts nor ends with whitespace |
| LapidarMetadata.CleanNameClean | lapidar_metadata.py:62-63 | a candidate kept after `normalizar` and `rpps_valido` is valid, already normalised and tidy |
| LapidarMetadata.CleanCandidate | lapidar_metadata.py:62-63 | the step on one candidate, as a loop-body helper: returns the normalised candidate exactly when it is valid, and a returned name is valid, already normalised and tidy |
| LapidarMetadata.AddMatches | lapidar_metadata.py:61-64 | the inner loop adds to the set exactly the names that cleaning one pattern's matches keeps |
| LapidarMetadata.CollectNames | lapidar_metadata.py:55-64 | the nested loops collect exactly the names that cleaning the patterns' matches keeps |
| StrOrder.SortSet | lapidar_metadata.py:66 | `sorted` of the collected set: the result is strictly ascending and holds exactly the set's names, and it is the unique such listing |
| LapidarMetadata.ExtractRppsFromText | lapidar_metadata.py:53-66 | returns nothing for a bank's text, and otherwise the sorted list of the collected names |
| LapidarMetadata.ValidNamesIff | lapidar_metadata.py:61-64 | a name is collected from some matches iff cleaning one of them yields it |
| LapidarMetadata.FoundIff | lapidar_metadata.py:60-64 | a name is collected by the pattern loop iff cleaning some match of some pattern yields it |
| LapidarMetadata.ExtractBancoEmpty | lapidar_metadata.py:57-58 | a bank's text yields `[]` whatever the patterns match |
| LapidarMetadata.ExtractMembers | lapidar_metadata.py:53-66 | the result is strictly ascending, with no duplicates. A name is in it iff the text is not a bank's and cleaning some pattern match yields that name |
| LapidarMetadata.ExtractClean | lapidar_metadata.py:62-64 | every extracted name is valid, normalised and tidy |
| LapidarMetadata.InstitutoSurvivesNormalizar | lapidar_metadata.py:30-51 | a match of the fifth pattern still contains "INSTITUTO DE PREV" after `normalizar` and upper-casing |
| LapidarMetadata.InstitutoMatchRejected | lapidar_metadata.py:22-44 | no match of the fifth pattern passes `rpps_valido` after `normalizar` |
| LapidarMetadata.InstitutoNamesEmpty | lapidar_metadata.py:30-64 | the fifth pattern's matches contribute no name |
| LapidarMetadata.InstitutoPatternIsDead | lapidar_metadata.py:25-66 | extraction returns the same list with the fifth pattern's matches dropped |
| LapidarMetadata.CleanExisting | lapidar_metadata.py:78-82 | the loop over stored names returns the valid normalised ones, in order |
| LapidarMetadata.KeepValidFrom | lapidar_metadata.py:79-82 | every kept name is the cleaned form of a stored name |
| LapidarMetadata.KeepValidClean | lapidar_metadata.py:79-82 | every kept name is valid, normalised and tidy |
| LapidarMetadata.KeepValidFixpoint | lapidar_metadata.py:79-82 | stored names that cleaning leaves as they are are all kept, in order |
| LapidarMetadata.CleanNamesStable | lapidar_metadata.py:79-82 | names that are already valid and normalised pass the loop unchanged |
| LapidarMetadata.CleanOne | lapidar_metadata.py:75-94 | one record: keeps its valid stored names, re-extracts from a non-empty text when none survive, sets the canonical name, and reports whether it refilled |
| LapidarMetadata.Lapidar | lapidar_metadata.py:71-94 | rewrites each record in place to its cleaned form, in order; returns the refilled count and the count of records left with a name |
| LapidarMetadata.CleanAllIndex | lapidar_metadata.py:74-94 | record k after the pass is record k cleaned on its own; the record count is unchanged |
| LapidarMetadata.CleanRecordValid | lapidar_metadata.py:90-94 | a cleaned record holds only valid, normalised, tidy names. Its canonical name is the first of them, or None. Its text and other fields are unchanged |
| LapidarMetadata.CleanRecordPrefersStored | lapidar_metadata.py:78-88 | valid stored names are kept; only a record with none and a non-empty text is refilled from the text; otherwise it ends empty |
| LapidarMetadata.CleanRecordIdempotent | lapidar_metadata.py:74-94 | a second pass leaves every record as the first pass left it |
| LapidarMetadata.RefilledOnlyOnce | lapidar_metadata.py:85-88 | a cleaned record is never refilled by a second pass |
| LapidarMetadata.CountsBounded | lapidar_metadata.py:71-91 | `preenchidos <= limpos <= len(data)` |
| BuildIndex.ListTxts | embeddings/build_index.py:18-22 | lists the walk's ".txt" files, joined to their directory, in walk order |
| BuildIndex.TxtPathsAreTxt | embeddings/build_index.py:21-22 | every listed path ends in ".txt" |
| BuildIndex.TxtPathsComplete | embeddings/build_index.py:19-22 | every ".txt" file the walk visits is listed |
| BuildIndex.Clip | embeddings/build_index.py:49 | the embedded text is a prefix of the content, at most 5000 characters long, and the whole content when that is short enough |
| BuildIndex.IsValidVector | embeddings/build_index.py:24-29 | defines `is_valid_vector`: a list or array, which excludes `None`, with at least one entry (no contract of its own; see FileVector) |
| BuildIndex.FileVector | embeddings/build_index.py:47-58 | the vector one file contributes. When there is one, the file was read, the embedder returned a valid vector for its first 5000 characters, and that vector has 768 entries |
| BuildIndex.VectorsAligned | embeddings/build_index.py:57-58 | `vectors` and `metadata` have the same length. Entry k of each comes from the k-th kept file |
| BuildIndex.KeptIff | embeddings/build_index.py:46-62 | the kept positions ascend. A file is kept iff it was read, embedded, and its vector was valid and 768 long |
| BuildIndex.VectorsHaveDim | embeddings/build_index.py:53-57 | every kept vector has exactly 768 entries |
| BuildIndex.NoEmbeddingsIff | embeddings/build_index.py:64-66 | nothing is written iff no file yields a vector |
| BuildIndex.Build | embeddings/build_index.py:39-81 | returns no index when no vector survives. Otherwise it returns a 768-dimensional flat index over the kept vectors and the metadata paths, in the same order |
| IngestAll.Decide | ingest/ingest_all.py:14-37 | defines how one call of `process_document` ends: failed, already current, no useful text, or processed (no contract of its own; see SkipWhenCurrent, ProcessedMeans and OnlyOwnKeyChanges) |
| IngestAll.NextState | ingest/ingest_all.py:18-33 | defines the state after one call: the hash is set at `str(path)` only when the document was processed (no contract of its own; see OnlyOwnKeyChanges and ProcessTwice) |
| IngestAll.IsCandidate | ingest/ingest_all.py:42-44 | defines the selection test on one path (no contract of its own; see SelectedIff) |
| IngestAll.Selected | ingest/ingest_all.py:40-45 | defines the list comprehension `pdfs` (no contract of its own; see SelectedIff) |
| IngestAll.Ingest.ProcessDocument | ingest/ingest_all.py:14-37 | sets the state and the written texts to what one call decides: unchanged when skipped, failed or short; otherwise the text is written and then the hash is recorded |
| IngestAll.Ingest.RunAll | ingest/ingest_all.py:39-50 | processes the selected documents in order; the state and the texts are those of the sequential run |
| IngestAll.SkipWhenCurrent | ingest/ingest_all.py:16-19 | a document whose stored hash matches is skipped whatever the extractors do, and nothing changes |
| IngestAll.OcrOnlyWhenShort | ingest/ingest_all.py:21-24 | OCR is not consulted when the extracted text is useful |
| IngestAll.ProcessedMeans | ingest/ingest_all.py:16-33 | a processed document was hashed. Its text is useful: the extracted text if that was useful, otherwise the OCR text. That text was written to `raw_txt/<stem>.txt`, and only then was the hash recorded |
| IngestAll.OnlyOwnKeyChanges | ingest/ingest_all.py:18-37 | a skipped, short or failing document changes neither state nor files; any call changes at most the key `str(path)` |
| IngestAll.ProcessTwice | ingest/ingest_all.py:18-33 | a processed document is current afterwards, so processing it again changes nothing |
| IngestAll.SelectedIff | ingest/ingest_all.py:40-45 | a file is selected iff it was found, its lower-cased suffix is .pdf, .doc or .docx, and no part is "raw_txt" or "processed_txt" |
| IngestAll.RunStateFrame | ingest/ingest_all.py:49-50 | a run changes only the keys of the documents it processes, and each changed key holds that document's hash |
| PrepareTxt.CleanText | ingest/prepare_txt.py:13-18 | the output has no whitespace at either end |
| PrepareTxt.CleanTextClean | ingest/prepare_txt.py:13-18 | the output has no '\r' and no U+00A0, is trimmed, and is no longer than the input |
| PrepareTxt.CleanTextFixpointIff | ingest/prepare_txt.py:13-18 | `clean_text(t) == t` iff `t` is already clean |
| PrepareTxt.CleanTextIdempotent | ingest/prepare_txt.py:13-18 | `clean_text` is idempotent |
| PrepareTxt.ExtractTextFromDocument | ingest/prepare_txt.py:32-87 | every result has no whitespace at either end (its branches are stated by the lemmas below) |
| PrepareTxt.ExtractDependsOnSuffix | ingest/prepare_txt.py:41-42 | the result depends only on the lower-cased suffix and the extractor results, so ".PDF" behaves as ".pdf" |
| PrepareTxt.UnsupportedIsEmpty | ingest/prepare_txt.py:78-87 | ".doc" and unknown suffixes yield "" whatever the extractors return |
| PrepareTxt.LongPdfIgnoresOcr | ingest/prepare_txt.py:47-62 | a PDF whose extracted text is at least 30 characters long once stripped yields its cleaned text, whatever OCR would return |
| PrepareTxt.ShortPdfUsesOcr | ingest/prepare_txt.py:48-62 | a PDF whose extraction raised or gave a text shorter than 30 characters once stripped yields the cleaned OCR text, or "" when OCR raised |
| PrepareTxt.DocxResult | ingest/prepare_txt.py:67-73 | a DOCX yields its cleaned text, or "" when extraction raised |
| PrepareTxt.ExtractIsClean | ingest/prepare_txt.py:32-87 | every result is clean, and cleaning it again changes nothing |

## Left out

- JSON loading and dumping, the backup write and all `print` output are left out (`lapidar_metadata.py:69, 96-110`; `build_index.py` prints; `ingest_all.py` prints). `Lapidar` takes the loaded records and returns the counters.
- The regex engine is a parameter. `findAll(pattern, text)` stands for `re.findall`. The fifth pattern's shape is stated as `InstitutoMatch`, which is a premise of the lemmas about it.
- Case mapping covers the ASCII letters, the Latin-1 letters U+00C0..U+00FF, and the cased Latin-1 characters "ª", "µ" and "º". "µ" upper-cases to the Greek "Μ" (U+039C), whose lower case "μ" (U+03BC) is modelled too. Python's `upper` expands "ß" to "SS" and `title` gives "Ss"; the model leaves "ß" as it is. Every other character is treated as uncased and left unchanged. Whitespace is Python's `str.isspace` set.
- `normalize` (NFKD and dropping combining marks, `prepare_txt.py:21-25`) is not modelled: no modelled code calls it. `fix_string` (`build_index.py:31-37`) is a parameter `fix`.
- `PrepareTxt.CleanText` does not take `None`. The extractors are modelled as returning strings or raising, so the `None` case of `clean_text` cannot arise.
- The embedder's floating-point values, the `float32` conversion and FAISS are left out. The index is modelled as its dimension and its vectors in order, and writing it and the metadata is the `Written` result.
- `os.walk` and `Path.rglob` are inputs: the walk's directories and files, and the found paths, in the order they yield them.
- `load_state` and `save_state` (JSON files) and `sha256_file` are left out. The hash is an opaque string, and `RunAll` leaves saving the state to its caller.
- Paths are modelled with POSIX separators: `str(path)` and `os.path.join` join with "/". On Windows they use `\`. The state keys are opaque strings, so no stated property depends on the separator.
- `LapidarMetadata.Record` always has a text and a list of names, so the defaults of `d.get("text", "")` and `d.get("rpps", [])` are taken as already applied. A record whose "rpps" is JSON `null` makes the source raise `TypeError` at `lapidar_metadata.py:79`; the model does not represent it.
- A write that fails part-way is treated as not having happened. The model only records whether the write succeeded.
- `ocr_local.py`, `extract_text.py`, `embedder.py`, `pdf_state.py` and the API modules are not part of this model. Their calls are parameters.
