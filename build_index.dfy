/** The vector-index builder (embeddings/build_index.py): it lists the ".txt"
    files under the processed-text directory, embeds the first 5000
    characters of each, keeps the vectors that are non-empty lists or arrays
    of exactly 768 numbers, and, when at least one is kept, builds a flat L2
    index over them together with a metadata list holding each kept file's
    path, in the same order. */
module BuildIndex {
  import opened Wrappers
  import opened Text
  import opened Paths

  /** The number of characters of a file that are embedded. */
  const MAX_CHARS := 5000

  /** The dimension every kept vector must have. */
  const DIM := 768

  // ---------------------------------------------------------------------
  // list_txts
  // ---------------------------------------------------------------------

  /** One step of `os.walk`: a directory and the names of the files in it. */
  datatype WalkEntry = WalkEntry(root: string, files: seq<string>)

  /** The paths of the ".txt" files among `files`, joined to `root`, in order. */
  function TxtsIn(root: string, files: seq<string>): seq<string>
    decreases |files|
  {
    if files == [] then []
    else
      var f := files[|files| - 1];
      TxtsIn(root, files[..|files| - 1]) + (if EndsWith(f, ".txt") then [Join(root, f)] else [])
  }

  /** Everything `list_txts` yields for a walk, in the walk's order. */
  function TxtPaths(walk: seq<WalkEntry>): seq<string>
    decreases |walk|
  {
    if walk == [] then []
    else
      var e := walk[|walk| - 1];
      TxtPaths(walk[..|walk| - 1]) + TxtsIn(e.root, e.files)
  }

  /** Extending the files of a directory by one appends that file's path
      when it is a ".txt" file. */
  lemma TxtsInSnoc(root: string, files: seq<string>, k: nat)
    requires k < |files|
    ensures TxtsIn(root, files[..k + 1]) ==
      TxtsIn(root, files[..k]) + (if EndsWith(files[k], ".txt") then [Join(root, files[k])] else [])
  {
    assert files[..k + 1][..k] == files[..k];
  }

  /** Extending the walk by one directory appends that directory's paths. */
  lemma TxtPathsSnoc(walk: seq<WalkEntry>, w: nat)
    requires w < |walk|
    ensures TxtPaths(walk[..w + 1]) == TxtPaths(walk[..w]) + TxtsIn(walk[w].root, walk[w].files)
  {
    assert walk[..w + 1][..w] == walk[..w];
  }

  /** `list(list_txts())`, given the directories `os.walk` visits. */
  method ListTxts(walk: seq<WalkEntry>) returns (paths: seq<string>)
    ensures paths == TxtPaths(walk)
  {
    paths := [];
    var w := 0;
    while w < |walk|
      invariant 0 <= w <= |walk|
      invariant paths == TxtPaths(walk[..w])
    {
      var e := walk[w];
      var found: seq<string> := [];
      var k := 0;
      while k < |e.files|
        invariant 0 <= k <= |e.files|
        invariant found == TxtsIn(e.root, e.files[..k])
      {
        var f := e.files[k];
        TxtsInSnoc(e.root, e.files, k);
        if EndsWith(f, ".txt") {
          found := found + [Join(e.root, f)];
        }
        k := k + 1;
      }
      assert e.files[..k] == e.files;
      paths := paths + found;
      TxtPathsSnoc(walk, w);
      w := w + 1;
    }
    assert walk[..w] == walk;
  }

  lemma {:induction false} TxtsInAreTxt(root: string, files: seq<string>)
    ensures forall p :: p in TxtsIn(root, files) ==> EndsWith(p, ".txt")
    decreases |files|
  {
    if files != [] {
      var f := files[|files| - 1];
      TxtsInAreTxt(root, files[..|files| - 1]);
      if EndsWith(f, ".txt") {
        EndsWithTransitive(Join(root, f), f, ".txt");
      }
    }
  }

  /** Every listed path names a ".txt" file. */
  lemma {:induction false} TxtPathsAreTxt(walk: seq<WalkEntry>)
    ensures forall p :: p in TxtPaths(walk) ==> EndsWith(p, ".txt")
    decreases |walk|
  {
    if walk != [] {
      var e := walk[|walk| - 1];
      TxtPathsAreTxt(walk[..|walk| - 1]);
      TxtsInAreTxt(e.root, e.files);
    }
  }

  lemma {:induction false} TxtsInComplete(root: string, files: seq<string>, k: nat)
    requires k < |files| && EndsWith(files[k], ".txt")
    ensures Join(root, files[k]) in TxtsIn(root, files)
    decreases |files|
  {
    if k < |files| - 1 {
      TxtsInComplete(root, files[..|files| - 1], k);
    }
  }

  /** Every ".txt" file the walk visits is listed. */
  lemma {:induction false} TxtPathsComplete(walk: seq<WalkEntry>, w: nat, k: nat)
    requires w < |walk| && k < |walk[w].files| && EndsWith(walk[w].files[k], ".txt")
    ensures Join(walk[w].root, walk[w].files[k]) in TxtPaths(walk)
    decreases |walk|
  {
    if w < |walk| - 1 {
      TxtPathsComplete(walk[..|walk| - 1], w, k);
    } else {
      TxtsInComplete(walk[w].root, walk[w].files, k);
    }
  }

  // ---------------------------------------------------------------------
  // One file: read, clip, embed, check
  // ---------------------------------------------------------------------

  /** What the embedder can return: `None`, a list, an array, or anything else. */
  datatype Embedding = NoneValue | ListValue(xs: seq<real>) | ArrayValue(xs: seq<real>) | OtherValue

  /** `is_valid_vector(v)`: a non-empty list or array. */
  predicate IsValidVector(v: Embedding) {
    (v.ListValue? || v.ArrayValue?) && |v.xs| > 0
  }

  /** `content[:5000]`. */
  function Clip(content: string): (r: string)
    ensures |r| <= MAX_CHARS
    ensures r <= content
    ensures |content| <= MAX_CHARS ==> r == content
  {
    if |content| <= MAX_CHARS then content else content[..MAX_CHARS]
  }

  /** Reading a file (`None`: it raised, e.g. on invalid UTF-8). */
  type Reader = string -> Option<string>

  /** The embedder (`None`: it raised). */
  type Embedder = string -> Option<Embedding>

  /** The vector a file contributes, or `None` when reading or embedding
      raised or the vector is invalid or not 768 long. A kept vector is a
      valid embedding of the file's first 5000 characters and has 768
      entries. */
  function FileVector(path: string, read: Reader, embed: Embedder): (r: Option<seq<real>>)
    ensures r.Some? ==> |r.value| == DIM && read(path).Some?
    ensures r.Some? ==> var e := embed(Clip(read(path).value));
      e.Some? && IsValidVector(e.value) && e.value.xs == r.value
  {
    match read(path)
    case None => None
    case Some(content) =>
      match embed(Clip(content))
      case None => None
      case Some(vec) =>
        if !IsValidVector(vec) || |vec.xs| != DIM then None else Some(vec.xs)
  }

  // ---------------------------------------------------------------------
  // build
  // ---------------------------------------------------------------------

  /** The vectors appended for `paths`, in order. */
  function Vectors(paths: seq<string>, read: Reader, embed: Embedder): seq<seq<real>>
    decreases |paths|
  {
    if paths == [] then []
    else
      var p := paths[|paths| - 1];
      Vectors(paths[..|paths| - 1], read, embed)
        + (match FileVector(p, read, embed) case None => [] case Some(v) => [v])
  }

  /** The metadata paths appended for `paths`, in order. */
  function Metadata(paths: seq<string>, read: Reader, embed: Embedder, fix: string -> string): seq<string>
    decreases |paths|
  {
    if paths == [] then []
    else
      var p := paths[|paths| - 1];
      Metadata(paths[..|paths| - 1], read, embed, fix)
        + (if FileVector(p, read, embed).Some? then [fix(p)] else [])
  }

  /** The positions in `paths` of the files whose vector is kept, ascending. */
  function Kept(paths: seq<string>, read: Reader, embed: Embedder): seq<nat>
    decreases |paths|
  {
    if paths == [] then []
    else
      Kept(paths[..|paths| - 1], read, embed)
        + (if FileVector(paths[|paths| - 1], read, embed).Some? then [|paths| - 1] else [])
  }

  /** A flat L2 index: its dimension and the vectors added to it, in order. */
  datatype FlatIndex = FlatIndex(dim: nat, vectors: seq<seq<real>>)

  /** What `build` leaves behind: nothing, when no vector is kept, or the
      index and the metadata it writes. */
  datatype BuildResult = NoEmbeddings | Written(index: FlatIndex, metadata: seq<string>)

  function BuildSpec(paths: seq<string>, read: Reader, embed: Embedder, fix: string -> string): BuildResult {
    var vs := Vectors(paths, read, embed);
    if vs == [] then NoEmbeddings
    else Written(FlatIndex(DIM, vs), Metadata(paths, read, embed, fix))
  }

  /** The kept vectors and the metadata entries line up one to one with the
      kept files: entry k of each comes from file `Kept[k]`. */
  lemma {:induction false} VectorsAligned(paths: seq<string>, read: Reader, embed: Embedder, fix: string -> string)
    ensures var ks := Kept(paths, read, embed);
      && |Vectors(paths, read, embed)| == |ks|
      && |Metadata(paths, read, embed, fix)| == |ks|
      && forall k :: 0 <= k < |ks| ==>
           && ks[k] < |paths|
           && FileVector(paths[ks[k]], read, embed) == Some(Vectors(paths, read, embed)[k])
           && Metadata(paths, read, embed, fix)[k] == fix(paths[ks[k]])
    decreases |paths|
  {
    if paths != [] {
      var init := paths[..|paths| - 1];
      VectorsAligned(init, read, embed, fix);
      var ks := Kept(paths, read, embed);
      var ks0 := Kept(init, read, embed);
      forall k | 0 <= k < |ks0| ensures paths[ks0[k]] == init[ks0[k]] {
      }
    }
  }

  /** The kept positions ascend, and a position is kept exactly when its
      file yields a vector. */
  lemma {:induction false} KeptIff(paths: seq<string>, read: Reader, embed: Embedder)
    ensures var ks := Kept(paths, read, embed);
      && (forall i, j :: 0 <= i < j < |ks| ==> ks[i] < ks[j])
      && (forall j: nat :: j in ks <==> j < |paths| && FileVector(paths[j], read, embed).Some?)
    decreases |paths|
  {
    if paths != [] {
      var init := paths[..|paths| - 1];
      KeptIff(init, read, embed);
      var ks0 := Kept(init, read, embed);
      forall i | 0 <= i < |ks0| ensures ks0[i] < |init| {
        assert ks0[i] in ks0;
      }
      forall j: nat | j < |init| ensures paths[j] == init[j] {
      }
    }
  }

  /** Every kept vector has 768 entries. */
  lemma {:induction false} VectorsHaveDim(paths: seq<string>, read: Reader, embed: Embedder)
    ensures forall v :: v in Vectors(paths, read, embed) ==> |v| == DIM
    decreases |paths|
  {
    if paths != [] {
      VectorsHaveDim(paths[..|paths| - 1], read, embed);
    }
  }

  /** Nothing is written exactly when no file yields a vector. */
  lemma NoEmbeddingsIff(paths: seq<string>, read: Reader, embed: Embedder, fix: string -> string)
    ensures BuildSpec(paths, read, embed, fix) == NoEmbeddings
        <==> forall j :: 0 <= j < |paths| ==> FileVector(paths[j], read, embed) == None
  {
    VectorsAligned(paths, read, embed, fix);
    KeptIff(paths, read, embed);
    var ks := Kept(paths, read, embed);
    if ks != [] {
      assert ks[0] in ks;
    }
  }

  /** `build()`, given the walk of the processed-text directory, the file
      reader, the embedder and `fix_string`. */
  method Build(walk: seq<WalkEntry>, read: Reader, embed: Embedder, fix: string -> string)
    returns (result: BuildResult)
    ensures result == BuildSpec(TxtPaths(walk), read, embed, fix)
  {
    var metadata: seq<string> := [];
    var vectors: seq<seq<real>> := [];
    var txtFiles := ListTxts(walk);
    var i := 0;
    while i < |txtFiles|
      invariant 0 <= i <= |txtFiles|
      invariant vectors == Vectors(txtFiles[..i], read, embed)
      invariant metadata == Metadata(txtFiles[..i], read, embed, fix)
    {
      var path := txtFiles[i];
      assert txtFiles[..i + 1][..i] == txtFiles[..i];
      match read(path) {
        case None =>
        case Some(content) =>
          var clipped := Clip(content);
          match embed(clipped) {
            case None =>
            case Some(vec) =>
              if !IsValidVector(vec) || |vec.xs| != DIM {
              } else {
                vectors := vectors + [vec.xs];
                metadata := metadata + [fix(path)];
              }
          }
      }
      i := i + 1;
    }
    assert txtFiles[..i] == txtFiles;
    if |vectors| == 0 {
      return NoEmbeddings;
    }
    VectorsHaveDim(txtFiles, read, embed);
    assert vectors[0] in vectors;
    var dim := |vectors[0]|;
    result := Written(FlatIndex(dim, vectors), metadata);
  }
}
