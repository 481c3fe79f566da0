/** Ingestion of reference faces: the upload handler (upload_references) and
    the bulk loader (load_folder). Each walks its files in order, labels every
    embedding found in a file with the person read off the file's name, stages
    one row per embedding and counts them. The face model's output for each
    file is given; what is staged is what the final commit writes. */
module Ingestion {
  import opened Wrappers
  import opened Embeddings
  import opened Filenames

  /** A file handed to the service, with the embeddings the face model found in it. */
  datatype ImageFile<V> = ImageFile(filename: string, embeddings: seq<V>)

  /** The rows staged in the database session and the running count the handler reports. */
  datatype Staged<V> = Staged(rows: seq<FaceEmbedding<V>>, added: nat)

  /** The number of embeddings across `files`. */
  function EmbeddingCount<V>(files: seq<ImageFile<V>>): nat {
    if files == [] then 0
    else EmbeddingCount(files[..|files| - 1]) + |files[|files| - 1].embeddings|
  }

  /** The number of embeddings in the files before position `i`: where the
      rows of the i-th file start. */
  function Offset<V>(files: seq<ImageFile<V>>, i: nat): nat
    requires i <= |files|
  {
    EmbeddingCount(files[..i])
  }

  /** The inner loop both handlers share: add one row per embedding of a file
      under the file's label, counting each. */
  method StageEmbeddings<V>(rows: seq<FaceEmbedding<V>>, count: nat, person: string, embeddings: seq<V>)
    returns (rows': seq<FaceEmbedding<V>>, count': nat)
    ensures rows' == rows + Tagged(person, embeddings)
    ensures count' == count + |embeddings|
  {
    rows', count' := rows, count;
    for j := 0 to |embeddings|
      invariant rows' == rows + Tagged(person, embeddings[..j])
      invariant count' == count + j
    {
      assert Tagged(person, embeddings[..j + 1]) == Tagged(person, embeddings[..j]) + [FaceEmbedding(person, embeddings[j])];
      rows' := rows' + [FaceEmbedding(person, embeddings[j])];
      count' := count' + 1;
    }
    assert embeddings[..|embeddings|] == embeddings;
  }

  // ---------------------------------------------------------------------------
  // Reference upload
  // ---------------------------------------------------------------------------

  /** The rows an upload of `files` commits when `labelOf` reads the labels
      (UploadLabel in the handler), or the name of the first file it gives no
      label for: the request then fails and nothing is committed. */
  function ReferenceRows<V>(files: seq<ImageFile<V>>, labelOf: string -> Option<string>)
    : (r: Result<seq<FaceEmbedding<V>>, string>)
    ensures r.Success? ==> |r.value| == EmbeddingCount(files)
    ensures r.Failure? ==> exists i | 0 <= i < |files| :: files[i].filename == r.error && labelOf(r.error).None?
  {
    if files == [] then Success([])
    else
      var last := files[|files| - 1];
      match ReferenceRows(files[..|files| - 1], labelOf)
      case Failure(name) => Failure(name)
      case Success(rows) =>
        match labelOf(last.filename)
        case None => Failure(last.filename)
        case Some(person) => Success(rows + Tagged(person, last.embeddings))
  }

  /** An upload succeeds exactly when every file name yields a label. */
  lemma {:induction false} ReferenceRowsSucceedIffAllLabelled<V>(files: seq<ImageFile<V>>, labelOf: string -> Option<string>)
    ensures ReferenceRows(files, labelOf).Success?
        <==> forall i | 0 <= i < |files| :: labelOf(files[i].filename).Some?
  {
    if files != [] {
      var init := files[..|files| - 1];
      var last := files[|files| - 1];
      ReferenceRowsSucceedIffAllLabelled(init, labelOf);
      if ReferenceRows(init, labelOf).Failure? {
        var i :| 0 <= i < |init| && labelOf(init[i].filename).None?;
        assert files[i] == init[i];
      } else if labelOf(last.filename).Some? {
        forall i | 0 <= i < |files|
          ensures labelOf(files[i].filename).Some?
        {
          if i < |init| {
            assert files[i] == init[i];
          }
        }
      }
    }
  }

  /** A failed upload names the first file whose name yields no label. */
  lemma {:induction false} ReferenceRowsFailsAtFirstUnlabelled<V>(files: seq<ImageFile<V>>, labelOf: string -> Option<string>)
    requires ReferenceRows(files, labelOf).Failure?
    ensures exists i | 0 <= i < |files| ::
      && files[i].filename == ReferenceRows(files, labelOf).error
      && labelOf(files[i].filename).None?
      && forall j | 0 <= j < i :: labelOf(files[j].filename).Some?
  {
    var init := files[..|files| - 1];
    var last := files[|files| - 1];
    if ReferenceRows(init, labelOf).Failure? {
      ReferenceRowsFailsAtFirstUnlabelled(init, labelOf);
      var i :| 0 <= i < |init| && init[i].filename == ReferenceRows(init, labelOf).error
        && labelOf(init[i].filename).None?
        && forall j | 0 <= j < i :: labelOf(init[j].filename).Some?;
      assert forall j | 0 <= j <= i :: files[j] == init[j];
    } else {
      ReferenceRowsSucceedIffAllLabelled(init, labelOf);
      assert forall j | 0 <= j < |init| :: files[j] == init[j];
      assert files[|files| - 1].filename == ReferenceRows(files, labelOf).error;
    }
  }

  /** A successful upload commits one row per embedding, and each row
      carries the label read off the name of a file its embedding came from. */
  lemma {:induction false} ReferenceRowsContents<V>(files: seq<ImageFile<V>>, labelOf: string -> Option<string>)
    requires ReferenceRows(files, labelOf).Success?
    ensures var rows := ReferenceRows(files, labelOf).value;
      && |rows| == EmbeddingCount(files)
      && forall r | r in rows ::
           exists i | 0 <= i < |files| ::
             labelOf(files[i].filename) == Some(r.person) && r.embedding in files[i].embeddings
  {
    if files != [] {
      var init := files[..|files| - 1];
      var last := files[|files| - 1];
      ReferenceRowsContents(init, labelOf);
      var person := labelOf(last.filename).value;
      var rows := ReferenceRows(files, labelOf).value;
      var tagged := Tagged(person, last.embeddings);
      assert rows == ReferenceRows(init, labelOf).value + tagged;
      forall r | r in rows
        ensures exists i | 0 <= i < |files| ::
          labelOf(files[i].filename) == Some(r.person) && r.embedding in files[i].embeddings
      {
        if r in ReferenceRows(init, labelOf).value {
          var i :| 0 <= i < |init| &&
            labelOf(init[i].filename) == Some(r.person) && r.embedding in init[i].embeddings;
          assert files[i] == init[i];
        } else {
          var k :| 0 <= k < |tagged| && tagged[k] == r;
          assert files[|files| - 1] == last;
        }
      }
    }
  }

  /** Where each file's rows land in a successful upload: the rows of the
      i-th file are the block after the rows of the files before it, and
      that block is its embeddings, in order, under the label read off its
      name. With the row count, every embedding has exactly one row and
      every row one embedding. */
  lemma {:induction false} ReferenceRowsPositions<V>(files: seq<ImageFile<V>>, labelOf: string -> Option<string>)
    requires ReferenceRows(files, labelOf).Success?
    ensures var rows := ReferenceRows(files, labelOf).value;
      forall i | 0 <= i < |files| ::
        && labelOf(files[i].filename).Some?
        && Offset(files, i) + |files[i].embeddings| <= |rows|
        && rows[Offset(files, i)..Offset(files, i) + |files[i].embeddings|]
             == Tagged(labelOf(files[i].filename).value, files[i].embeddings)
  {
    if files != [] {
      var init := files[..|files| - 1];
      var last := files[|files| - 1];
      assert ReferenceRows(init, labelOf).Success?;
      ReferenceRowsPositions(init, labelOf);
      var before := ReferenceRows(init, labelOf).value;
      var tagged := Tagged(labelOf(last.filename).value, last.embeddings);
      var rows := ReferenceRows(files, labelOf).value;
      assert rows == before + tagged;
      forall i | 0 <= i < |files|
        ensures && labelOf(files[i].filename).Some?
                && Offset(files, i) + |files[i].embeddings| <= |rows|
                && rows[Offset(files, i)..Offset(files, i) + |files[i].embeddings|]
                     == Tagged(labelOf(files[i].filename).value, files[i].embeddings)
      {
        BlockAfterAppend(files, i, before, tagged);
      }
    }
  }

  /** Appending the last file's rows keeps every earlier file's block and
      puts the last file's rows right after them. */
  lemma BlockAfterAppend<V>(files: seq<ImageFile<V>>, i: nat, before: seq<FaceEmbedding<V>>, tagged: seq<FaceEmbedding<V>>)
    requires i < |files|
    requires |before| == EmbeddingCount(files[..|files| - 1])
    requires i < |files| - 1 ==>
      var init := files[..|files| - 1];
      Offset(init, i) + |init[i].embeddings| <= |before|
    ensures i < |files| - 1 ==>
      && Offset(files, i) == Offset(files[..|files| - 1], i)
      && files[i] == files[..|files| - 1][i]
      && Offset(files, i) + |files[i].embeddings| <= |before|
      && (before + tagged)[Offset(files, i)..Offset(files, i) + |files[i].embeddings|]
           == before[Offset(files, i)..Offset(files, i) + |files[i].embeddings|]
    ensures i == |files| - 1 ==>
      && Offset(files, i) == |before|
      && (before + tagged)[Offset(files, i)..] == tagged
  {
    var init := files[..|files| - 1];
    if i < |init| {
      assert files[..i] == init[..i] && files[i] == init[i];
    } else {
      assert files[..i] == init;
    }
  }

  /** Under the upload naming convention every committed row carries a
      non-empty label of lower-case ASCII letters. */
  lemma UploadedLabelsAreLowerWords<V>(files: seq<ImageFile<V>>)
    requires ReferenceRows(files, UploadLabel).Success?
    ensures forall r | r in ReferenceRows(files, UploadLabel).value ::
      r.person != [] && forall c | c in r.person :: IsLowerLetter(c)
  {
    ReferenceRowsContents(files, UploadLabel);
    forall r | r in ReferenceRows(files, UploadLabel).value
      ensures r.person != [] && forall c | c in r.person :: IsLowerLetter(c)
    {
      var i :| 0 <= i < |files| &&
        UploadLabel(files[i].filename) == Some(r.person) && r.embedding in files[i].embeddings;
    }
  }

  /** Once a prefix of the files fails, the whole upload fails with the same file name. */
  lemma {:induction false} ReferenceRowsStopsAtFailure<V>(files: seq<ImageFile<V>>, n: nat, labelOf: string -> Option<string>)
    requires n <= |files|
    requires ReferenceRows(files[..n], labelOf).Failure?
    ensures ReferenceRows(files, labelOf) == ReferenceRows(files[..n], labelOf)
  {
    if n < |files| {
      assert files[..|files| - 1][..n] == files[..n];
      ReferenceRowsStopsAtFailure(files[..|files| - 1], n, labelOf);
    } else {
      assert files[..n] == files;
    }
  }

  /** Uploading one more file extends the committed rows by that file's rows, or fails on it. */
  lemma ReferenceStep<V>(files: seq<ImageFile<V>>, i: nat, labelOf: string -> Option<string>, rows: seq<FaceEmbedding<V>>)
    requires i < |files|
    requires ReferenceRows(files[..i], labelOf) == Success(rows)
    ensures var file := files[i];
      ReferenceRows(files[..i + 1], labelOf)
        == if labelOf(file.filename).None? then Failure(file.filename)
           else Success(rows + Tagged(labelOf(file.filename).value, file.embeddings))
    ensures EmbeddingCount(files[..i + 1]) == EmbeddingCount(files[..i]) + |files[i].embeddings|
  {
    assert files[..i + 1][..i] == files[..i];
  }

  /** upload_references: label each file, stage one row per embedding and
      count them; the first file without a label aborts the whole request. */
  method UploadReferences<V>(files: seq<ImageFile<V>>) returns (r: Result<Staged<V>, string>)
    ensures r.Success? <==> ReferenceRows(files, UploadLabel).Success?
    ensures r.Success? ==> r.value == Staged(ReferenceRows(files, UploadLabel).value, EmbeddingCount(files))
    ensures r.Failure? ==> r.error == ReferenceRows(files, UploadLabel).error
  {
    var rows: seq<FaceEmbedding<V>> := [];
    var added := 0;
    for i := 0 to |files|
      invariant ReferenceRows(files[..i], UploadLabel) == Success(rows)
      invariant added == EmbeddingCount(files[..i])
    {
      var file := files[i];
      ReferenceStep(files, i, UploadLabel, rows);
      var derived := UploadLabel(file.filename);
      if derived.None? {
        ReferenceRowsStopsAtFailure(files, i + 1, UploadLabel);
        return Failure(file.filename);
      }
      rows, added := StageEmbeddings(rows, added, derived.value, file.embeddings);
    }
    assert files[..|files|] == files;
    r := Success(Staged(rows, added));
  }

  // ---------------------------------------------------------------------------
  // Folder load
  // ---------------------------------------------------------------------------

  /** The files of the listing that are loaded: those whose name `isImage`
      accepts (HasImageExtension in the handler), in listing order. */
  function LoadedFiles<V>(listing: seq<ImageFile<V>>, isImage: string -> bool): (loaded: seq<ImageFile<V>>)
    ensures |loaded| <= |listing|
    ensures forall i | 0 <= i < |loaded| :: isImage(loaded[i].filename)
  {
    if listing == [] then []
    else
      var last := listing[|listing| - 1];
      LoadedFiles(listing[..|listing| - 1], isImage) + if isImage(last.filename) then [last] else []
  }

  /** A file is loaded iff it is listed and its name is accepted. */
  lemma {:induction false} LoadedFilesAreImages<V>(listing: seq<ImageFile<V>>, isImage: string -> bool)
    ensures forall f :: f in LoadedFiles(listing, isImage) <==> f in listing && isImage(f.filename)
  {
    if listing != [] {
      var init := listing[..|listing| - 1];
      LoadedFilesAreImages(init, isImage);
      assert listing == init + [listing[|listing| - 1]];
    }
  }

  /** Loading one more file adds its embeddings to the count when it is accepted. */
  lemma LoadedCountStep<V>(listing: seq<ImageFile<V>>, isImage: string -> bool)
    requires listing != []
    ensures var last := listing[|listing| - 1];
      EmbeddingCount(LoadedFiles(listing, isImage))
        == EmbeddingCount(LoadedFiles(listing[..|listing| - 1], isImage)) + if isImage(last.filename) then |last.embeddings| else 0
  {
    var init := listing[..|listing| - 1];
    var last := listing[|listing| - 1];
    var loaded := LoadedFiles(listing, isImage);
    if isImage(last.filename) {
      assert loaded[..|loaded| - 1] == LoadedFiles(init, isImage);
      assert loaded[|loaded| - 1] == last;
    } else {
      assert loaded == LoadedFiles(init, isImage);
    }
  }

  /** The rows a folder load commits: one per embedding of every loaded file,
      labelled by `labelOf` (FolderLabel in the handler). */
  function FolderRows<V>(listing: seq<ImageFile<V>>, isImage: string -> bool, labelOf: string -> string)
    : (rows: seq<FaceEmbedding<V>>)
    ensures |rows| == EmbeddingCount(LoadedFiles(listing, isImage))
  {
    if listing == [] then []
    else
      var init := listing[..|listing| - 1];
      var last := listing[|listing| - 1];
      LoadedCountStep(listing, isImage);
      FolderRows(init, isImage, labelOf)
        + if isImage(last.filename) then Tagged(labelOf(last.filename), last.embeddings) else []
  }

  /** A labelling that never fails. */
  function Total(labelOf: string -> string): string -> Option<string> {
    name => Some(labelOf(name))
  }

  /** A folder load stages what an upload of just the accepted files would,
      with a labelling that never fails. */
  lemma {:induction false} FolderRowsAsReferenceRows<V>(listing: seq<ImageFile<V>>, isImage: string -> bool, labelOf: string -> string)
    ensures ReferenceRows(LoadedFiles(listing, isImage), Total(labelOf)) == Success(FolderRows(listing, isImage, labelOf))
  {
    if listing != [] {
      var init := listing[..|listing| - 1];
      var last := listing[|listing| - 1];
      FolderRowsAsReferenceRows(init, isImage, labelOf);
      var loaded := LoadedFiles(listing, isImage);
      if isImage(last.filename) {
        assert loaded[..|loaded| - 1] == LoadedFiles(init, isImage);
        assert loaded[|loaded| - 1] == last;
      } else {
        assert loaded == LoadedFiles(init, isImage);
        assert FolderRows(listing, isImage, labelOf) == FolderRows(init, isImage, labelOf);
      }
    }
  }

  /** Where each accepted file's rows land in a folder load: the rows of the
      i-th accepted file are the block after the rows of the accepted files
      before it, and that block is its embeddings, in order, under its label.
      With the row count, every embedding of an accepted file has exactly
      one row and every row one embedding. */
  lemma FolderRowsPositions<V>(listing: seq<ImageFile<V>>, isImage: string -> bool, labelOf: string -> string)
    ensures var rows := FolderRows(listing, isImage, labelOf);
      var loaded := LoadedFiles(listing, isImage);
      forall i | 0 <= i < |loaded| ::
        && Offset(loaded, i) + |loaded[i].embeddings| <= |rows|
        && rows[Offset(loaded, i)..Offset(loaded, i) + |loaded[i].embeddings|]
             == Tagged(labelOf(loaded[i].filename), loaded[i].embeddings)
  {
    FolderRowsAsReferenceRows(listing, isImage, labelOf);
    TotalPositions(LoadedFiles(listing, isImage), labelOf, FolderRows(listing, isImage, labelOf));
  }

  /** ReferenceRowsPositions for a labelling that never fails. */
  lemma TotalPositions<V>(files: seq<ImageFile<V>>, labelOf: string -> string, rows: seq<FaceEmbedding<V>>)
    requires ReferenceRows(files, Total(labelOf)) == Success(rows)
    ensures forall i | 0 <= i < |files| ::
      && Offset(files, i) + |files[i].embeddings| <= |rows|
      && rows[Offset(files, i)..Offset(files, i) + |files[i].embeddings|]
           == Tagged(labelOf(files[i].filename), files[i].embeddings)
  {
    ReferenceRowsPositions(files, Total(labelOf));
    assert forall name :: Total(labelOf)(name).value == labelOf(name);
  }

  /** The folder load commits one row per embedding of the accepted files,
      and each row carries the label of an accepted file its embedding came from. */
  lemma FolderRowsContents<V>(listing: seq<ImageFile<V>>, isImage: string -> bool, labelOf: string -> string)
    ensures |FolderRows(listing, isImage, labelOf)| == EmbeddingCount(LoadedFiles(listing, isImage))
    ensures forall r | r in FolderRows(listing, isImage, labelOf) ::
      exists f | f in listing ::
        isImage(f.filename) && r.person == labelOf(f.filename) && r.embedding in f.embeddings
  {
    FolderRowsAsReferenceRows(listing, isImage, labelOf);
    LoadedFilesAreImages(listing, isImage);
    LoadedContents(listing, isImage, labelOf, LoadedFiles(listing, isImage), FolderRows(listing, isImage, labelOf));
  }

  /** Every row staged from the accepted files of a listing, under a
      labelling that never fails, comes from an accepted file of the listing. */
  lemma LoadedContents<V>(listing: seq<ImageFile<V>>, isImage: string -> bool, labelOf: string -> string,
                          loaded: seq<ImageFile<V>>, rows: seq<FaceEmbedding<V>>)
    requires forall f :: f in loaded <==> f in listing && isImage(f.filename)
    requires ReferenceRows(loaded, Total(labelOf)) == Success(rows)
    ensures forall r | r in rows ::
      exists f | f in listing ::
        isImage(f.filename) && r.person == labelOf(f.filename) && r.embedding in f.embeddings
  {
    ReferenceRowsContents(loaded, Total(labelOf));
    forall r | r in rows
      ensures exists f | f in listing ::
        isImage(f.filename) && r.person == labelOf(f.filename) && r.embedding in f.embeddings
    {
      var i :| 0 <= i < |loaded| &&
        Total(labelOf)(loaded[i].filename) == Some(r.person) && r.embedding in loaded[i].embeddings;
      assert loaded[i] in loaded;
    }
  }

  /** Loading one more file of the listing extends the rows and the count by that file's share. */
  lemma FolderStep<V>(listing: seq<ImageFile<V>>, i: nat, isImage: string -> bool, labelOf: string -> string)
    requires i < |listing|
    ensures var file := listing[i];
      && FolderRows(listing[..i + 1], isImage, labelOf) == FolderRows(listing[..i], isImage, labelOf)
           + (if isImage(file.filename) then Tagged(labelOf(file.filename), file.embeddings) else [])
      && EmbeddingCount(LoadedFiles(listing[..i + 1], isImage)) == EmbeddingCount(LoadedFiles(listing[..i], isImage))
           + (if isImage(file.filename) then |file.embeddings| else 0)
  {
    var prefix := listing[..i + 1];
    assert prefix[..i] == listing[..i];
    LoadedCountStep(prefix, isImage);
  }

  /** load_folder: for every listed file with an image extension, stage one
      row per embedding under its `_`-prefix label and count them. */
  method LoadFolder<V>(listing: seq<ImageFile<V>>) returns (staged: Staged<V>)
    ensures staged == Staged(FolderRows(listing, HasImageExtension, FolderLabel),
                             EmbeddingCount(LoadedFiles(listing, HasImageExtension)))
  {
    var rows: seq<FaceEmbedding<V>> := [];
    var countAdded := 0;
    for i := 0 to |listing|
      invariant rows == FolderRows(listing[..i], HasImageExtension, FolderLabel)
      invariant countAdded == EmbeddingCount(LoadedFiles(listing[..i], HasImageExtension))
    {
      var file := listing[i];
      FolderStep(listing, i, HasImageExtension, FolderLabel);
      if HasImageExtension(file.filename) {
        rows, countAdded := StageEmbeddings(rows, countAdded, FolderLabel(file.filename), file.embeddings);
      }
    }
    assert listing[..|listing|] == listing;
    staged := Staged(rows, countAdded);
  }
}
