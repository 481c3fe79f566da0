# AI-WatchMan face identification: selection and naming logic

AI-WatchMan is a small Flask service. It stores face embeddings under person
labels and identifies the faces in a query image by comparing them with every
stored embedding. This project models the logic inside its request handlers
(`app.py`) and proves properties of it in Dafny:

- **Reference upload** (`upload_references`). A file name yields a person label:
  the extension is dropped, the longest run of ASCII letters at the start is
  kept and lower-cased. The handler stages one row per embedding found in the
  file and counts the rows. A name that does not start with a letter makes the
  regular-expression match fail. The request then aborts and nothing is committed.
- **Identification** (`identify_image`). For each query embedding, the handler
  scans the stored rows from a starting point of `("unknown", -1)`. It replaces
  the current best only on a strictly greater score, so ties go to the earliest
  row. A best score below 0.6 is reported with the name `"unknown"`, and the
  score is kept either way. The handler returns one result per query, in order.
- **Folder load** (`load_folder`). A file is loaded when its lower-cased name
  ends in `.jpg`, `.jpeg` or `.png`. Its label is the lower-cased text before
  the first `_`. The counter equals the number of embeddings in the loaded files.

Modules:

- `Wrappers` holds `Option` and `Result`.
- `Embeddings` holds the `FaceEmbedding` row.
- `Filenames` holds the naming conventions as pure functions and lemmas.
- `Identification` holds the best-match scan. It has methods `BestMatch` and
  `Identify`, proved against the function `Decide`.
- `Ingestion` holds the two loading handlers. Each is a method with loops and
  counters, proved against a recursive function (`ReferenceRows`, `FolderRows`)
  whose properties are lemmas. These functions take the naming rule as a
  parameter, and the lemmas about them hold for any rule. The handlers
  instantiate them with the rules from `Filenames` (`UploadLabel`;
  `HasImageExtension` and `FolderLabel`). This keeps the string reasoning out
  of the proofs about staging and counting.

The similarity measure is a parameter `sim: (V, V) -> real`, and embeddings have
an abstract type `V`. The face model's output for each file is an input. Each
handler returns the rows it stages in the database session, and those rows are
what the final commit writes.

Behaviour of the code that the model keeps:

- The threshold is the constant 0.6 (app.py:98). It is not configurable.
- A reference upload fails as a whole at its first unlabelled file
  (app.py:60). Failures are not reported per file, and nothing is committed.
- A folder file whose name has no `_` loads under its whole lower-cased name,
  extension included (app.py:117): `"bob.jpg"` is labelled `"bob.jpg"`.

## Model

| member | source | states |
|---|---|---|
| Filenames.LowerChar | app.py:60 | ASCII lower-casing: each upper-case letter maps to the same letter in lower case, only letters give lower-case letters, every other character is unchanged |
| Filenames.Lower | app.py:60 | case folding keeps the length, maps each upper-case ASCII letter to the same letter in lower case, yields a lower-case letter only from a letter, and keeps every character that is not an upper-case letter |
| Filenames.LastDot | app.py:59 | the position of the last '.' (or -1): it holds a '.' and no '.' follows it |
| Filenames.Stem | app.py:59 | the stem is a prefix of the name, cut at its last '.' (no '.' follows the cut), or the whole name when it has no '.' |
| Filenames.LeadingLetters | app.py:60 | the `[A-Za-z]+` match: a prefix of the input, made only of ASCII letters, and maximal (the next character, if any, is not a letter) |
| Filenames.StemLabel | app.py:60 | the match-or-fail step on a stem: no label exactly when the stem does not start with an ASCII letter; otherwise the label is non-empty, is the case-folded prefix of the stem made of letters, and no letter follows it |
| Filenames.UploadLabel | app.py:58-60 | when a label is derived it is non-empty and made only of lower-case ASCII letters |
| Filenames.LeadingLettersIgnoresCut | app.py:59-60 | cutting a string at a non-letter (or not at all) does not change its leading letter run |
| Filenames.StemChoiceIrrelevant | app.py:59-60 | the upload label is the same whichever '.' the extension is cut at, and equals the label of the whole file name |
| Filenames.UploadLabelFails | app.py:60 | derivation fails (the `None.group` error in app.py) exactly when the name is empty or does not start with an ASCII letter |
| Filenames.UploadLabelIsMaximalPrefix | app.py:58-60 | a derived label is the case-folded prefix of the file name made of letters, and no letter of the stem follows it |
| Filenames.StemLabelExample | app.py:58-60 | the stem "Alice12" gives the label "alice" |
| Filenames.UploadLabelExample | app.py:58-60 | "Alice12.png" gives the label "alice" |
| Filenames.NoUploadLabelExample | app.py:60 | "123.png" gives no label |
| Filenames.HasImageExtension | app.py:115 | a name is accepted exactly when its extension, from the last '.' on and case-folded, is ".jpg", ".jpeg" or ".png" |
| Filenames.ExtensionAtLastDot | app.py:115 | the name ends in one of the image extensions, ignoring case, exactly when that extension starts at the name's last '.' |
| Filenames.SuffixDotIsLast | app.py:115 | a name ending in an image extension, ignoring case, has a '.' where the extension starts and no '.' after it |
| Filenames.ImageExtensionIff | app.py:115 | a file is loaded iff some suffix of its name, case-folded, is ".jpg", ".jpeg" or ".png" |
| Filenames.BeforeFirst | app.py:117 | `split(sep)[0]`: a prefix without `sep`, followed by `sep` or the end of the string |
| Filenames.FolderLabel | app.py:117 | the folder label has no '_', is the case-folded prefix of the name, and ends at the first '_' or at the end of the name |
| Filenames.ImageFileExample | app.py:115 | "Bob_2.JPG" has an image extension |
| Filenames.FolderLabelExample | app.py:117 | "Bob_2.JPG" is labelled "bob" |
| Filenames.SkippedFileExample | app.py:115 | "notes.txt" has no image extension |
| Identification.FirstIndex | app.py:94-95 | the first position holding a value (or the length): it holds the value and no earlier position does |
| Identification.MaxScoreIsMaximum | app.py:90-95 | the best score is at least -1, bounds every score, and is -1 or one of the scores |
| Identification.Decide | app.py:89-101 | the reported similarity is max(-1, all scores) in both threshold branches; below 0.6 the name is "unknown"; at or above 0.6 it is the person of the earliest row with the best score |
| Identification.DecideWithEmptyTable | app.py:90-101 | with no stored rows the result is exactly ("unknown", -1) |
| Identification.SingleRowDecision | app.py:94-101 | the threshold is inclusive: with one row whose score is at least -1, a score of 0.6 or more keeps the person and a lower score gives "unknown" with the same score |
| Identification.BestMatch | app.py:90-101 | the scan with strict-greater update and threshold computes exactly `Decide` |
| Identification.Identify | app.py:84-101 | one result per query embedding, in query order, each equal to the decision for that query alone |
| Ingestion.StageEmbeddings | app.py:64-66 | the inner loop both handlers share (also app.py:121-124): it appends one row per embedding under the given label, in order, and adds the number of embeddings to the counter |
| Ingestion.ReferenceRows | app.py:52-66 | a committed upload has one row per embedding; a failed one names a file whose name yields no label |
| Ingestion.ReferenceRowsSucceedIffAllLabelled | app.py:53-68 | an upload commits iff every file name yields a label |
| Ingestion.ReferenceRowsFailsAtFirstUnlabelled | app.py:53-60 | a failed upload reports the first file whose name yields no label; every earlier file has a label |
| Ingestion.ReferenceRowsContents | app.py:52-66 | a committed upload has one row per embedding, and each row carries the label of a file its embedding came from |
| Ingestion.ReferenceRowsPositions | app.py:53-66 | the rows of each file form one block, right after the rows of the files before it; the block is that file's embeddings, in order, under its label. With the row count, every embedding has exactly one row |
| Ingestion.UploadedLabelsAreLowerWords | app.py:60-65 | under the upload naming rule, every committed row's person is a non-empty word of lower-case ASCII letters |
| Ingestion.UploadReferences | app.py:52-69 | the handler's loop stages exactly `ReferenceRows(files, UploadLabel)` and its counter `added` equals the number of embeddings; it fails with the name of the first unlabelled file |
| Ingestion.LoadedFiles | app.py:114-115 | no more files are loaded than listed, and every loaded file's name is accepted |
| Ingestion.LoadedFilesAreImages | app.py:114-115 | a listed file is loaded iff its name is accepted |
| Ingestion.FolderRows | app.py:113-124 | a folder load stages one row per embedding of the accepted files |
| Ingestion.FolderRowsAsReferenceRows | app.py:113-124 | a folder load stages exactly what an upload of its accepted files would, with a labelling that never fails |
| Ingestion.FolderRowsContents | app.py:113-124 | the folder load stages one row per embedding of the accepted files, and each row carries the label of an accepted file its embedding came from |
| Ingestion.FolderRowsPositions | app.py:114-124 | the rows of each accepted file form one block, right after the rows of the accepted files before it; the block is that file's embeddings, in order, under its label. With the row count, every such embedding has exactly one row |
| Ingestion.LoadFolder | app.py:113-128 | the handler's loop stages exactly `FolderRows(listing, HasImageExtension, FolderLabel)`, and `count_added` equals the number of embeddings in the image files |

## Left out

- HTTP layer: routes, CORS, request parsing, JSON responses and the 400/404 answers. These are framework plumbing.
- Database: the SQLAlchemy session, `commit` and `FaceEmbedding.query.all()`. The stored table is a sequence parameter. `FaceEmbedding.query.all()` (app.py:87) has no ORDER BY, so which row counts as earliest for a tie depends on the order the database returns. Committing is represented by the rows a handler returns; a failed upload returns no rows.
- Face detection and embedding extraction (insightface, cv2). These are foreign ML calls. Their output per file is an input sequence, so the `embeddings is not None` check in `load_folder` has no counterpart: the extractor always returns a list.
- The `np.dot` similarity and float32 normalisation. This is floating-point numerics. Scores are exact reals from `sim`, so NaN scores and rounding are not modelled. The starting score is the integer -1 in app.py and -1.0 here.
- The filesystem: saving uploads, `os.makedirs`, the hard-coded folder path and `os.listdir`. The listing is an input sequence whose order is kept; `os.listdir`'s order is unspecified.
- Filenames.Stem: cuts at the last '.' and ignores the leading-dot and path-separator rules of `os.path.splitext`. StemChoiceIrrelevant shows that the label does not depend on where the cut is made.
- Filenames.LowerChar: ASCII case folding only. The full Unicode `str.lower()` used in `load_folder` is not modelled.
- Debug `print` calls.
