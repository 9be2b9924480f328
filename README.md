# PrivateGPT dashboard core, modelled in Dafny

This project models the logic of the PrivateGPT web dashboard (`private_gpt/ui/ui.py`) that does
not depend on Gradio itself:

- **Citation curation** (`Source.curate_sources`). Each retrieved chunk becomes a frozen
  `(file, page, text)` citation. The file and page come from the chunk's document metadata; "-"
  stands in when the metadata is `None`, is an empty dict or lacks the key. The list is
  deduplicated in order of first occurrence after every append.
- **The corpus manager** (`PrivateGptUi`). It lists the ingested file names. It uploads files and
  replaces any earlier document that carries an uploaded file's name. It deletes every document,
  or every document carrying the selected file name. It selects and deselects a file name.
- **The questionnaire text path.** A non-PDF name is answered with a fixed message. A PDF is read
  and its text is sent as one user message to the chat collaborator, with the context switched
  off. The `str` deltas of the streamed answer are concatenated and the result is stripped.

Modules:

- `Common`: `Option`, `Result`, `Outcome` and the Python exceptions the handlers can raise.
- `Text`: `str.endswith`, `str.strip` with Python's whitespace set, and `PurePosixPath.name`.
- `Sources`: citations and their curation.
- `Ingest`: the ingestion collaborator, modelled as an in-memory class `IngestStore` with
  `list_ingested`, `delete` and `bulk_ingest`. It keeps a ghost log of the calls it receives, so
  the handlers' contracts can state which deletes and ingests they issue, and in what order.
- `Ui`: the dashboard class `PrivateGptUi` and the functions its contracts refer to.

Modelling choices:

- Reading `doc_metadata["file_name"]` on a non-empty metadata dict that lacks the key raises
  `KeyError` in the source. Here it is an error outcome `Fail(KeyError("file_name"))`, not a
  precondition.
  - `_upload_file` scans the whole corpus before deleting anything, so on that error the corpus
    and the call log are unchanged.
  - `_delete_selected_file` deletes as it scans, so the deletions made before the offending
    document stay done. The model states this partial effect exactly.
- `ChatResponse` is tested with `isinstance` in `_extract_questions` but the module never imports
  it. A delta that is not a `str` therefore raises `NameError` instead of contributing
  `delta.delta or ""`. The model follows the code: such a stream yields
  `Err(NameError("ChatResponse"))`.
- After a deletion the handlers only return widgets: the file label reads "All files" and both
  delete buttons are disabled (ui.py:158-163, 174-179). `_selected_filename` itself keeps its
  value, and so does the model: every corpus handler leaves `selectedFilename` unchanged.
- `Path(file.name).name` is modelled as POSIX `pathlib` computes it: trailing slashes are dropped
  and trailing "." components are skipped.
- The chat collaborator is a function from (messages, use_context) to a stream of deltas. The
  text PyPDF2 extracts from a PDF is a function parameter `pdfText`.

## Model

| member | source | states |
|---|---|---|
| Sources.CurateSources | private_gpt/ui/ui.py:39-54 | the loop that appends and re-deduplicates after every chunk returns exactly the order-preserving dedup of the chunks' candidate citations |
| Sources.CuratedSourcesSpec | private_gpt/ui/ui.py:39-54 | the curated list has no two equal citations and holds exactly the candidates of the chunks, one per distinct triple, in first-occurrence order; curating it again changes nothing |
| Sources.MetadataField | private_gpt/ui/ui.py:45-46 | the metadata value when the key is present, and "-" when the metadata is None, an empty dict, or lacks the key |
| Sources.ToSource | private_gpt/ui/ui.py:43-48 | file and page are the metadata values when the key is present, and "-" for missing or empty metadata or a missing key; the text is the chunk's text |
| Sources.Dedup | private_gpt/ui/ui.py:50-52 | `dict.fromkeys(...).keys()` yields a list without repetitions that holds exactly the input's elements |
| Sources.DedupFirstOccurrenceOrder | private_gpt/ui/ui.py:50-52 | the deduplicated elements appear in the order of their first occurrence in the input |
| Sources.DedupOfDistinct | private_gpt/ui/ui.py:50-52 | a list without repetitions is left as it is |
| Sources.DedupIdempotent | private_gpt/ui/ui.py:50-52 | deduplicating twice is deduplicating once |
| Sources.DedupLength | private_gpt/ui/ui.py:50-52 | the result has one entry per distinct input value |
| Sources.DedupAppendToDistinct | private_gpt/ui/ui.py:49-52 | appending to a curated list and deduplicating adds the citation only if it is new |
| Text.EndsWith | private_gpt/ui/ui.py:76 | `endswith` holds exactly when the string is some text followed by the suffix |
| Text.EndsWithConcat | private_gpt/ui/ui.py:106 | a string built as text plus suffix ends with the suffix, and no string shorter than the suffix does |
| Text.Strip | private_gpt/ui/ui.py:102 | the stripped text neither starts nor ends with Python whitespace |
| Text.StripIsMiddle | private_gpt/ui/ui.py:102 | strip removes exactly the whitespace border: the result is the part between a leading and a trailing whitespace run |
| Text.StripIdempotent | private_gpt/ui/ui.py:102 | stripping twice is stripping once |
| Text.PathName | private_gpt/ui/ui.py:131-134 | a path's name holds no '/' and is never "." |
| Text.PathNameOfFilePath | private_gpt/ui/ui.py:131-134 | for a directory followed by a slash-free file name, the name is that file name |
| Text.PathNameTrailingSlash | private_gpt/ui/ui.py:131-134 | a trailing slash does not change a path's name |
| Text.PathNameTrailingDot | private_gpt/ui/ui.py:131-134 | a trailing "." component does not change a path's name |
| Ui.Collect | private_gpt/ui/ui.py:95-100 | the loop's accumulated text; a failure is always NameError for `ChatResponse`, and a success means every delta was a `str` |
| Ui.Extracted | private_gpt/ui/ui.py:95-102 | fails exactly when the loop fails; a success is stripped, so it neither starts nor ends with whitespace |
| Ui.CollectAppend | private_gpt/ui/ui.py:95-100 | collecting a stream is collecting its two halves and joining the texts; an error in the first half wins |
| Ui.CollectFailsIffNonStr | private_gpt/ui/ui.py:96-100 | collecting fails, with NameError for `ChatResponse`, exactly when some delta is not a `str` |
| Ui.CollectStrings | private_gpt/ui/ui.py:95-98 | a stream of `str` deltas collects to their concatenation in order |
| Ui.PrivateGptUi.ExtractQuestions | private_gpt/ui/ui.py:88-102 | sends the text as the only user message with use_context false, and returns the stripped concatenation of the streamed deltas, or the NameError |
| Ui.ParsePdf | private_gpt/ui/ui.py:75-86 | a missing file or a non-PDF name gives the fixed message; a PDF gives its extracted text |
| Ui.PrivateGptUi.ProcessUpload | private_gpt/ui/ui.py:104-115 | a non-PDF name yields "Please only upload PDF files."; a PDF yields the extracted questions of its text |
| Ui.ListedName | private_gpt/ui/ui.py:120-125 | a document is skipped exactly when its metadata is None; otherwise it shows its "file_name", or "[FILE NAME MISSING]" when the key is absent, an empty dict included |
| Ui.ListedNames | private_gpt/ui/ui.py:118-126 | the set of shown names has at most one name per document |
| Ui.ListedNamesSpec | private_gpt/ui/ui.py:117-126 | a name is listed exactly when some document with metadata carries it as "file_name", or lacks the key and shows "[FILE NAME MISSING]" |
| Ui.PrivateGptUi.ListIngestedFiles | private_gpt/ui/ui.py:117-127 | one single-cell row per listed name, each listed name exactly once |
| Ui.KeyErrorAt | private_gpt/ui/ui.py:136-141 | the first document whose non-empty metadata lacks "file_name", where reading the key raises KeyError; none before it does |
| Ui.ScanUploadTargets | private_gpt/ui/ui.py:134-142 | the ids of the documents named like an upload, in corpus order, or KeyError when some document lacks the key |
| Ui.PrivateGptUi.UploadFile | private_gpt/ui/ui.py:129-151 | on KeyError nothing changes; otherwise every matching document is deleted by id in corpus order, then one bulk_ingest of (name, path) pairs in upload order; the corpus is the unmatched documents followed by the new ones |
| Ui.UploadReplacesByName | private_gpt/ui/ui.py:133-151 | after an upload no earlier document with an uploaded name remains, every other earlier document does, and uploaded names are carried only by new documents |
| Ui.UploadWithoutMatchesDeletesNothing | private_gpt/ui/ui.py:143-151 | when no earlier document carries an uploaded name, no delete is issued, the corpus is untouched and the new documents are appended to it, for every next id |
| Ui.PrivateGptUi.DeleteAllFiles | private_gpt/ui/ui.py:153-157 | one delete per listed document, in listing order, leaving the corpus empty; the selection is kept |
| Ui.PrivateGptUi.DeleteSelectedFile | private_gpt/ui/ui.py:165-173 | deletes the documents whose "file_name" equals the selection, up to the first KeyError, and reports that KeyError; the rest of the corpus is kept |
| Ui.DeleteSelectedScope | private_gpt/ui/ui.py:165-173 | without KeyError exactly the documents not carrying the selected name remain; with one, all documents from the offending one on remain; with no selection nothing is deleted |
| Ui.PrivateGptUi.DeselectSelectedFile | private_gpt/ui/ui.py:181-182 | the selection becomes None |
| Ui.PrivateGptUi.SelectedAFile | private_gpt/ui/ui.py:189-190 | the selection becomes the selected cell's value |
| Ui.PrivateGptUi.constructor | private_gpt/ui/ui.py:60-73 | the dashboard starts with no selection |
| Ingest.IngestStore.List | private_gpt/ui/ui.py:119 | `list_ingested()` returns the corpus in store order, and in a valid store no two listed documents share an id |
| Ingest.IngestStore.Delete | private_gpt/ui/ui.py:149 | `delete(doc_id)` removes the document with that id and nothing else, keeping ids distinct |
| Ingest.IngestStore.BulkIngest | private_gpt/ui/ui.py:151 | `bulk_ingest` appends one document per (name, path) pair with fresh ids and "file_name" set to the name |
| Ingest.IngestedFresh | private_gpt/ui/ui.py:151 | every document created by bulk_ingest has an id from the store's next id on, so none collides with an earlier document |
| Ingest.WithoutMembers | private_gpt/ui/ui.py:136-142 | filtering by a target keeps exactly the documents the target does not hit |
| Ingest.HitIdsMembers | private_gpt/ui/ui.py:136-142 | the collected ids are those of the documents the target hits, and only ids of listed documents |
| Ingest.HitIdsNone | private_gpt/ui/ui.py:143 | a scan that matches nothing collects no id |
| Ingest.WithoutHitIds | private_gpt/ui/ui.py:136-149 | with distinct ids, deleting the collected ids one by one leaves exactly the documents the name test does not hit |
| Ingest.WithoutKeepsDistinctIds | private_gpt/ui/ui.py:149 | deleting keeps document ids distinct |
| Ingest.DeleteAtCursor | private_gpt/ui/ui.py:167-173 | in a delete-as-you-go pass, deleting the document at the cursor removes just that document |
| Ingest.DeleteFirst | private_gpt/ui/ui.py:156-157 | deleting the first listed document by id leaves the rest |
| Ingest.WithoutPrefixOnly | private_gpt/ui/ui.py:167-173 | a pass cut short removes documents only before the stop, and a pass that is not cut short is a whole pass |

## Left out

- The Gradio interface is not modelled: `_build_ui_blocks`, `get_ui_blocks`, `mount_in_app`,
  the `__main__` block that launches the app, the widgets, and the widget values the handlers
  return. They are presentation only.
- The internals of the ingestion, chunk and chat services are not modelled. Ingestion is the
  in-memory `IngestStore`, the chat service is a function, and exceptions raised inside the
  services are not modelled.
- Ingest.IngestStore.BulkIngest: creates one document per uploaded file. The real service may
  split a file into several documents, for example one per page.
- Logging calls and the `@singleton`/`@inject` wiring are not modelled. Concurrent handler calls
  on the shared instance are not modelled either.
- `_parse_pdf`'s file I/O and PyPDF2 page extraction are not modelled. The extracted text is the
  opaque parameter `pdfText`.
- Ui.PrivateGptUi.ProcessUpload: the file is never `None`. With `None` the source raises
  `AttributeError` on `file.name`, and that path is not modelled.
- Ui.PrivateGptUi.ListIngestedFiles: states which rows appear but not their order. The order is
  Python's set iteration order, which the language leaves unspecified, and the model picks an
  arbitrary one.
- Text.PathName: assumes a POSIX host. On Windows `Path` is `WindowsPath`, where backslashes
  also separate components and drive letters apply; that variant is not modelled.
- Ui.Uploads: the path in each (name, path) pair is the raw upload name. The source passes a
  `Path` object, which `pathlib` normalises (for example "a//b.pdf" becomes "a/b.pdf"), so the
  logged `bulk_ingest` argument can differ from the source's in that spelling.
- Document ids are natural-number counters; the service uses string ids. Only their equality and
  freshness matter to the handlers.
- Metadata values are strings. Python allows any value type; a non-string "file_name" would
  simply never equal an uploaded name.
- Chunks carry only their text and their document's metadata. The other fields of the chunk
  object are not read by the curation and are not modelled.
