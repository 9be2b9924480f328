/**
 * `PrivateGptUi`: the dashboard handlers that manage the document corpus (list, upload with
 * replace-by-name, delete one name, delete all, select and deselect a file name) and the
 * questionnaire text path (PDF guard, one context-free chat call, concatenated stream).
 */
module Ui {
  import opened Common
  import opened Text
  import opened Ingest

  // ---------------------------------------------------------------------------------------
  // The questionnaire text path

  datatype Role = System | User | Assistant

  datatype ChatMessage = ChatMessage(role: Role, content: string)

  /** One element of a streamed response: a `str`, or a `ChatResponse` object. */
  datatype Delta = StrDelta(text: string) | ChatResponseDelta(delta: Option<string>)

  /** `ChatService.stream_chat(messages, use_context)`, reduced to its stream of deltas. */
  type ChatService = (seq<ChatMessage>, bool) -> seq<Delta>

  /** An uploaded file as the handlers see it: its temporary path. */
  datatype UploadedFile = UploadedFile(name: string)

  const PdfSuffix: string := ".pdf"
  const OnlyPdfMessage: string := "Please only upload PDF files."

  /**
   * The text the loop over the stream accumulates. `ChatResponse` is not imported by the module,
   * so reaching the second `isinstance` test (any delta that is not a `str`) raises NameError.
   */
  function Collect(deltas: seq<Delta>): (r: Result<string>)
    ensures r.Err? ==> r == Err(NameError("ChatResponse"))
    ensures r.Ok? ==> forall k :: 0 <= k < |deltas| ==> deltas[k].StrDelta?
  {
    if deltas == [] then Ok("")
    else
      match Collect(deltas[..|deltas| - 1])
      case Err(e) => Err(e)
      case Ok(prefix) =>
        match deltas[|deltas| - 1]
        case StrDelta(s) => Ok(prefix + s)
        case ChatResponseDelta(_) => Err(NameError("ChatResponse"))
  }

  /** Collecting a stream is collecting its two halves and joining the texts. */
  lemma {:induction false} CollectAppend(a: seq<Delta>, b: seq<Delta>)
    ensures Collect(a + b) ==
      match (Collect(a), Collect(b))
      case (Ok(x), Ok(y)) => Ok(x + y)
      case (Err(e), _) => Err(e)
      case (Ok(_), Err(e)) => Err(e)
  {
    if b == [] {
      assert a + b == a;
      if Collect(a).Ok? { assert Collect(a).value + "" == Collect(a).value; }
    } else {
      var b' := b[..|b| - 1];
      CollectAppend(a, b');
      assert (a + b)[..|a + b| - 1] == a + b';
      assert (a + b)[|a + b| - 1] == b[|b| - 1];
      match (Collect(a), Collect(b')) {
        case (Ok(x), Ok(y)) =>
          if b[|b| - 1].StrDelta? {
            assert x + (y + b[|b| - 1].text) == (x + y) + b[|b| - 1].text;
          }
        case (_, _) =>
      }
    }
  }

  /** The stream fails exactly when one of its deltas is not a `str`. */
  lemma {:induction false} CollectFailsIffNonStr(deltas: seq<Delta>)
    ensures Collect(deltas).Err? <==> exists k :: 0 <= k < |deltas| && deltas[k].ChatResponseDelta?
    ensures Collect(deltas).Err? ==> Collect(deltas) == Err(NameError("ChatResponse"))
  {
    if deltas != [] {
      var p := deltas[..|deltas| - 1];
      CollectFailsIffNonStr(p);
      assert forall k :: 0 <= k < |p| ==> p[k] == deltas[k];
    }
  }

  /** A stream of `str` deltas collects to their in-order concatenation. */
  lemma CollectStrings(texts: seq<string>)
    ensures Collect(seq(|texts|, k requires 0 <= k < |texts| => StrDelta(texts[k]))) == Ok(Concat(texts))
  {
    if texts != [] {
      var p := texts[..|texts| - 1];
      CollectStrings(p);
      var d := seq(|texts|, k requires 0 <= k < |texts| => StrDelta(texts[k]));
      assert d[..|d| - 1] == seq(|p|, k requires 0 <= k < |p| => StrDelta(p[k]));
      ConcatSnoc(texts);
    }
  }

  /** The concatenation of a list of strings, first to last. */
  function Concat(texts: seq<string>): string {
    if texts == [] then "" else texts[0] + Concat(texts[1..])
  }

  lemma {:induction false} ConcatSnoc(texts: seq<string>)
    requires texts != []
    ensures Concat(texts) == Concat(texts[..|texts| - 1]) + texts[|texts| - 1]
  {
    if |texts| > 1 {
      ConcatSnoc(texts[1..]);
      assert texts[1..][..|texts| - 2] == texts[..|texts| - 1][1..];
    }
  }

  /**
   * What `_extract_questions` returns for a given response stream: the collected text stripped,
   * so it neither starts nor ends with whitespace, or the error of the loop.
   */
  function Extracted(deltas: seq<Delta>): (r: Result<string>)
    ensures r.Err? <==> Collect(deltas).Err?
    ensures r.Ok? ==> r.value == [] || (!IsSpace(r.value[0]) && !IsSpace(r.value[|r.value| - 1]))
  {
    match Collect(deltas)
    case Ok(text) => Ok(Strip(text))
    case Err(e) => Err(e)
  }

  /**
   * `_parse_pdf`: a missing file or a name without the ".pdf" suffix gets the fixed message;
   * otherwise the text PyPDF2 extracts from the file (`pdfText`, opaque).
   */
  function ParsePdf(file: Option<UploadedFile>, pdfText: string -> string): (r: string)
    ensures file.None? ==> r == OnlyPdfMessage
    ensures file.Some? && !EndsWith(file.value.name, PdfSuffix) ==> r == OnlyPdfMessage
    ensures file.Some? && EndsWith(file.value.name, PdfSuffix) ==> r == pdfText(file.value.name)
  {
    if file.None? || !EndsWith(file.value.name, PdfSuffix) then OnlyPdfMessage else pdfText(file.value.name)
  }

  // ---------------------------------------------------------------------------------------
  // The corpus views

  const MissingFileName: string := "[FILE NAME MISSING]"

  /**
   * The name `_list_ingested_files` shows for a document: None (skipped) exactly when the
   * metadata is None; otherwise its "file_name", or "[FILE NAME MISSING]" when the key is absent,
   * an empty dict included.
   */
  function ListedName(d: Document): (r: Option<string>)
    ensures r.None? <==> d.docMetadata.None?
    ensures d.docMetadata.Some? && FileNameKey in d.docMetadata.value ==> r == Some(d.docMetadata.value[FileNameKey])
    ensures d.docMetadata.Some? && FileNameKey !in d.docMetadata.value ==> r == Some(MissingFileName)
  {
    if d.docMetadata.None? then None
    else if FileNameKey in d.docMetadata.value then Some(d.docMetadata.value[FileNameKey])
    else Some(MissingFileName)
  }

  /** The set of names shown for a list of documents: at most one name per document. */
  function ListedNames(ds: seq<Document>): (r: set<string>)
    ensures |r| <= |ds|
  {
    if ds == [] then {}
    else
      var last := ds[|ds| - 1];
      ListedNames(ds[..|ds| - 1]) + if ListedName(last).Some? then {ListedName(last).value} else {}
  }

  /**
   * A name is listed exactly when some document shows it: documents without metadata are
   * skipped, and metadata without "file_name" shows "[FILE NAME MISSING]".
   */
  lemma {:induction false} ListedNamesSpec(ds: seq<Document>)
    ensures forall name :: name in ListedNames(ds) <==> exists d :: d in ds && ListedName(d) == Some(name)
  {
    if ds != [] {
      var p := ds[..|ds| - 1];
      ListedNamesSpec(p);
      assert ds == p + [ds[|ds| - 1]];
    }
  }

  /** The index at which a scan over `ds` that reads `doc_metadata["file_name"]` raises KeyError, or |ds|. */
  function KeyErrorAt(ds: seq<Document>): (k: nat)
    ensures k <= |ds|
    ensures forall n :: 0 <= n < k ==> !LacksFileName(ds[n])
    ensures k < |ds| ==> LacksFileName(ds[k])
  {
    if ds == [] then 0 else if LacksFileName(ds[0]) then 0 else 1 + KeyErrorAt(ds[1..])
  }

  /** The first document that raises KeyError is at `i`, or, when `i == |ds|`, none does. */
  lemma KeyErrorAtIs(ds: seq<Document>, i: nat)
    requires i <= |ds| && (forall n :: 0 <= n < i ==> !LacksFileName(ds[n]))
    requires i < |ds| ==> LacksFileName(ds[i])
    ensures KeyErrorAt(ds) == i
  {
  }

  /** The ids of a list of documents, in order. */
  function Ids(ds: seq<Document>): seq<nat> {
    seq(|ds|, k requires 0 <= k < |ds| => ds[k].docId)
  }

  lemma IdsSnoc(ds: seq<Document>, i: nat)
    requires i < |ds|
    ensures Ids(ds[..i + 1]) == Ids(ds[..i]) + [ds[i].docId]
  {
  }

  /** `[Path(file.name).name for file in files]`. */
  function FileNames(files: seq<UploadedFile>): seq<string> {
    seq(|files|, k requires 0 <= k < |files| => PathName(files[k].name))
  }

  /** `[(str(path.name), path) for path in paths]`: one pair per uploaded file, in upload order. */
  function Uploads(files: seq<UploadedFile>): seq<(string, string)> {
    seq(|files|, k requires 0 <= k < |files| => (PathName(files[k].name), files[k].name))
  }

  /** The corpus after a successful `_upload_file`. */
  function AfterUpload(before: seq<Document>, files: seq<UploadedFile>, nextId: nat): seq<Document> {
    Without(before, NamedOneOf(FileNames(files))) + Ingested(Uploads(files), nextId)
  }

  /**
   * Upload replaces by name: every earlier document named like an upload is gone, every other
   * earlier document (other names, None or empty metadata) is kept, and afterwards an uploaded
   * name is carried only by freshly ingested documents, one per uploaded file.
   */
  lemma UploadReplacesByName(before: seq<Document>, files: seq<UploadedFile>, nextId: nat)
    requires forall k :: 0 <= k < |before| ==> before[k].docId < nextId
    ensures forall d :: d in before && Hits(NamedOneOf(FileNames(files)), d) ==> d !in AfterUpload(before, files, nextId)
    ensures forall d :: d in before && !Hits(NamedOneOf(FileNames(files)), d) ==> d in AfterUpload(before, files, nextId)
    ensures forall d :: d in AfterUpload(before, files, nextId) && Hits(NamedOneOf(FileNames(files)), d) ==> d.docId >= nextId
    ensures forall d :: d in AfterUpload(before, files, nextId) && d.docId < nextId ==> d in before
  {
    var t := NamedOneOf(FileNames(files));
    var kept, added := Without(before, t), Ingested(Uploads(files), nextId);
    assert AfterUpload(before, files, nextId) == kept + added;
    WithoutMembers(before, t);
    IngestedFresh(Uploads(files), nextId);
    assert forall d :: d in before ==> d.docId < nextId;
  }

  /**
   * When no earlier document is named like an upload, the upload issues no delete at all and
   * appends the new documents to the untouched corpus, whatever the store's next id.
   */
  lemma UploadWithoutMatchesDeletesNothing(before: seq<Document>, files: seq<UploadedFile>, nextId: nat)
    requires forall k :: 0 <= k < |before| ==> !Hits(NamedOneOf(FileNames(files)), before[k])
    ensures DeleteCalls(HitIds(before, NamedOneOf(FileNames(files)))) == []
    ensures Without(before, NamedOneOf(FileNames(files))) == before
    ensures AfterUpload(before, files, nextId) == before + Ingested(Uploads(files), nextId)
  {
    HitIdsNone(before, NamedOneOf(FileNames(files)));
    WithoutMissesAll(before, NamedOneOf(FileNames(files)));
  }

  /**
   * What `_delete_selected_file` leaves: without KeyError, exactly the documents not named as
   * selected (several may go); with one, the documents from the failing one on are untouched;
   * with no selection, nothing is deleted.
   */
  lemma DeleteSelectedScope(before: seq<Document>, selected: Option<string>)
    ensures var stop := KeyErrorAt(before);
            var after := Without(before[..stop], NamedExactly(selected)) + before[stop..];
      && (stop == |before| ==> forall d :: d in after <==> d in before && !Hits(NamedExactly(selected), d))
      && (forall k :: stop <= k < |before| ==> before[k] in after)
      && (selected == None ==> after == before)
  {
    var stop, t := KeyErrorAt(before), NamedExactly(selected);
    WithoutPrefixOnly(before, stop, t);
    if stop == |before| {
      WithoutMembers(before, t);
    }
  }

  /**
   * The scan of `_upload_file`: the ids of the documents whose "file_name" is one of `fileNames`,
   * in corpus order, or KeyError at the first non-empty metadata dict without "file_name".
   */
  method ScanUploadTargets(documents: seq<Document>, fileNames: seq<string>) returns (r: Result<seq<nat>>)
    ensures KeyErrorAt(documents) < |documents| ==> r == Err(KeyError(FileNameKey))
    ensures KeyErrorAt(documents) == |documents| ==> r == Ok(HitIds(documents, NamedOneOf(fileNames)))
  {
    var docIdsToDelete: seq<nat> := [];
    for i := 0 to |documents|
      invariant docIdsToDelete == HitIds(documents[..i], NamedOneOf(fileNames))
      invariant forall n :: 0 <= n < i ==> !LacksFileName(documents[n])
    {
      assert documents[..i + 1][..i] == documents[..i];
      var d := documents[i];
      if HasMetadata(d) {
        if FileNameKey !in d.docMetadata.value {
          KeyErrorAtIs(documents, i);
          return Err(KeyError(FileNameKey));
        }
        if d.docMetadata.value[FileNameKey] in fileNames {
          docIdsToDelete := docIdsToDelete + [d.docId];
        }
      }
    }
    assert documents[..|documents|] == documents;
    KeyErrorAtIs(documents, |documents|);
    r := Ok(docIdsToDelete);
  }

  // ---------------------------------------------------------------------------------------
  // The dashboard

  class PrivateGptUi {
    const ingest: IngestStore
    const chat: ChatService
    var selectedFilename: Option<string>

    constructor (ingest: IngestStore, chat: ChatService)
      ensures this.ingest == ingest && this.chat == chat && selectedFilename == None
    {
      this.ingest := ingest;
      this.chat := chat;
      selectedFilename := None;
    }

    /**
     * `_extract_questions`: one user message holding the text, sent with `use_context=False`;
     * the `str` deltas are concatenated in order and the result stripped.
     */
    method ExtractQuestions(text: string) returns (r: Result<string>)
      ensures r == Extracted(chat([ChatMessage(User, text)], false))
    {
      var messages := [ChatMessage(User, text)];
      var response := chat(messages, false);
      var questions := "";
      for i := 0 to |response|
        invariant Collect(response[..i]) == Ok(questions)
      {
        assert response[..i + 1][..i] == response[..i];
        match response[i]
        case StrDelta(s) =>
          questions := questions + s;
        case ChatResponseDelta(_) =>
          CollectAppend(response[..i + 1], response[i + 1..]);
          assert response[..i + 1] + response[i + 1..] == response;
          return Err(NameError("ChatResponse"));
      }
      assert response[..|response|] == response;
      r := Ok(Strip(questions));
    }

    /** `_process_upload`: non-PDF names get the fixed message; PDFs go through the chat call. */
    method ProcessUpload(file: UploadedFile, pdfText: string -> string) returns (r: Result<string>)
      ensures !EndsWith(file.name, PdfSuffix) ==> r == Ok(OnlyPdfMessage)
      ensures EndsWith(file.name, PdfSuffix) ==>
                r == Extracted(chat([ChatMessage(User, pdfText(file.name))], false))
    {
      if !EndsWith(file.name, PdfSuffix) {
        return Ok(OnlyPdfMessage);
      }
      var text := ParsePdf(Some(file), pdfText);
      r := ExtractQuestions(text);
    }

    /** `_list_ingested_files`: each listed name once, as a one-element row, in set order. */
    method ListIngestedFiles() returns (rows: seq<seq<string>>)
      ensures forall k :: 0 <= k < |rows| ==> |rows[k]| == 1
      ensures forall name :: [name] in rows <==> name in ListedNames(ingest.docs)
      ensures forall i, j :: 0 <= i < j < |rows| ==> rows[i] != rows[j]
    {
      var documents := ingest.List();
      var files: set<string> := {};
      for i := 0 to |documents|
        invariant files == ListedNames(documents[..i])
      {
        assert documents[..i + 1][..i] == documents[..i];
        var d := documents[i];
        if d.docMetadata.Some? {
          var fileName := if FileNameKey in d.docMetadata.value then d.docMetadata.value[FileNameKey] else MissingFileName;
          files := files + {fileName};
        }
      }
      assert documents[..|documents|] == documents;
      rows := [];
      var rest := files;
      while rest != {}
        invariant rest <= files
        invariant forall k :: 0 <= k < |rows| ==> |rows[k]| == 1
        invariant forall name :: [name] in rows <==> name in files && name !in rest
        invariant forall i, j :: 0 <= i < j < |rows| ==> rows[i] != rows[j]
        decreases rest
      {
        var name :| name in rest;
        rows := rows + [[name]];
        rest := rest - {name};
      }
    }

    /**
     * `_upload_file`: scan the corpus for documents named like an upload (a non-empty metadata
     * dict without "file_name" raises KeyError before anything is deleted), delete them, then
     * make one `bulk_ingest` call with a (name, path) pair per upload.
     */
    method UploadFile(files: seq<UploadedFile>) returns (outcome: Outcome)
      requires ingest.Valid()
      modifies ingest
      ensures ingest.Valid()
      ensures selectedFilename == old(selectedFilename)
      ensures outcome == if KeyErrorAt(old(ingest.docs)) < |old(ingest.docs)| then Fail(KeyError(FileNameKey)) else Pass
      ensures outcome.Fail? ==>
                ingest.docs == old(ingest.docs) && ingest.calls == old(ingest.calls) && ingest.nextId == old(ingest.nextId)
      ensures outcome.Pass? ==>
                && ingest.docs == AfterUpload(old(ingest.docs), files, old(ingest.nextId))
                && ingest.nextId == old(ingest.nextId) + |files|
                && ingest.calls == old(ingest.calls)
                     + DeleteCalls(HitIds(old(ingest.docs), NamedOneOf(FileNames(files))))
                     + [BulkIngestCall(Uploads(files))]
    {
      var documents := ingest.List();
      var scanned := ScanUploadTargets(documents, FileNames(files));
      if scanned.Err? {
        return Fail(scanned.error);
      }
      var docIdsToDelete := scanned.value;
      WithoutMissesAll(documents, IdIn([]));
      for j := 0 to |docIdsToDelete|
        invariant ingest.Valid() && ingest.nextId == old(ingest.nextId)
        invariant ingest.docs == Without(documents, IdIn(docIdsToDelete[..j]))
        invariant ingest.calls == old(ingest.calls) + DeleteCalls(docIdsToDelete[..j])
      {
        TakeSnoc(docIdsToDelete, j);
        WithoutIdsStep(documents, docIdsToDelete[..j], docIdsToDelete[j]);
        DeleteCallsSnoc(docIdsToDelete[..j], docIdsToDelete[j]);
        AppendAssoc(old(ingest.calls), DeleteCalls(docIdsToDelete[..j]), [DeleteCall(docIdsToDelete[j])]);
        ingest.Delete(docIdsToDelete[j]);
      }
      assert docIdsToDelete[..|docIdsToDelete|] == docIdsToDelete;
      WithoutHitIds(documents, NamedOneOf(FileNames(files)));
      ingest.BulkIngest(Uploads(files));
      outcome := Pass;
    }

    /** `_delete_all_files`: delete every listed document by id; the selection is kept. */
    method DeleteAllFiles()
      requires ingest.Valid()
      modifies ingest
      ensures ingest.Valid() && ingest.docs == [] && ingest.nextId == old(ingest.nextId)
      ensures ingest.calls == old(ingest.calls) + DeleteCalls(Ids(old(ingest.docs)))
      ensures selectedFilename == old(selectedFilename)
    {
      var ingestedFiles := ingest.List();
      for i := 0 to |ingestedFiles|
        invariant ingest.Valid() && ingest.nextId == old(ingest.nextId)
        invariant ingest.docs == ingestedFiles[i..]
        invariant ingest.calls == old(ingest.calls) + DeleteCalls(Ids(ingestedFiles[..i]))
      {
        DeleteFirst(ingestedFiles[i..]);
        assert ingestedFiles[i..][1..] == ingestedFiles[i + 1..];
        var id, deleted := ingestedFiles[i].docId, Ids(ingestedFiles[..i]);
        IdsSnoc(ingestedFiles, i);
        DeleteCallsSnoc(deleted, id);
        AppendAssoc(old(ingest.calls), DeleteCalls(deleted), [DeleteCall(id)]);
        ingest.Delete(id);
      }
      assert ingestedFiles[..|ingestedFiles|] == ingestedFiles;
    }

    /**
     * `_delete_selected_file`: delete, as the scan goes, every document whose "file_name" is the
     * selected name. A non-empty metadata dict without "file_name" raises KeyError, and the
     * deletions made before it stay done. The selection is kept.
     */
    method DeleteSelectedFile() returns (outcome: Outcome)
      requires ingest.Valid()
      modifies ingest
      ensures ingest.Valid() && ingest.nextId == old(ingest.nextId)
      ensures selectedFilename == old(selectedFilename)
      ensures var before, stop := old(ingest.docs), KeyErrorAt(old(ingest.docs));
        && outcome == (if stop < |before| then Fail(KeyError(FileNameKey)) else Pass)
        && ingest.docs == Without(before[..stop], NamedExactly(selectedFilename)) + before[stop..]
        && ingest.calls == old(ingest.calls) + DeleteCalls(HitIds(before[..stop], NamedExactly(selectedFilename)))
    {
      var documents := ingest.List();
      var target := NamedExactly(selectedFilename);
      for i := 0 to |documents|
        invariant ingest.Valid() && ingest.nextId == old(ingest.nextId)
        invariant ingest.docs == Without(documents[..i], target) + documents[i..]
        invariant ingest.calls == old(ingest.calls) + DeleteCalls(HitIds(documents[..i], target))
        invariant forall n :: 0 <= n < i ==> !LacksFileName(documents[n])
      {
        var d := documents[i];
        if HasMetadata(d) {
          if FileNameKey !in d.docMetadata.value {
            KeyErrorAtIs(documents, i);
            return Fail(KeyError(FileNameKey));
          }
          if Some(d.docMetadata.value[FileNameKey]) == selectedFilename {
            DeleteStep(documents, i, target, old(ingest.calls));
            ingest.Delete(d.docId);
          } else {
            KeepStep(documents, i, target);
          }
        } else {
          KeepStep(documents, i, target);
        }
      }
      KeyErrorAtIs(documents, |documents|);
      assert documents[..|documents|] == documents && documents[|documents|..] == [];
      outcome := Pass;
    }

    /** `_deselect_selected_file`. */
    method DeselectSelectedFile()
      modifies this
      ensures selectedFilename == None
    {
      selectedFilename := None;
    }

    /** `_selected_a_file`: remember the selected cell's value. */
    method SelectedAFile(value: string)
      modifies this
      ensures selectedFilename == Some(value)
    {
      selectedFilename := Some(value);
    }
  }
}
