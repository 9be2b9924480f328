/**
 * The ingestion collaborator as the dashboard sees it: an in-memory corpus of documents with
 * `list_ingested`, `delete(doc_id)` and `bulk_ingest([(name, path)])`, plus the selections of
 * documents that the dashboard's handlers delete.
 */
module Ingest {
  import opened Common

  /** `doc_metadata`: a string dict, or None. */
  type Metadata = Option<map<string, string>>

  datatype Document = Document(docId: nat, docMetadata: Metadata)

  const FileNameKey: string := "file_name"

  /** Python truthiness of `doc_metadata`: present and not empty. */
  predicate HasMetadata(d: Document) {
    d.docMetadata.Some? && d.docMetadata.value != map[]
  }

  /** Non-empty metadata without "file_name": evaluating `doc_metadata["file_name"]` raises KeyError. */
  predicate LacksFileName(d: Document) {
    HasMetadata(d) && FileNameKey !in d.docMetadata.value
  }

  /** No two documents share an id. */
  ghost predicate DistinctIds(ds: seq<Document>) {
    forall i, j :: 0 <= i < j < |ds| ==> ds[i].docId != ds[j].docId
  }

  /** The documents one pass of deletions is aimed at. */
  datatype Target =
    | IdIn(ids: seq<nat>)                    // documents whose id is listed
    | NamedOneOf(names: seq<string>)         // `doc_metadata and doc_metadata["file_name"] in names`
    | NamedExactly(selected: Option<string>) // `doc_metadata and doc_metadata["file_name"] == selected`

  predicate Hits(t: Target, d: Document) {
    match t
    case IdIn(ids) => d.docId in ids
    case NamedOneOf(names) =>
      HasMetadata(d) && FileNameKey in d.docMetadata.value && d.docMetadata.value[FileNameKey] in names
    case NamedExactly(selected) =>
      HasMetadata(d) && FileNameKey in d.docMetadata.value && selected == Some(d.docMetadata.value[FileNameKey])
  }

  /** The documents of `ds`, in order, except those that `t` hits. */
  function Without(ds: seq<Document>, t: Target): (r: seq<Document>)
    ensures |r| <= |ds|
  {
    if ds == [] then []
    else
      var last := ds[|ds| - 1];
      Without(ds[..|ds| - 1], t) + if Hits(t, last) then [] else [last]
  }

  /** The ids of the documents of `ds` that `t` hits, in order. */
  function HitIds(ds: seq<Document>, t: Target): (r: seq<nat>)
    ensures |r| <= |ds|
  {
    if ds == [] then []
    else
      var last := ds[|ds| - 1];
      HitIds(ds[..|ds| - 1], t) + if Hits(t, last) then [last.docId] else []
  }

  /** Without keeps exactly the documents that `t` does not hit. */
  lemma {:induction false} WithoutMembers(ds: seq<Document>, t: Target)
    ensures forall d :: d in Without(ds, t) <==> d in ds && !Hits(t, d)
  {
    if ds != [] {
      WithoutMembers(ds[..|ds| - 1], t);
      assert ds == ds[..|ds| - 1] + [ds[|ds| - 1]];
    }
  }

  /** HitIds lists the id of every document `t` hits, and only ids of documents of `ds`. */
  lemma {:induction false} HitIdsMembers(ds: seq<Document>, t: Target)
    ensures forall d :: d in ds && Hits(t, d) ==> d.docId in HitIds(ds, t)
    ensures forall id :: id in HitIds(ds, t) ==> exists d :: d in ds && d.docId == id
  {
    if ds != [] {
      var p := ds[..|ds| - 1];
      HitIdsMembers(p, t);
      assert ds == p + [ds[|ds| - 1]];
    }
  }

  /** Removing documents distributes over concatenation. */
  lemma {:induction false} WithoutAppend(a: seq<Document>, b: seq<Document>, t: Target)
    ensures Without(a + b, t) == Without(a, t) + Without(b, t)
  {
    if b != [] {
      var b' := b[..|b| - 1];
      WithoutAppend(a, b', t);
      assert (a + b)[..|a + b| - 1] == a + b';
      assert (a + b)[|a + b| - 1] == b[|b| - 1];
    } else {
      assert a + b == a;
    }
  }

  /** Removing documents that are not there changes nothing. */
  lemma {:induction false} WithoutMissesAll(ds: seq<Document>, t: Target)
    requires forall k :: 0 <= k < |ds| ==> !Hits(t, ds[k])
    ensures Without(ds, t) == ds
  {
    if ds != [] {
      var p, last := ds[..|ds| - 1], ds[|ds| - 1];
      assert forall k :: 0 <= k < |p| ==> p[k] == ds[k];
      WithoutMissesAll(p, t);
      assert !Hits(t, last);
      calc {
        Without(ds, t);
        Without(p, t) + [last];
        p + [last];
        { assert p + [last] == ds; }
        ds;
      }
    }
  }

  /** Removing documents keeps the ids distinct. */
  lemma {:induction false} WithoutKeepsDistinctIds(ds: seq<Document>, t: Target)
    requires DistinctIds(ds)
    ensures DistinctIds(Without(ds, t))
  {
    if ds != [] {
      var p, last := ds[..|ds| - 1], ds[|ds| - 1];
      WithoutKeepsDistinctIds(p, t);
      WithoutMembers(p, t);
      var q := Without(p, t);
      forall k | 0 <= k < |q| ensures q[k].docId != last.docId {
        assert q[k] in p;
      }
    }
  }

  /** Removing by one id list and then by one more id is removing by the extended list. */
  lemma {:induction false} WithoutIdsStep(ds: seq<Document>, ids: seq<nat>, id: nat)
    ensures Without(Without(ds, IdIn(ids)), IdIn([id])) == Without(ds, IdIn(ids + [id]))
  {
    if ds != [] {
      var p, last := ds[..|ds| - 1], ds[|ds| - 1];
      WithoutIdsStep(p, ids, id);
      WithoutAppend(Without(p, IdIn(ids)), if Hits(IdIn(ids), last) then [] else [last], IdIn([id]));
      if !Hits(IdIn(ids), last) {
        assert [last][..0] == [];
      }
    }
  }

  /** Two id lists that agree on the documents present remove the same documents. */
  lemma {:induction false} WithoutIdsAgree(ds: seq<Document>, a: seq<nat>, b: seq<nat>)
    requires forall d :: d in ds ==> (d.docId in a <==> d.docId in b)
    ensures Without(ds, IdIn(a)) == Without(ds, IdIn(b))
  {
    if ds != [] {
      WithoutIdsAgree(ds[..|ds| - 1], a, b);
    }
  }

  /** With distinct ids, removing the ids that `t` hits is removing what `t` hits. */
  lemma {:induction false} WithoutHitIds(ds: seq<Document>, t: Target)
    requires DistinctIds(ds)
    ensures Without(ds, IdIn(HitIds(ds, t))) == Without(ds, t)
  {
    if ds != [] {
      var p, last := ds[..|ds| - 1], ds[|ds| - 1];
      var hp := HitIds(p, t);
      var h := HitIds(ds, t);
      WithoutHitIds(p, t);
      HitIdsMembers(p, t);
      forall k | 0 <= k < |hp| ensures hp[k] != last.docId {
        assert hp[k] in hp;
        var d :| d in p && d.docId == hp[k];
        var n :| 0 <= n < |p| && p[n] == d;
        assert ds[n] == d;
      }
      forall d | d in p ensures d.docId in h <==> d.docId in hp {
        var n :| 0 <= n < |p| && p[n] == d;
        assert ds[n] == d;
      }
      WithoutIdsAgree(p, h, hp);
    }
  }

  /**
   * Deleting, by its id, the document at the cursor of a delete-as-you-go pass removes just
   * that document.
   */
  lemma DeleteAtCursor(snapshot: seq<Document>, i: nat, t: Target)
    requires DistinctIds(snapshot) && i < |snapshot|
    ensures Without(Without(snapshot[..i], t) + snapshot[i..], IdIn([snapshot[i].docId]))
         == Without(snapshot[..i], t) + snapshot[i + 1..]
  {
    var gone := IdIn([snapshot[i].docId]);
    var done := Without(snapshot[..i], t);
    var cursor, rest := [snapshot[i]], snapshot[i + 1..];
    assert snapshot[i..] == cursor + rest;
    calc {
      Without(done + (cursor + rest), gone);
      { WithoutAppend(done, cursor + rest, gone); }
      Without(done, gone) + Without(cursor + rest, gone);
      { WithoutAppend(cursor, rest, gone); }
      Without(done, gone) + (Without(cursor, gone) + Without(rest, gone));
      { DoneKeepsAtCursor(snapshot, i, t); CursorGoes(snapshot[i]); RestKeepsAtCursor(snapshot, i); }
      done + ([] + rest);
      { assert [] + rest == rest; }
      done + rest;
    }
  }

  /** What a pass has kept before the cursor survives deleting the cursor's id. */
  lemma DoneKeepsAtCursor(snapshot: seq<Document>, i: nat, t: Target)
    requires DistinctIds(snapshot) && i < |snapshot|
    ensures Without(Without(snapshot[..i], t), IdIn([snapshot[i].docId])) == Without(snapshot[..i], t)
  {
    DoneMissesCursor(snapshot, i, t);
    WithoutMissesAll(Without(snapshot[..i], t), IdIn([snapshot[i].docId]));
  }

  /** The documents after the cursor survive deleting the cursor's id. */
  lemma RestKeepsAtCursor(snapshot: seq<Document>, i: nat)
    requires DistinctIds(snapshot) && i < |snapshot|
    ensures Without(snapshot[i + 1..], IdIn([snapshot[i].docId])) == snapshot[i + 1..]
  {
    var rest := snapshot[i + 1..];
    assert forall k :: 0 <= k < |rest| ==> rest[k] == snapshot[i + 1 + k];
    WithoutMissesAll(rest, IdIn([snapshot[i].docId]));
  }

  /** Deleting a document's own id removes it. */
  lemma CursorGoes(d: Document)
    ensures Without([d], IdIn([d.docId])) == []
  {
    assert [d][..0] == [];
  }

  /** Deleting the first document by its id leaves the others. */
  lemma DeleteFirst(ds: seq<Document>)
    requires DistinctIds(ds) && ds != []
    ensures Without(ds, IdIn([ds[0].docId])) == ds[1..]
  {
    var gone, rest := IdIn([ds[0].docId]), ds[1..];
    assert ds == [ds[0]] + rest;
    WithoutAppend([ds[0]], rest, gone);
    assert Without([ds[0]], gone) == [] by {
      assert [ds[0]][..0] == [];
    }
    assert forall k :: 0 <= k < |rest| ==> rest[k] == ds[k + 1];
    WithoutMissesAll(rest, gone);
  }

  /** What a delete-as-you-go pass has kept so far does not carry the id at its cursor. */
  lemma DoneMissesCursor(snapshot: seq<Document>, i: nat, t: Target)
    requires DistinctIds(snapshot) && i < |snapshot|
    ensures forall k :: 0 <= k < |Without(snapshot[..i], t)| ==>
              !Hits(IdIn([snapshot[i].docId]), Without(snapshot[..i], t)[k])
  {
    var done := Without(snapshot[..i], t);
    WithoutMembers(snapshot[..i], t);
    forall k | 0 <= k < |done| ensures done[k].docId != snapshot[i].docId {
      assert done[k] in snapshot[..i];
      var n :| 0 <= n < i && snapshot[..i][n] == done[k];
      assert snapshot[n] == done[k];
    }
  }

  /** Advancing the cursor of a delete-as-you-go pass past a document. */
  lemma WithoutPrefixStep(snapshot: seq<Document>, i: nat, t: Target)
    requires i < |snapshot|
    ensures Without(snapshot[..i + 1], t)
         == Without(snapshot[..i], t) + if Hits(t, snapshot[i]) then [] else [snapshot[i]]
    ensures HitIds(snapshot[..i + 1], t)
         == HitIds(snapshot[..i], t) + if Hits(t, snapshot[i]) then [snapshot[i].docId] else []
  {
    assert snapshot[..i + 1][..i] == snapshot[..i];
  }

  /** One step of a delete-as-you-go pass over a snapshot, for a document `t` hits. */
  lemma DeleteStep(snapshot: seq<Document>, i: nat, t: Target, log: seq<Call>)
    requires DistinctIds(snapshot) && i < |snapshot| && Hits(t, snapshot[i])
    ensures Without(Without(snapshot[..i], t) + snapshot[i..], IdIn([snapshot[i].docId]))
         == Without(snapshot[..i + 1], t) + snapshot[i + 1..]
    ensures HitIds(snapshot[..i + 1], t) == HitIds(snapshot[..i], t) + [snapshot[i].docId]
    ensures log + DeleteCalls(HitIds(snapshot[..i], t)) + [DeleteCall(snapshot[i].docId)]
         == log + DeleteCalls(HitIds(snapshot[..i + 1], t))
  {
    DeleteAtCursor(snapshot, i, t);
    WithoutPrefixStep(snapshot, i, t);
    var deleted := HitIds(snapshot[..i], t);
    DeleteCallsSnoc(deleted, snapshot[i].docId);
    AppendAssoc(log, DeleteCalls(deleted), [DeleteCall(snapshot[i].docId)]);
  }

  /** One step of a delete-as-you-go pass over a snapshot, for a document `t` misses. */
  lemma KeepStep(snapshot: seq<Document>, i: nat, t: Target)
    requires i < |snapshot| && !Hits(t, snapshot[i])
    ensures Without(snapshot[..i], t) + snapshot[i..] == Without(snapshot[..i + 1], t) + snapshot[i + 1..]
    ensures HitIds(snapshot[..i + 1], t) == HitIds(snapshot[..i], t)
  {
    WithoutPrefixStep(snapshot, i, t);
    assert snapshot[i..] == [snapshot[i]] + snapshot[i + 1..];
  }

  /**
   * A pass cut short at `stop` removes documents from `ds[..stop]` only: the rest stays, a target
   * that hits nothing changes nothing, and a pass that is not cut short is a whole pass.
   */
  lemma WithoutPrefixOnly(ds: seq<Document>, stop: nat, t: Target)
    requires stop <= |ds|
    ensures forall k :: stop <= k < |ds| ==> ds[k] in Without(ds[..stop], t) + ds[stop..]
    ensures t == NamedExactly(None) ==> Without(ds[..stop], t) + ds[stop..] == ds
    ensures stop == |ds| ==> Without(ds[..stop], t) + ds[stop..] == Without(ds, t)
  {
    var kept, rest := Without(ds[..stop], t), ds[stop..];
    forall k | stop <= k < |ds| ensures ds[k] in kept + rest {
      assert ds[k] == (kept + rest)[|kept| + k - stop];
    }
    if t == NamedExactly(None) {
      WithoutMissesAll(ds[..stop], t);
      assert ds[..stop] + rest == ds;
    }
    if stop == |ds| {
      assert ds[..stop] == ds && rest == [];
    }
  }

  /** A pass whose target hits nothing issues no delete. */
  lemma {:induction false} HitIdsNone(ds: seq<Document>, t: Target)
    requires forall k :: 0 <= k < |ds| ==> !Hits(t, ds[k])
    ensures HitIds(ds, t) == []
  {
    if ds != [] {
      var p := ds[..|ds| - 1];
      assert forall k :: 0 <= k < |p| ==> p[k] == ds[k];
      HitIdsNone(p, t);
    }
  }

  /** A call the dashboard makes on the ingestion collaborator. */
  datatype Call = DeleteCall(docId: nat) | BulkIngestCall(files: seq<(string, string)>)

  /** One `delete` call per id, in order. */
  function DeleteCalls(ids: seq<nat>): seq<Call> {
    seq(|ids|, k requires 0 <= k < |ids| => DeleteCall(ids[k]))
  }

  lemma DeleteCallsSnoc(ids: seq<nat>, id: nat)
    ensures DeleteCalls(ids + [id]) == DeleteCalls(ids) + [DeleteCall(id)]
  {
  }

  /** The documents a `bulk_ingest` call creates: one per (name, path) pair, with fresh ids. */
  function Ingested(files: seq<(string, string)>, firstId: nat): seq<Document> {
    seq(|files|, k requires 0 <= k < |files| => Document(firstId + k, Some(map[FileNameKey := files[k].0])))
  }

  /** Every document `bulk_ingest` creates has an id from `firstId` on. */
  lemma IngestedFresh(files: seq<(string, string)>, firstId: nat)
    ensures forall d :: d in Ingested(files, firstId) ==> d.docId >= firstId
  {
    var added := Ingested(files, firstId);
    forall d | d in added ensures d.docId >= firstId {
      var k :| 0 <= k < |added| && added[k] == d;
    }
  }

  /** The in-memory stand-in for the ingestion collaborator. */
  class IngestStore {
    var docs: seq<Document>
    var nextId: nat
    ghost var calls: seq<Call>  // every delete and bulk_ingest received, in order

    ghost predicate Valid()
      reads this
    {
      DistinctIds(docs) && forall d :: d in docs ==> d.docId < nextId
    }

    constructor (initial: seq<Document>, nextId: nat)
      requires DistinctIds(initial) && forall d :: d in initial ==> d.docId < nextId
      ensures Valid() && docs == initial && this.nextId == nextId && calls == []
    {
      docs := initial;
      this.nextId := nextId;
      calls := [];
    }

    /** `list_ingested()`: the corpus in store order; in a valid store no two documents share an id. */
    function List(): (r: seq<Document>)
      reads this
      ensures r == docs
      ensures Valid() ==> DistinctIds(r)
    {
      docs
    }

    /** `delete(doc_id)`: the document with that id disappears; nothing else changes. */
    method Delete(docId: nat)
      requires Valid()
      modifies this
      ensures Valid()
      ensures docs == Without(old(docs), IdIn([docId])) && nextId == old(nextId)
      ensures calls == old(calls) + [DeleteCall(docId)]
    {
      WithoutKeepsDistinctIds(docs, IdIn([docId]));
      WithoutMembers(docs, IdIn([docId]));
      docs := Without(docs, IdIn([docId]));
      calls := calls + [DeleteCall(docId)];
    }

    /** `bulk_ingest(files)`: one new document per (name, path) pair, appended with fresh ids. */
    method BulkIngest(files: seq<(string, string)>)
      requires Valid()
      modifies this
      ensures Valid()
      ensures docs == old(docs) + Ingested(files, old(nextId))
      ensures nextId == old(nextId) + |files|
      ensures calls == old(calls) + [BulkIngestCall(files)]
    {
      var added := Ingested(files, nextId);
      forall i, j | 0 <= i < j < |docs + added| ensures (docs + added)[i].docId != (docs + added)[j].docId {
        if j >= |docs| && i < |docs| {
          assert docs[i] in docs;
        }
      }
      docs := docs + added;
      nextId := nextId + |files|;
      calls := calls + [BulkIngestCall(files)];
    }
  }
}
