/**
 * Citation curation: the frozen `Source` value object and `Source.curate_sources`,
 * which turns retrieved chunks into an order-preserving list of distinct citations.
 */
module Sources {
  import opened Common

  /** A citation. Frozen, so equality (and hashing) is over the whole triple. */
  datatype Source = Source(file: string, page: string, text: string)

  /** A retrieved chunk: its text and the metadata of the document it came from (maybe None). */
  datatype Chunk = Chunk(text: string, docMetadata: Option<map<string, string>>)

  /** The value shown when a chunk's metadata is missing, empty, or lacks the key. */
  const Placeholder: string := "-"

  /**
   * `doc_metadata.get(key, "-") if doc_metadata else "-"`: the metadata value when the key is
   * there, and "-" when the metadata is None, an empty dict (falsy), or lacks the key.
   */
  function MetadataField(md: Option<map<string, string>>, key: string): (r: string)
    ensures md.Some? && key in md.value ==> r == md.value[key]
    ensures md.None? || key !in md.value ==> r == Placeholder
  {
    if md.Some? && md.value != map[] && key in md.value then md.value[key] else Placeholder
  }

  /**
   * The candidate citation built for one chunk: file and page from the metadata with "-" as the
   * default, and the chunk's own text.
   */
  function ToSource(c: Chunk): (r: Source)
    ensures r.text == c.text
    ensures c.docMetadata == None || c.docMetadata == Some(map[]) ==> r.file == Placeholder && r.page == Placeholder
    ensures c.docMetadata.Some? && "file_name" in c.docMetadata.value ==> r.file == c.docMetadata.value["file_name"]
    ensures c.docMetadata.Some? && "file_name" !in c.docMetadata.value ==> r.file == Placeholder
    ensures c.docMetadata.Some? && "page_label" in c.docMetadata.value ==> r.page == c.docMetadata.value["page_label"]
    ensures c.docMetadata.Some? && "page_label" !in c.docMetadata.value ==> r.page == Placeholder
  {
    Source(MetadataField(c.docMetadata, "file_name"), MetadataField(c.docMetadata, "page_label"), c.text)
  }

  /** The candidate citations of a list of chunks, one per chunk, in order. */
  function Candidates(chunks: seq<Chunk>): (r: seq<Source>)
    ensures |r| == |chunks|
    ensures forall k :: 0 <= k < |chunks| ==> r[k] == ToSource(chunks[k])
  {
    seq(|chunks|, k requires 0 <= k < |chunks| => ToSource(chunks[k]))
  }

  ghost predicate Distinct<T>(s: seq<T>) {
    forall i, j :: 0 <= i < j < |s| ==> s[i] != s[j]
  }

  /**
   * `list(dict.fromkeys(s).keys())`: the elements of `s` without repetitions, each kept at
   * its first occurrence.
   */
  function Dedup(s: seq<Source>): (r: seq<Source>)
    ensures Distinct(r)
    ensures forall x :: x in r <==> x in s
  {
    if s == [] then []
    else
      var d := Dedup(s[..|s| - 1]);
      var x := s[|s| - 1];
      if x in d then d else d + [x]
  }

  /** Dedup leaves a list without repetitions as it is. */
  lemma {:induction false} DedupOfDistinct(s: seq<Source>)
    requires Distinct(s)
    ensures Dedup(s) == s
  {
    if s != [] {
      var p := s[..|s| - 1];
      DedupOfDistinct(p);
      assert s[|s| - 1] !in p;
      assert p + [s[|s| - 1]] == s;
    }
  }

  /** Applying Dedup to its own output changes nothing. */
  lemma DedupIdempotent(s: seq<Source>)
    ensures Dedup(Dedup(s)) == Dedup(s)
  {
    DedupOfDistinct(Dedup(s));
  }

  /** Appending to a list without repetitions, then deduplicating, adds the element if it is new. */
  lemma DedupAppendToDistinct(d: seq<Source>, x: Source)
    requires Distinct(d)
    ensures Dedup(d + [x]) == if x in d then d else d + [x]
  {
    assert (d + [x])[..|d|] == d;
    DedupOfDistinct(d);
  }

  /** The position of the first occurrence of `x` in `s`. */
  function FirstIndex<T(==)>(s: seq<T>, x: T): (k: nat)
    requires x in s
    ensures k < |s| && s[k] == x && x !in s[..k]
  {
    if s[0] == x then 0 else 1 + FirstIndex(s[1..], x)
  }

  /** Extending a list does not move the first occurrence of an element already in it. */
  lemma FirstIndexOfPrefix<T>(s: seq<T>, y: T, x: T)
    requires x in s
    ensures FirstIndex(s + [y], x) == FirstIndex(s, x)
  {
    var a, b := FirstIndex(s + [y], x), FirstIndex(s, x);
    assert forall n :: 0 <= n < b ==> s[n] == s[..b][n];
    assert forall n :: 0 <= n < a ==> (s + [y])[n] == (s + [y])[..a][n];
    assert forall n :: 0 <= n < |s| ==> (s + [y])[n] == s[n];
  }

  /** Dedup keeps the elements in the order of their first occurrence in the input. */
  lemma {:induction false} DedupFirstOccurrenceOrder(s: seq<Source>)
    ensures forall i, j :: 0 <= i < j < |Dedup(s)| ==>
              FirstIndex(s, Dedup(s)[i]) < FirstIndex(s, Dedup(s)[j])
  {
    if s != [] {
      var p, x := s[..|s| - 1], s[|s| - 1];
      assert s == p + [x];
      DedupFirstOccurrenceOrder(p);
      var d := Dedup(p);
      forall k | 0 <= k < |d| ensures FirstIndex(s, d[k]) == FirstIndex(p, d[k]) {
        FirstIndexOfPrefix(p, x, d[k]);
      }
      if x !in d {
        assert FirstIndex(s, x) == |p| by {
          assert x !in s[..|p|];
        }
      }
    }
  }

  /** A list without repetitions has as many elements as it has distinct values. */
  lemma {:induction false} DistinctCardinality(s: seq<Source>)
    requires Distinct(s)
    ensures |set x | x in s| == |s|
  {
    if s != [] {
      var p := s[..|s| - 1];
      DistinctCardinality(p);
      assert (set x | x in s) == (set x | x in p) + {s[|s| - 1]};
    }
  }

  /** The output of Dedup has exactly one entry per distinct value of the input. */
  lemma DedupLength(s: seq<Source>)
    ensures |Dedup(s)| == |set x | x in s|
  {
    DistinctCardinality(Dedup(s));
    assert (set x | x in Dedup(s)) == (set x | x in s);
  }

  /** One turn of the curation loop: append the next candidate to the curated prefix, dedup. */
  lemma CurateStep(candidates: seq<Source>, i: nat)
    requires i < |candidates|
    ensures Dedup(Dedup(candidates[..i]) + [candidates[i]]) == Dedup(candidates[..i + 1])
  {
    var d, x := Dedup(candidates[..i]), candidates[i];
    DedupAppendToDistinct(d, x);
    assert candidates[..i + 1] == candidates[..i] + [x];
    assert candidates[..i + 1][..i] == candidates[..i];
  }

  /**
   * `Source.curate_sources`: the loop appends each chunk's candidate citation and re-runs the
   * order-preserving dedup after every append.
   */
  method CurateSources(chunks: seq<Chunk>) returns (curated: seq<Source>)
    ensures curated == Dedup(Candidates(chunks))
  {
    ghost var candidates := Candidates(chunks);
    curated := [];
    for i := 0 to |chunks|
      invariant curated == Dedup(candidates[..i])
    {
      var source := ToSource(chunks[i]);
      CurateStep(candidates, i);
      curated := curated + [source];
      curated := Dedup(curated);
    }
    assert candidates[..|chunks|] == candidates;
  }

  /**
   * The properties the curated citation list is meant to have: exactly the distinct candidate
   * triples, no two equal, one per distinct triple, in first-occurrence order, and a fixpoint
   * of curation.
   */
  lemma CuratedSourcesSpec(chunks: seq<Chunk>)
    ensures var r := Dedup(Candidates(chunks));
      && Distinct(r)
      && (forall s :: s in r <==> exists k :: 0 <= k < |chunks| && s == ToSource(chunks[k]))
      && |r| == |set s | s in Candidates(chunks)|
      && (forall i, j :: 0 <= i < j < |r| ==>
            FirstIndex(Candidates(chunks), r[i]) < FirstIndex(Candidates(chunks), r[j]))
      && Dedup(r) == r
  {
    var c := Candidates(chunks);
    DedupLength(c);
    DedupFirstOccurrenceOrder(c);
    DedupIdempotent(c);
    forall s | s in Dedup(c) ensures exists k :: 0 <= k < |chunks| && s == ToSource(chunks[k]) {
      var k :| 0 <= k < |c| && c[k] == s;
    }
  }
}
