/**
 * `TextSplitterWrapper.split_documents` of src/text_splitter.py. The
 * character splitter it wraps is not part of this model: its `split_text` is
 * a parameter, a function from a text to its chunks.
 */
module TextSplitter {
  import opened Documents
  import Seqs

  /** The copied metadata of chunk `i`: the parent's keys, then `_chunk` and `_chunk_chars`. */
  function ChunkMetadata(md: Metadata, i: int, chunk: string): (r: Metadata)
    ensures r.Keys == md.Keys + {"_chunk", "_chunk_chars"}
    ensures r["_chunk"] == Int(i) && r["_chunk_chars"] == Int(|chunk|)
    ensures forall k | k in md && k != "_chunk" && k != "_chunk_chars" :: r[k] == md[k]
  {
    md["_chunk" := Int(i)]["_chunk_chars" := Int(|chunk|)]
  }

  /** The documents made from one parent `d` whose text splits into `chunks`, in chunk order. */
  function Tagged(d: Document, chunks: seq<string>): seq<Document>
  {
    seq(|chunks|, i requires 0 <= i < |chunks| => Document(chunks[i], ChunkMetadata(d.metadata, i, chunks[i])))
  }

  /** What `split_documents(docs)` returns: each document's chunks, document after document. */
  function SplitAll(docs: seq<Document>, splitText: string -> seq<string>): seq<Document>
  {
    if docs == [] then []
    else SplitAll(docs[..|docs| - 1], splitText)
         + Tagged(docs[|docs| - 1], splitText(docs[|docs| - 1].pageContent))
  }

  /** The number of chunks of all of `docs`. */
  function ChunkCount(docs: seq<Document>, splitText: string -> seq<string>): nat
  {
    if docs == [] then 0
    else ChunkCount(docs[..|docs| - 1], splitText) + |splitText(docs[|docs| - 1].pageContent)|
  }

  /** `split_documents`: the outer loop over the documents, the inner one over a document's chunks. */
  method SplitDocuments(docs: seq<Document>, splitText: string -> seq<string>) returns (out: seq<Document>)
    ensures out == SplitAll(docs, splitText)
  {
    out := [];
    var k := 0;
    while k < |docs|
      invariant 0 <= k <= |docs|
      invariant out == SplitAll(docs[..k], splitText)
    {
      var d := docs[k];
      var chunks := splitText(d.pageContent);
      ghost var before := out;
      var i := 0;
      while i < |chunks|
        invariant 0 <= i <= |chunks|
        invariant out == before + Tagged(d, chunks)[..i]
      {
        var meta := d.metadata;
        meta := meta["_chunk" := Int(i)];
        meta := meta["_chunk_chars" := Int(|chunks[i]|)];
        out := out + [Document(chunks[i], meta)];
        assert Tagged(d, chunks)[..i + 1] == Tagged(d, chunks)[..i] + [Tagged(d, chunks)[i]];
        i := i + 1;
      }
      assert Tagged(d, chunks)[..i] == Tagged(d, chunks);
      assert docs[..k + 1][..k] == docs[..k];
      k := k + 1;
    }
    assert docs[..k] == docs;
  }

  // ---------------------------------------------------------------------------
  // Lemmas

  /** One output document per chunk: a document without chunks contributes nothing. */
  lemma {:induction false} SplitAllLength(docs: seq<Document>, splitText: string -> seq<string>)
    ensures |SplitAll(docs, splitText)| == ChunkCount(docs, splitText)
    decreases |docs|
  {
    if docs != [] {
      SplitAllLength(docs[..|docs| - 1], splitText);
    }
  }

  lemma SplitAllSnoc(init: seq<Document>, last: Document, splitText: string -> seq<string>)
    ensures SplitAll(init + [last], splitText) == SplitAll(init, splitText) + Tagged(last, splitText(last.pageContent))
  {
    var s := init + [last];
    assert s[..|s| - 1] == init;
  }

  /** Splitting is done document by document: splitting `a + b` is splitting `a`, then `b`. */
  lemma {:induction false} SplitAllAppend(a: seq<Document>, b: seq<Document>, splitText: string -> seq<string>)
    ensures SplitAll(a + b, splitText) == SplitAll(a, splitText) + SplitAll(b, splitText)
    decreases |b|
  {
    if b == [] {
      assert a + b == a;
    } else {
      var init := b[..|b| - 1];
      var last := b[|b| - 1];
      assert b == init + [last];
      assert a + b == (a + init) + [last];
      SplitAllAppend(a, init, splitText);
      SplitAllSnoc(a + init, last, splitText);
      SplitAllSnoc(init, last, splitText);
      Seqs.ConcatAssociative(SplitAll(a, splitText), SplitAll(init, splitText), Tagged(last, splitText(last.pageContent)));
    }
  }

  /**
   * Where chunk `i` of document `j` lands: after the chunks of the documents
   * before it, as the chunk's text with the parent's metadata tagged by
   * `ChunkMetadata` (so `_chunk == i`, `_chunk_chars` is the chunk's length
   * and every other key of the parent is kept).
   */
  lemma ChunkAt(docs: seq<Document>, splitText: string -> seq<string>, j: nat, i: nat)
    requires j < |docs| && i < |splitText(docs[j].pageContent)|
    ensures var p := ChunkCount(docs[..j], splitText) + i;
            var chunk := splitText(docs[j].pageContent)[i];
            && p < |SplitAll(docs, splitText)|
            && SplitAll(docs, splitText)[p] == Document(chunk, ChunkMetadata(docs[j].metadata, i, chunk))
  {
    var d := docs[j];
    var pre := docs[..j];
    var post := docs[j + 1..];
    assert docs == (pre + [d]) + post;
    assert (pre + [d])[..j] == pre;
    SplitAllAppend(pre + [d], post, splitText);
    SplitAllLength(pre, splitText);
  }
}
