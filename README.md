# Q-A-System indexing and retrieval core, in Dafny

This project models the core of a small retrieval-augmented question answering
pipeline and proves properties of that model. The pipeline loads files into
documents, splits them into chunks, embeds the chunks and upserts them into a
Pinecone index; at query time it retrieves the five nearest chunks, orders them
and joins their texts into the context handed to a language model.

The modules follow the repository's files:

- `Database` (database.dfy) models `PineconeManager` of src/database.py as a
  class over an in-memory model of the Pinecone service. A `Client` holds
  named indexes. Each `IndexHandle` holds a map from vector id to (values,
  metadata) and the log of the write calls it received. Its `upsert` overwrites
  by id. Its delete with the filter `hash == h` removes exactly the records
  whose metadata `hash` equals `h`. The manager's fields `index` (null for
  `None`) and `indexWasCreated` are updated in place, as in the source. Its
  `Upsert` is proved to leave the index's records equal to the old records
  replayed with the function `UpsertCalls`, which lists the write calls in order. The lemmas then say
  what survives, in both the delete and the no-delete cases.
- `TextSplitter` (text_splitter.dfy) models `TextSplitterWrapper.split_documents`.
  It is a nested loop proved against the function `SplitAll`. The character
  splitter's `split_text` is a parameter.
- `DocumentLoader` (document_loader.dfy) models `DocumentLoader`:
  - `load`'s walk, with its `break` after the first level when not recursive;
  - the extension filter and the file count;
  - the per-format loaders.

  The file system is the sequence of levels `os.walk` yields. The hash, the
  file texts and the parsers' outputs are functions of the path.
- `Retrieval` (retrieval.dfy) models the `retriever` of main.py. It is a stable
  sort by `(source, page, row, start_index)` with the `get` defaults, followed
  by the join of `page_content` with `"\n---\n"`.
- `Cli` (cli.dfy) models main.py's interactive query loop and `run_indexing`
  with its configuration errors and early exits.
- `Text`, `Documents`, `Wrappers` and `Seqs` hold shared definitions:
  - Python's whitespace test and `strip`, `lower`, `join` and string order;
  - the document and metadata types;
  - Option and Result;
  - one sequence fact.

The source's own comments and its code disagree on the `index_was_created`
flag. The comment where the flag is set calls it the sign that the index was
"just created" (src/database.py:46), and the comment over the delete skips it
"only if the index wasn't just created" (src/database.py:86). Yet the flag is
set to false once, in `__init__` (src/database.py:30), set to true on creation
(src/database.py:46), and never reset. So every later `upsert` on the same
manager also skips its deletes. The model follows the code: `Upsert` keeps the
flag once set, and `StaleRecordExample` shows an old record that survives a
re-upsert of its hash. Each `run_indexing` builds a fresh manager and upserts
once, so the command line never reaches that case.

## Model

| member | source | states |
|---|---|---|
| Database.NewManager | src/database.py:15-31 | A missing client fails with `NoClient` and an empty index name with `NoIndexName`, before any manager exists. Otherwise the result is a fresh manager whose flag is false. Its index is the service's index of that name, or null when there is none. |
| Database.PineconeManager.constructor | src/database.py:28-31 | The new manager is valid and has the given client and name, with the flag false. It holds the existing index of that name, or none, without creating one. |
| Database.PineconeManager.GetOrCreateIndex | src/database.py:33-58 | If an index of this name exists, the result is its handle and nothing changes. Otherwise, a non-zero dimension creates a fresh, empty index of that dimension under that name and sets the flag. A zero dimension returns null and changes nothing. |
| Database.Client.HasIndex | src/database.py:39 | True exactly when the service has an index of that name. |
| Database.Client.Index | src/database.py:41-42 | The handle is the service's index of that name. |
| Database.Client.Create | src/database.py:47-55 | The service gains one fresh, empty index under the name, with the given dimension. The other indexes are kept. |
| Database.PineconeManager.Upsert | src/database.py:60-95 | Empty items return without any change. With no index and an empty first embedding, it fails with `NoDimension` and changes nothing. Otherwise the index is created if missing, with the first item's dimension and the flag set. The index's records become the old records replayed with `UpsertCalls` (delete per hash unless the flag is set, then the batches), and so does its log. The flag is never cleared. A zero batch size fails with `ZeroBatchSize` when some item has a hash: after that group's delete when the flag is false, before any call when the flag is set. With no hashed item nothing is written and nothing fails. |
| Database.GroupByHash | src/database.py:80-83 | The `defaultdict`'s keys are the items' hashes in first-appearance order. The list under each key is exactly the items with that hash, in input order. |
| Database.PineconeManager.ReplaceGroups | src/database.py:85-95 | The group loop: the records and the log follow `UpsertCalls`. A zero batch size with some group gives `ZeroBatchSize`. |
| Database.PineconeManager.ReplaceEachGroup | src/database.py:85-95 | Groups are processed in order. The records and the log follow each group's calls, one group after another. |
| Database.PineconeManager.ReplaceGroup | src/database.py:86-95 | One group: the delete of its hash when the flag is false, then its batched inserts. |
| Database.PineconeManager.InsertBatches | src/database.py:91-95 | One `index.upsert` per batch of `range(0, len(g), batch_size)`. The records and the log follow those insert calls in order. |
| Database.PineconeManager.DeleteByHash | src/database.py:97-105 | Without an index it fails, as `None.delete` does. Otherwise the records lose exactly those whose hash is `h`, and the log records the filtered delete. |
| Database.PineconeManager.Query | src/database.py:107-123 | With no index, `[]`. Otherwise at most `top_k` matches with distinct ids, each a stored record with its stored metadata. |
| Database.IndexHandle.Upsert | src/database.py:95 | The vectors overwrite by id, in order, and the call is logged. |
| Database.IndexHandle.DeleteWhereHash | src/database.py:100-105 | The delete removes exactly the records with that hash, and the call is logged. |
| Database.IndexHandle.Query | src/database.py:122-123 | At most `top_k` stored records, with distinct ids and their stored metadata. The ranking is left open. |
| Database.OverwriteLookup | src/database.py:95 | After an upsert of vectors, an id holds the last vector written to it, or else its old record. |
| Database.LastWriteSome | src/database.py:95 | An id is written exactly when some vector carries it, and then it holds that vector's values and metadata. |
| Database.DeleteByHashExact | src/database.py:97-105 | An id survives the delete exactly when it had no hash `h`. Survivors are unchanged, and a second delete does nothing more. |
| Database.GroupMember | src/database.py:80-83 | An item is in the group of `h` exactly when it is one of the items and its hash is `h`. |
| Database.HashesMember | src/database.py:80-83 | A hash is a key of the `defaultdict` exactly when its group is not empty. |
| Database.HashesDistinct | src/database.py:80-85 | Each hash group is processed once: the keys are pairwise distinct. |
| Database.HashesFirstAppearance | src/database.py:80-85 | Groups come in the order their hashes first appear. An earlier group's hash appears in the items before any item of a later group. |
| Database.BatchesPartition | src/database.py:91-95 | The batches are non-empty, hold at most `batch_size` vectors, and concatenate to the group. |
| Database.ReplayInserts | src/database.py:91-95 | Inserting the batches one by one is the same as one overwrite by their concatenation. |
| Database.ReplaceByHash | src/database.py:85-95 | On the delete path, the result is the old records minus every record with one of the hashes, overwritten by the groups' vectors in group order. |
| Database.InsertOnly | src/database.py:85-95 | With deletes skipped, the groups' vectors overwrite the old records and nothing is removed. |
| Database.UpsertReplacesByHash | src/database.py:62-64 | After an upsert on the delete path, a written id holds its last write. An unwritten id keeps its old record unless that record's hash is one of the call's hashes. Any record with such a hash was written by this call. |
| Database.UpsertWithoutDeleteKeepsOld | src/database.py:86-88 | When deletes are skipped, an old record whose id is not written survives, whatever its hash. |
| Database.UpsertWritesHashedItems | src/database.py:80-83 | A vector is written exactly when it comes from an item that has a `hash`. Items without one are dropped. |
| Database.DeleteBeforeInsert | src/database.py:85-95 | On the delete path, every inserted vector has a hash, and the delete of that hash comes earlier in the calls. |
| Database.NoDeleteWhenSkipped | src/database.py:86-88 | With the flag set, every call is an insert into this index: no delete is issued. |
| Database.StaleRecordExample | src/database.py:30 | After the flag is set, re-upserting hash `h` with a new id keeps the old record of hash `h` next to the new one. |
| TextSplitter.ChunkMetadata | src/text_splitter.py:19-21 | The chunk's metadata has the parent's keys plus `_chunk` (its index) and `_chunk_chars` (its length). Every other parent key keeps its value. |
| TextSplitter.SplitDocuments | src/text_splitter.py:14-23 | The nested loop yields `SplitAll`: each document's chunks, document after document, each tagged by `ChunkMetadata`. |
| TextSplitter.SplitAllLength | src/text_splitter.py:16-22 | The output length is the sum of the documents' chunk counts, so a document with no chunks contributes nothing. |
| TextSplitter.SplitAllAppend | src/text_splitter.py:16-22 | Splitting `a + b` is splitting `a`, then `b`: documents are processed independently and in order. |
| TextSplitter.ChunkAt | src/text_splitter.py:16-22 | Chunk `i` of document `j` sits after the chunks of the earlier documents. It has the chunk's text, `_chunk == i`, its length as `_chunk_chars`, and the parent's other keys. |
| DocumentLoader.LastIndex | src/document_loader.py:46 | The position of the last occurrence of the character, or -1 when there is none. |
| DocumentLoader.Basename | src/document_loader.py:72 | The basename contains no '/', and a name without '/' is its own basename (what it is otherwise: `BasenameIsLastPart`). |
| DocumentLoader.Extension | src/document_loader.py:46 | An extension is empty or starts with '.' (what it is otherwise: `ExtensionIsSuffix`). |
| DocumentLoader.BasenameIsLastPart | src/document_loader.py:72 | The basename is the part of the path after its last '/': a suffix of the path with no '/' in it, that starts the path or follows a '/'. |
| DocumentLoader.ExtensionIsSuffix | src/document_loader.py:46 | The extension is a suffix of the basename that starts with its only '.'. It is non-empty exactly when the basename has a '.' after some character other than '.'. |
| DocumentLoader.LastDotExtension | src/document_loader.py:46 | Only the last dot counts: "a.tar.gz" has extension ".gz". |
| DocumentLoader.LeadingDotExtension | src/document_loader.py:46 | A leading-dot name has no extension: ".md" is not a Markdown file. |
| DocumentLoader.UpperCaseExtension | src/document_loader.py:46 | The extension is lower-cased before the test: "report.PDF" has extension ".pdf". |
| DocumentLoader.JoinKeepsName | src/document_loader.py:49 | Joining a walk's file name to its directory keeps its basename and its extension. |
| DocumentLoader.PathJoin | src/document_loader.py:49 | `os.path.join(root, f)`: an absolute `f` replaces `root`. Otherwise the result starts with `root` and ends with `f`, with one '/' between them that is added only when `root` is not empty and does not already end in '/'. Its length fixes the result: "a.txt" for an empty `root`, "docs/a.txt" for `root` "docs/" or "docs". |
| DocumentLoader.PathJoinSeparator | src/document_loader.py:49 | `os.path.join` adds no '/' to an empty root or to one ending in '/': ("", "a.txt") gives "a.txt", ("docs/", "a.txt") and ("docs", "a.txt") give "docs/a.txt", and an absolute name replaces the root. |
| DocumentLoader.BasenameOfJoin | src/document_loader.py:72 | The `source` of a walked file is its own file name. |
| DocumentLoader.SupportedHaveLoaders | src/document_loader.py:36 | `SUPPORTED` is exactly the set of extensions `_load_file` dispatches on. |
| DocumentLoader.LoadFile | src/document_loader.py:70-83 | `_load_file` returns `FileDocs`: the base metadata is the basename and the hash, and the loader is chosen by the lower-cased extension. |
| DocumentLoader.LoadPdf | src/document_loader.py:96-111 | The page loop yields `PdfDocs` when pdfplumber is present, and `[]` when it is absent. |
| DocumentLoader.TextPages | src/document_loader.py:100-104 | The listed page indices are all in range. |
| DocumentLoader.TextPagesExact | src/document_loader.py:100-104 | Exactly the pages whose text is not blank are listed, in increasing order. |
| DocumentLoader.PdfDocsByPage | src/document_loader.py:100-104 | One document per non-blank page, in page order. Each has that page's text and `page` equal to its 1-based number. |
| DocumentLoader.PdfDocsKeep | src/document_loader.py:103 | Every PDF document's metadata is the base metadata with `page` added. |
| DocumentLoader.LoadCsv | src/document_loader.py:128-150 | The row loop yields the row documents when pandas parses the file. It yields the one plain-text document when pandas is absent or fails. |
| DocumentLoader.CsvOneDocPerRow | src/document_loader.py:134-137 | A parsed CSV gives one document per row. Its text is the present cells as "col: val" joined by " \n", and `row` is its index. |
| DocumentLoader.CellsAllPresent | src/document_loader.py:135 | A row whose cells are all present reads "col: val" for each column, in column order. |
| DocumentLoader.TwoCellRow | src/document_loader.py:135 | Two present cells read "a: x \nb: y". |
| DocumentLoader.CsvMissingCell | src/document_loader.py:135 | A NaN cell is left out of the row's text. |
| DocumentLoader.CsvExample | tests/test_document_loader.py:100-104 | The rows 1,Alice and 2,Bob read "id: 1 \nname: Alice" and "id: 2 \nname: Bob". |
| DocumentLoader.CsvFallback | src/document_loader.py:138-149 | Without pandas, or when parsing fails, a CSV is exactly one plain-text document with the base metadata. |
| DocumentLoader.NonBlankExact | src/document_loader.py:118 | Exactly the non-blank paragraphs are kept, and never more than there were. |
| DocumentLoader.NonBlankOne | src/document_loader.py:118 | One paragraph is kept exactly when it is not blank. |
| DocumentLoader.NonBlankAppend | src/document_loader.py:118 | The filter works paragraph by paragraph: filtering `a + b` is filtering `a`, then `b`, so the kept paragraphs keep their order. |
| DocumentLoader.DocxOneDocument | src/document_loader.py:114-125 | A DOCX file is exactly one document with the base metadata. Its text is the non-blank paragraphs joined by "\n", or "" without python-docx. |
| DocumentLoader.PlainTextOneDocument | src/document_loader.py:75-76 | A .txt or .md file is exactly one document: the file's text with the base metadata. |
| DocumentLoader.FileDocsProvenance | src/document_loader.py:72-74 | Every document of a file carries the file's basename as `source` and the file's hash. |
| DocumentLoader.LoadEntry | src/document_loader.py:46-50 | A file name is loaded and counted once when its extension is supported. Otherwise it is skipped. |
| DocumentLoader.LoadLevel | src/document_loader.py:45-50 | One walk level gives its supported files' documents in order, and their number. |
| DocumentLoader.LoadWalk | src/document_loader.py:41-53 | The walk gives the documents and the count of the visited levels: the first level only, unless recursive. |
| DocumentLoader.Load | src/document_loader.py:39-58 | A directory gives its walk. A single supported path gives its documents with count 1. A single unsupported path gives `([], 0)`. The documents are `Loaded(target, recursive, io)`, the function `RunIndexing` is specified with. |
| DocumentLoader.WalkPrefix | src/document_loader.py:44-52 | Visiting fewer levels yields a prefix of the documents and no larger count. |
| DocumentLoader.NonRecursiveTopLevel | src/document_loader.py:51-52 | A non-recursive load is exactly the top level. It is a prefix of the recursive load and counts no more files. |
| DocumentLoader.LevelProvenance | src/document_loader.py:45-50 | Each document of a level comes from a supported file of that level, named and hashed as that file. |
| DocumentLoader.WalkProvenance | src/document_loader.py:44-52 | Every loaded document names a supported file of a visited level as `source` and carries that file's hash. |
| Text.StrLeReflexive | main.py:119-127 | Python's string `<=` on the `source` field is reflexive. |
| Text.StrLeTotal | main.py:119-127 | Any two sources are ordered one way or the other. |
| Text.StrLeAntisymmetric | main.py:119-127 | Two sources each `<=` the other are equal. |
| Text.StrLeTransitive | main.py:119-127 | String `<=` is transitive. |
| Text.StripLeft | main.py:157 | The leading whitespace removed: a suffix whose dropped prefix is all whitespace and which does not start with whitespace. |
| Text.StripRight | main.py:157 | The trailing whitespace removed: a prefix whose dropped suffix is all whitespace and which does not end with whitespace. |
| Text.BlankIffStripEmpty | main.py:157 | A text is blank exactly when `strip()` leaves it empty, so `not s.strip()` is `IsBlank`; the same test is used at src/document_loader.py:102 and 118. |
| Text.LowerFoldsCapitals | main.py:155 | `lower()` leaves no ASCII capital, maps each capital to its small letter and keeps every other character. It is also applied to extensions at src/document_loader.py:46. |
| Text.JoinEnds | main.py:130 | `sep.join(parts)` is empty for no parts, starts with the first part and ends with the last. It is also used at src/document_loader.py:119. |
| Text.JoinLength | main.py:130 | A join holds the parts' characters plus one separator between each two neighbouring parts. |
| Text.JoinAppend | main.py:130 | Joining one more part appends the separator and that part. |
| Retrieval.KeyOf | main.py:121-126 | The sort key reads `source`, `page`, `row` and `start_index`. Each missing one defaults to '', 0, 0 and 0. |
| Retrieval.KeyLtIrreflexive | main.py:119-127 | No key sorts before itself. |
| Retrieval.KeyLtAsymmetric | main.py:119-127 | Tuple `<` is asymmetric. |
| Retrieval.KeyLtTransitive | main.py:119-127 | Tuple `<` is transitive. |
| Retrieval.KeyLtTotal | main.py:119-127 | Two different keys are ordered one way or the other. |
| Retrieval.SortBy | main.py:119-127 | The result is ascending by key and holds the same elements with the same multiplicities. |
| Retrieval.InsertSorted | main.py:119-127 | Inserting into a sorted sequence keeps it sorted. |
| Retrieval.SortKeepsMembers | main.py:119-127 | A match is in the sorted list exactly when it was returned by the index. |
| Retrieval.InsertStable | main.py:119 | An inserted match goes after every element that shares its key. |
| Retrieval.SortStable | main.py:119 | `sorted` is stable: matches with equal keys keep the order the index returned them in. |
| Retrieval.SortedUnique | main.py:119-127 | Two sorted sequences that agree on the elements of every key, in order, are equal. |
| Retrieval.SortDependsOnlyOnTies | main.py:119-127 | The retriever's order depends on the index's order only among matches with equal keys. |
| Retrieval.SortedTextsPermutation | main.py:130 | The sorted texts are the returned texts, rearranged. |
| Retrieval.ContextSucceeds | main.py:119-130 | A context comes back exactly when the key fields have comparable types and every match has a text `page_content`. |
| Retrieval.Context | main.py:119-130 | No matches give "". Incomparable key types fail with `KeysNotComparable`. Otherwise a match without `page_content` fails with `MissingPageContent`, and then one whose `page_content` is not a string fails with `PageContentNotText`. |
| Retrieval.ContextJoinsSortedTexts | main.py:130 | The context is the key-sorted texts joined by "\n---\n", and those texts are a permutation of the matches' texts. |
| Retrieval.EmptyContext | main.py:130 | No matches give the empty context. |
| Retrieval.TwoSourcesExample | main.py:113-131 | Chunks of b.txt and a.txt returned in that order give the context "A\n---\nB". |
| Retrieval.Retrieve | main.py:113-131 | At most five matches, each a stored record, and none without an index. The context is `Context` of those matches, which is "" without an index. |
| Cli.StopIndex | main.py:152-156 | The session ends at the first input that is end of input, an interrupt, or a line whose lower-case is "exit". No earlier input ends it. |
| Cli.StopsExactly | main.py:152-166 | An input ends the session exactly when it is end of input, an interrupt, or a four-character line spelling "exit" in any mix of cases. |
| Cli.QueryLoop | main.py:152-166 | The loop asks exactly `Questions(inputs)`, in order, and answers each with the chain. It reads up to and including the input that ends the session. |
| Cli.AskedAreQuestions | main.py:155-158 | No question put to the chain is blank or "exit" in any case. |
| Cli.AskedExactly | main.py:152-161 | A text is asked exactly when some input line carries it and it is neither blank nor "exit" in any case. |
| Cli.IgnoresAfterStop | main.py:152-166 | Nothing after the input that ends the session is read or asked. |
| Cli.ExitAnyCase | main.py:155 | "EXIT" and "Exit" end the session. |
| Cli.PaddedExitIsAsked | main.py:155-158 | The line is compared before stripping: " exit" is asked as a question. |
| Cli.RunIndexing | main.py:31-77 | Missing pinecone-client, then an unset API key, then an unset index name raise in that order. No documents, or no chunks, return before embedding and upserting. Otherwise the upsert of the embedded chunks at batch size 100 fails with `NoDimension` exactly when it would create the index from an empty first embedding. When it succeeds, the index's records are the old records replayed with that upsert's calls. Every outcome other than success leaves the service unchanged. |

## Left out

- SHA-256 hashing (`_compute_file_hash`), file reading and the pdfplumber, python-docx and pandas parsers are outside code. Their results are functions of the path in `DocumentLoader.Io`, and the presence of each library is a flag. Exceptions raised by pdfplumber or python-docx are not modelled. A pandas failure is modelled as the CSV fallback.
- pandas' own reading of CSV files (column renaming, type inference despite `dtype=str`) is not modelled. A parsed file is its rows of (column, cell-or-NaN).
- DocumentLoader.Load, DocumentLoader.LoadFile: a file that cannot be opened is not modelled. In the source, the `open` in `_compute_file_hash` (src/document_loader.py:63) or in `_load_text` (src/document_loader.py:91) raises, and the error leaves `load` and `run_indexing` uncaught. In the model, `Io` is total: every listed path has a hash and a text, so its documents are always produced and counted.
- `load`'s `base_dir` is computed and passed on but never used by any loader. The model leaves it out.
- The Pinecone network calls and the service's cosine ranking: `IndexHandle.Query` returns any at-most-`top_k` selection of stored records, with distinct ids. The namespace, metric and serverless spec of `create_index` are not modelled.
- src/embeddings.py is not part of this model. Embedding is a parameter of `RunIndexing` from chunks to items, and `Retrieve` takes the query's embedding as its input.
- `CharacterTextSplitter.split_text` is not part of this model. It is a parameter, so its chunk sizes, overlap and `start_index` are not modelled.
- The language model, the prompt template, argparse, dotenv, asyncio, logging and printing are not modelled. The query loop takes the RAG chain as a function `answer`.
- Cli.QueryLoop: the chain `answer` is a function that always returns. In the source, an interrupt while an answer is generated ends the loop. Any exception raised by `rag_chain.ainvoke` also leaves the `while True`, because main.py:165 catches only `KeyboardInterrupt` and `EOFError`. That includes the `KeyError` and `TypeError` of the retriever, which `Retrieval.Context` returns as a `Failure`. So the source asks `Questions(inputs)` only while every answer returns.
- Text.Lower: lower-cases ASCII letters only. Python's `str.lower` also maps other letters. Only the Kelvin sign lower-cases into an ASCII letter ('k'), so the comparisons this program makes against ".txt", ".md", ".pdf", ".docx", ".csv" and "exit" are decided the same way.
- Retrieval.Context, Retrieval.ContextSucceeds: report `KeysNotComparable` whenever a present key field has the wrong type (a non-string `source`, a non-integer `page`, `row` or `start_index`). Python raises `TypeError` only when `sorted` happens to compare two such mismatched values, for example never with a single match.
- A crash between the delete of a hash and the inserts of its group leaves the index without that file's records. The source has no recovery for it, and the model treats each call as atomic.
- Vector values are sequences of reals, and only their length (the index dimension) matters. The code never checks a later item's dimension against the index, and neither does the model.
- `DocumentLoader.load`'s loop bodies are separate methods (`LoadEntry`, `LoadLevel`, `LoadWalk`) rather than one nested loop. `LoadLevel` and `LoadWalk` each have their own loop, and `LoadEntry` is the inner loop's body; each has its own contract.
- Index handles are objects shared by the client and the manager, as in the source. The service's `describe_index(...).host` indirection is not modelled: `Client.Index` returns the handle by name.
