/**
 * `DocumentLoader` of src/document_loader.py: which files of a directory walk
 * are loaded, and the documents each supported format turns into.
 *
 * The file system and the parsers are inputs. A directory is the sequence of
 * levels `os.walk` yields; a file's SHA-256 hash, its text, its PDF pages, its
 * DOCX paragraphs and its pandas rows are functions of its path (`Io`).
 */
module DocumentLoader {
  import opened Wrappers
  import opened Documents
  import opened Text
  import Seqs

  /** `DocumentLoader.SUPPORTED`. */
  const Supported: set<string> := {".txt", ".md", ".pdf", ".docx", ".csv"}

  // ---------------------------------------------------------------------------
  // Paths

  /** `s.rfind(c)`: the index of the last `c` in `s`, or -1. */
  function LastIndex(s: string, c: char): (r: int)
    ensures -1 <= r < |s|
    ensures r >= 0 ==> s[r] == c
    ensures forall k | r < k < |s| :: s[k] != c
    decreases |s|
  {
    if s == [] then -1
    else if s[|s| - 1] == c then |s| - 1
    else LastIndex(s[..|s| - 1], c)
  }

  /** `os.path.basename(p)`: what follows the last '/'. */
  function Basename(p: string): (r: string)
    ensures '/' !in r
    ensures '/' !in p ==> r == p
  {
    var i := LastIndex(p, '/') + 1;
    assert forall k | 0 <= k < |p| - i :: p[i..][k] == p[i + k];
    p[i..]
  }

  /**
   * `os.path.splitext(p)[1]`: from the last '.' of the basename on, unless
   * that basename has nothing but dots before it (".bashrc" has no extension).
   */
  function Extension(p: string): (r: string)
    ensures r == "" || r[0] == '.'
  {
    var b := Basename(p);
    var d := LastIndex(b, '.');
    if d > 0 && exists k :: 0 <= k < d && b[k] != '.' then b[d..] else ""
  }

  /** The basename is the part of the path after its last '/' (or all of it). */
  lemma BasenameIsLastPart(p: string)
    ensures exists i | 0 <= i <= |p| :: Basename(p) == p[i..] && (i == 0 || p[i - 1] == '/')
    ensures forall k | 0 <= k < |Basename(p)| :: Basename(p)[k] != '/'
  {
    var i := LastIndex(p, '/') + 1;
    assert Basename(p) == p[i..];
  }

  /**
   * `splitext`'s promise: the extension ends the basename, holds exactly one
   * '.', its first character; and it is empty only when no '.' of the
   * basename follows a character other than '.'.
   */
  lemma ExtensionIsSuffix(p: string)
    ensures var b, r := Basename(p), Extension(p);
            && |r| <= |b| && r == b[|b| - |r|..]
            && (r != "" ==> r[0] == '.' && '.' !in r[1..])
            && (r != "" <==> exists k, j | 0 <= k < j < |b| :: b[k] != '.' && b[j] == '.')
  {
  }

  /** The lower-cased extension both `load` and `_load_file` test. */
  function Ext(p: string): string
  {
    Lower(Extension(p))
  }

  /** The loader `_load_file` dispatches to for a lower-cased extension. */
  datatype Format = PlainText | Pdf | Docx | Csv | Unsupported

  function FormatOf(ext: string): Format
  {
    if ext == ".txt" || ext == ".md" then PlainText
    else if ext == ".pdf" then Pdf
    else if ext == ".docx" then Docx
    else if ext == ".csv" then Csv
    else Unsupported
  }

  /** The test `load` applies to a file name: its lower-cased extension is in `SUPPORTED`. */
  predicate IsSupported(p: string)
  {
    Ext(p) in Supported
  }

  /**
   * `os.path.join(root, f)`: an absolute `f` replaces `root`; otherwise `f`
   * follows `root`, with a '/' added between them only when `root` is not
   * empty and does not already end in '/'.
   */
  function PathJoin(root: string, f: string): (r: string)
    ensures |f| > 0 && f[0] == '/' ==> r == f
    ensures |f| <= |r| && r[|r| - |f|..] == f
    ensures !(|f| > 0 && f[0] == '/') ==> |root| <= |r| - |f| && r[..|root|] == root
    ensures !(|f| > 0 && f[0] == '/') && root != [] ==> r[|r| - |f| - 1] == '/' && |r| - |f| - 1 <= |root|
    ensures !(|f| > 0 && f[0] == '/') ==>
      |r| == |root| + |f| + (if root == [] || root[|root| - 1] == '/' then 0 else 1)
  {
    if |f| > 0 && f[0] == '/' then f
    else if root == [] || root[|root| - 1] == '/' then root + f
    else root + "/" + f
  }

  /** An empty root adds nothing, and a root that ends in '/' gets no second '/'. */
  lemma PathJoinSeparator()
    ensures PathJoin("", "a.txt") == "a.txt"
    ensures PathJoin("docs/", "a.txt") == "docs/a.txt"
    ensures PathJoin("docs", "a.txt") == "docs/a.txt"
    ensures PathJoin("docs", "/tmp/a.txt") == "/tmp/a.txt"
  {
  }

  // ---------------------------------------------------------------------------
  // The outside world

  /** A pandas row: each column's name with its cell, `None` where the cell is NaN. */
  type Row = seq<(string, Option<string>)>

  /**
   * What `load` learns from outside: each file's SHA-256 hex digest, its text
   * read as UTF-8 with errors ignored, which parsers are installed and what
   * they return. A PDF page is `None` where `extract_text()` returns `None`;
   * `readCsv` is `None` where `pd.read_csv` raises.
   */
  datatype Io = Io(
    hashOf: string -> string,
    readText: string -> string,
    havePdfplumber: bool,
    pdfPages: string -> seq<Option<string>>,
    haveDocx: bool,
    docxParagraphs: string -> seq<string>,
    havePandas: bool,
    readCsv: string -> Option<seq<Row>>)

  /** One level of `os.walk`: a directory and the names of the files directly in it. */
  datatype Level = Level(root: string, files: seq<string>)

  /** The argument of `load`: a directory, as its walk, or any other path. */
  datatype Target = Directory(walk: seq<Level>) | NotDirectory(path: string)

  // ---------------------------------------------------------------------------
  // Documents of one file

  /** `meta_base`: the file's basename as `source` and its hash. */
  function BaseMeta(path: string, io: Io): Metadata
  {
    map["source" := Str(Basename(path)), "hash" := Str(io.hashOf(path))]
  }

  /** `_load_text`: the whole file as one document. */
  function TextDoc(path: string, meta: Metadata, io: Io): Document
  {
    Document(io.readText(path), meta)
  }

  /** `page.extract_text() or ""`. */
  function PageText(page: Option<string>): string
  {
    if page.Some? then page.value else ""
  }

  /** The document of the page numbered `number`: its text, and the base metadata with `page`. */
  function PageDocument(page: Option<string>, number: int, meta: Metadata): Document
  {
    Document(PageText(page), meta["page" := Int(number)])
  }

  /** What `_load_pdf` appends for the page numbered `number`: nothing when its text is blank. */
  function PageDoc(page: Option<string>, number: int, meta: Metadata): seq<Document>
  {
    if IsBlank(PageText(page)) then [] else [PageDocument(page, number, meta)]
  }

  /** The documents `_load_pdf` builds from `pages` when pdfplumber is installed. */
  function PdfDocs(pages: seq<Option<string>>, meta: Metadata): seq<Document>
  {
    if pages == [] then []
    else PdfDocs(pages[..|pages| - 1], meta) + PageDoc(pages[|pages| - 1], |pages|, meta)
  }

  /** The 0-based indices of the pages whose text is not blank, in page order. */
  function TextPages(pages: seq<Option<string>>): (r: seq<nat>)
    ensures forall j | 0 <= j < |r| :: r[j] < |pages|
  {
    if pages == [] then []
    else TextPages(pages[..|pages| - 1]) + (if IsBlank(PageText(pages[|pages| - 1])) then [] else [|pages| - 1])
  }

  /** The "col: val" strings of a row's present cells, in column order. */
  function Cells(row: Row): seq<string>
  {
    if row == [] then []
    else
      var (col, cell) := row[|row| - 1];
      Cells(row[..|row| - 1]) + (if cell.Some? then [col + ": " + cell.value] else [])
  }

  /** The text of the document `_load_csv` makes from one row. */
  function RowText(row: Row): string
  {
    Join(Cells(row), " \n")
  }

  /** One document per row, numbered from 0 in `row`. */
  function CsvDocs(rows: seq<Row>, meta: Metadata): seq<Document>
  {
    seq(|rows|, i requires 0 <= i < |rows| => Document(RowText(rows[i]), meta["row" := Int(i)]))
  }

  /** `_load_csv`: rows when pandas is installed and parses the file, otherwise the raw text. */
  function CsvFileDocs(path: string, meta: Metadata, io: Io): seq<Document>
  {
    if !io.havePandas then [TextDoc(path, meta, io)]
    else match io.readCsv(path)
      case None => [TextDoc(path, meta, io)]
      case Some(rows) => CsvDocs(rows, meta)
  }

  /** The paragraphs `p.text and p.text.strip()` keeps. */
  function NonBlank(paragraphs: seq<string>): seq<string>
  {
    if paragraphs == [] then []
    else
      var last := paragraphs[|paragraphs| - 1];
      NonBlank(paragraphs[..|paragraphs| - 1]) + (if IsBlank(last) then [] else [last])
  }

  /** The text `_load_docx` gives its one document. */
  function DocxText(path: string, io: Io): string
  {
    if io.haveDocx then Join(NonBlank(io.docxParagraphs(path)), "\n") else ""
  }

  /** `_load_file`: dispatch on the lower-cased extension. */
  function FileDocs(path: string, io: Io): seq<Document>
  {
    var meta := BaseMeta(path, io);
    match FormatOf(Ext(path))
    case PlainText => [TextDoc(path, meta, io)]
    case Pdf => if io.havePdfplumber then PdfDocs(io.pdfPages(path), meta) else []
    case Docx => [Document(DocxText(path, io), meta)]
    case Csv => CsvFileDocs(path, meta, io)
    case Unsupported => []
  }

  // ---------------------------------------------------------------------------
  // The walk

  /**
   * What the walk does with one file: whether its name passes the extension
   * test, and the documents its path loads to.
   */
  datatype FileLoader = FileLoader(accepts: string -> bool, docsOf: string -> seq<Document>)

  /** The file loader of `load`: the lower-cased extension in `SUPPORTED`, then `_load_file`. */
  function LoaderOf(io: Io): FileLoader
  {
    FileLoader(IsSupported, p => FileDocs(p, io))
  }

  /** The documents of the accepted files among `files`, in order. */
  function LevelDocs(root: string, files: seq<string>, ld: FileLoader): seq<Document>
  {
    if files == [] then []
    else
      var f := files[|files| - 1];
      LevelDocs(root, files[..|files| - 1], ld) + (if ld.accepts(f) then ld.docsOf(PathJoin(root, f)) else [])
  }

  /** The number of accepted files among `files`. */
  function LevelCount(files: seq<string>, ld: FileLoader): nat
  {
    if files == [] then 0
    else LevelCount(files[..|files| - 1], ld) + (if ld.accepts(files[|files| - 1]) then 1 else 0)
  }

  /** The documents of every level of `levels`, level after level. */
  function WalkDocs(levels: seq<Level>, ld: FileLoader): seq<Document>
  {
    if levels == [] then []
    else
      var l := levels[|levels| - 1];
      WalkDocs(levels[..|levels| - 1], ld) + LevelDocs(l.root, l.files, ld)
  }

  /** The number of accepted files in every level of `levels`. */
  function WalkCount(levels: seq<Level>, ld: FileLoader): nat
  {
    if levels == [] then 0
    else WalkCount(levels[..|levels| - 1], ld) + LevelCount(levels[|levels| - 1].files, ld)
  }

  /** The levels `load` visits: all of them, or only the top one when not recursive. */
  function Visited(walk: seq<Level>, recursive: bool): seq<Level>
  {
    if recursive || |walk| <= 1 then walk else walk[..1]
  }

  // ---------------------------------------------------------------------------
  // The loader's methods

  /** `_load_pdf`. */
  method LoadPdf(path: string, meta: Metadata, io: Io) returns (pages: seq<Document>)
    ensures pages == (if io.havePdfplumber then PdfDocs(io.pdfPages(path), meta) else [])
  {
    pages := [];
    if io.havePdfplumber {
      var pdf := io.pdfPages(path);
      var i := 0;
      while i < |pdf|
        invariant 0 <= i <= |pdf|
        invariant pages == PdfDocs(pdf[..i], meta)
      {
        var txt := PageText(pdf[i]);
        if !IsBlank(txt) {
          var m := meta["page" := Int(i + 1)];
          pages := pages + [Document(txt, m)];
        }
        assert pdf[..i + 1][..i] == pdf[..i];
        i := i + 1;
      }
      assert pdf[..i] == pdf;
    }
  }

  /** `_load_csv`. */
  method LoadCsv(path: string, meta: Metadata, io: Io) returns (docs: seq<Document>)
    ensures docs == CsvFileDocs(path, meta, io)
  {
    if !io.havePandas {
      return [TextDoc(path, meta, io)];
    }
    var parsed := io.readCsv(path);
    if parsed.None? {
      return [TextDoc(path, meta, io)];
    }
    var rows := parsed.value;
    docs := [];
    var i := 0;
    while i < |rows|
      invariant 0 <= i <= |rows|
      invariant docs == CsvDocs(rows, meta)[..i]
    {
      var content := RowText(rows[i]);
      docs := docs + [Document(content, meta["row" := Int(i)])];
      i := i + 1;
    }
  }

  /** `_load_file`. */
  method LoadFile(path: string, io: Io) returns (docs: seq<Document>)
    ensures docs == FileDocs(path, io)
  {
    var ext := Ext(path);
    var meta := BaseMeta(path, io);
    if ext == ".txt" || ext == ".md" {
      return [TextDoc(path, meta, io)];
    }
    if ext == ".pdf" {
      docs := LoadPdf(path, meta, io);
      return;
    }
    if ext == ".docx" {
      return [Document(DocxText(path, io), meta)];
    }
    if ext == ".csv" {
      docs := LoadCsv(path, meta, io);
      return;
    }
    return [];
  }

  /** One file name of a walk level: loaded and counted when its extension is supported. */
  method LoadEntry(root: string, f: string, io: Io) returns (fileDocs: seq<Document>, counted: nat)
    ensures fileDocs == (if IsSupported(f) then FileDocs(PathJoin(root, f), io) else [])
    ensures counted == (if IsSupported(f) then 1 else 0)
  {
    fileDocs, counted := [], 0;
    if IsSupported(f) {
      counted := 1;
      var fullPath := PathJoin(root, f);
      fileDocs := LoadFile(fullPath, io);
    }
  }

  /** The body of `load`'s walk for one level: the supported files directly under `root`, in order. */
  method LoadLevel(root: string, files: seq<string>, io: Io) returns (docs: seq<Document>, fileCount: nat)
    ensures docs == LevelDocs(root, files, LoaderOf(io)) && fileCount == LevelCount(files, LoaderOf(io))
  {
    docs := [];
    fileCount := 0;
    var i := 0;
    while i < |files|
      invariant 0 <= i <= |files|
      invariant docs == LevelDocs(root, files[..i], LoaderOf(io))
      invariant fileCount == LevelCount(files[..i], LoaderOf(io))
    {
      LevelStep(root, files, i, LoaderOf(io));
      var fileDocs, counted := LoadEntry(root, files[i], io);
      docs := docs + fileDocs;
      fileCount := fileCount + counted;
      i := i + 1;
    }
    assert files[..i] == files;
  }

  /** `load` on a directory: its walk, cut after the first level unless `recursive`. */
  method LoadWalk(walk: seq<Level>, recursive: bool, io: Io) returns (docs: seq<Document>, fileCount: nat)
    ensures docs == WalkDocs(Visited(walk, recursive), LoaderOf(io))
    ensures fileCount == WalkCount(Visited(walk, recursive), LoaderOf(io))
  {
    docs := [];
    fileCount := 0;
    var l := 0;
    while l < |walk|
      invariant 0 <= l <= |walk|
      invariant !recursive ==> l == 0
      invariant docs == WalkDocs(walk[..l], LoaderOf(io)) && fileCount == WalkCount(walk[..l], LoaderOf(io))
    {
      var level := walk[l];
      var levelDocs, levelCount := LoadLevel(level.root, level.files, io);
      docs := docs + levelDocs;
      fileCount := fileCount + levelCount;
      assert walk[..l + 1][..l] == walk[..l];
      l := l + 1;
      if !recursive {
        break;
      }
    }
    assert walk[..l] == Visited(walk, recursive);
  }

  /** The documents `load(path, recursive)` returns, the walk's or the single file's. */
  function Loaded(target: Target, recursive: bool, io: Io): seq<Document>
  {
    match target
    case Directory(walk) => WalkDocs(Visited(walk, recursive), LoaderOf(io))
    case NotDirectory(path) => if IsSupported(path) then FileDocs(path, io) else []
  }

  /**
   * `load`: the documents of the supported files and their number. A
   * directory is walked level by level, stopping after the first level unless
   * `recursive`; any other path is loaded on its own when its extension is
   * supported.
   */
  method Load(target: Target, recursive: bool, io: Io) returns (docs: seq<Document>, fileCount: nat)
    ensures target.Directory? ==>
              && docs == WalkDocs(Visited(target.walk, recursive), LoaderOf(io))
              && fileCount == WalkCount(Visited(target.walk, recursive), LoaderOf(io))
    ensures target.NotDirectory? && IsSupported(target.path) ==>
              docs == FileDocs(target.path, io) && fileCount == 1
    ensures target.NotDirectory? && !IsSupported(target.path) ==>
              docs == [] && fileCount == 0
    ensures docs == Loaded(target, recursive, io)
  {
    match target
    case Directory(walk) =>
      docs, fileCount := LoadWalk(walk, recursive, io);
    case NotDirectory(path) =>
      if IsSupported(path) {
        docs := LoadFile(path, io);
        fileCount := 1;
      } else {
        docs, fileCount := [], 0;
      }
  }

  /** One more file of a level: its documents and its count, if it is supported. */
  lemma LevelStep(root: string, files: seq<string>, i: nat, ld: FileLoader)
    requires i < |files|
    ensures LevelDocs(root, files[..i + 1], ld)
         == LevelDocs(root, files[..i], ld) + (if ld.accepts(files[i]) then ld.docsOf(PathJoin(root, files[i])) else [])
    ensures LevelCount(files[..i + 1], ld) == LevelCount(files[..i], ld) + (if ld.accepts(files[i]) then 1 else 0)
  {
    assert files[..i + 1][..i] == files[..i];
  }

  // ---------------------------------------------------------------------------
  // Lemmas: paths

  /** After a prefix ending in `c`, followed by text free of `c`, the last `c` is the prefix's last character. */
  lemma LastIndexAfter(prefix: string, rest: string, c: char)
    requires prefix != [] && prefix[|prefix| - 1] == c && c !in rest
    ensures LastIndex(prefix + rest, c) == |prefix| - 1
  {
    var p := prefix + rest;
    var r := LastIndex(p, c);
    assert p[|prefix| - 1] == c;
    assert forall k | |prefix| <= k < |p| :: p[k] == rest[k - |prefix|];
  }

  /** `os.path.join` of a directory and a plain file name has that name as basename. */
  lemma BasenameOfJoin(root: string, f: string)
    requires '/' !in f
    ensures Basename(PathJoin(root, f)) == f
  {
    var p := PathJoin(root, f);
    if root == [] {
      assert p == f;
    } else if |f| == 0 || f[0] != '/' {
      var prefix := if root[|root| - 1] == '/' then root else root + "/";
      assert p == prefix + f;
      LastIndexAfter(prefix, f, '/');
      assert p[|prefix|..] == f;
    }
  }

  /** A walk's file name keeps its basename and extension once joined to its directory. */
  lemma JoinKeepsName(root: string, f: string)
    requires '/' !in f
    ensures Basename(PathJoin(root, f)) == f
    ensures Ext(PathJoin(root, f)) == Ext(f)
  {
    BasenameOfJoin(root, f);
    assert Extension(PathJoin(root, f)) == Extension(f);
  }

  /** `SUPPORTED` is exactly the set of extensions `_load_file` has a loader for. */
  lemma SupportedHaveLoaders(ext: string)
    ensures FormatOf(ext) != Unsupported <==> ext in Supported
  {
  }

  /** The index of a `c` with no `c` after it is the last index of `c`. */
  lemma LastIndexAt(s: string, c: char, i: nat)
    requires i < |s| && s[i] == c && forall k | i < k < |s| :: s[k] != c
    ensures LastIndex(s, c) == i
  {
  }

  lemma ExtensionOfUpperCasePdf()
    ensures Extension("report.PDF") == ".PDF"
  {
    var p := "report.PDF";
    assert '/' !in p;
    LastIndexAt(p, '.', 6);
    assert p[0] != '.';
    assert p[6..] == ".PDF";
  }

  /** Only the extension is lower-cased for the test: "report.PDF" is a PDF. */
  lemma UpperCaseExtension()
    ensures Ext("report.PDF") == ".pdf"
  {
    ExtensionOfUpperCasePdf();
    LowerPdf();
  }

  lemma LowerPdf()
    ensures Lower(".PDF") == ".pdf"
  {
    var r := Lower(".PDF");
    assert r[0] == '.' && r[1] == 'p' && r[2] == 'd' && r[3] == 'f';
  }

  /** Only the last dot counts: "a.tar.gz" has extension ".gz". */
  lemma LastDotExtension()
    ensures Ext("a.tar.gz") == ".gz"
  {
    var p := "a.tar.gz";
    assert '/' !in p;
    LastIndexAt(p, '.', 5);
    assert p[0] != '.';
    assert p[5..] == ".gz";
    assert Lower(".gz") == ".gz";
  }

  /** A name that is only dots before its last dot has no extension: ".md" is not a Markdown file. */
  lemma LeadingDotExtension()
    ensures Ext(".md") == ""
  {
    var p := ".md";
    assert '/' !in p;
    LastIndexAt(p, '.', 0);
    assert Extension(p) == "";
  }

  // ---------------------------------------------------------------------------
  // Lemmas: one file

  /** The document carries file `name` with hash `hash` in its metadata. */
  predicate FromFile(d: Document, name: string, hash: string)
  {
    && "source" in d.metadata && d.metadata["source"] == Str(name)
    && "hash" in d.metadata && d.metadata["hash"] == Str(hash)
  }

  /** TextPages lists, in increasing order, exactly the pages whose text is not blank. */
  lemma {:induction false} TextPagesExact(pages: seq<Option<string>>)
    ensures forall j, j' | 0 <= j < j' < |TextPages(pages)| :: TextPages(pages)[j] < TextPages(pages)[j']
    ensures forall k | 0 <= k < |pages| :: k in TextPages(pages) <==> !IsBlank(PageText(pages[k]))
    decreases |pages|
  {
    if pages != [] {
      var init := pages[..|pages| - 1];
      TextPagesExact(init);
      assert forall k | 0 <= k < |init| :: init[k] == pages[k];
    }
  }

  /** Document `j` of `docs` is page `idx[j]` of `pages`, numbered from 1. */
  predicate PagesAgree(docs: seq<Document>, idx: seq<nat>, pages: seq<Option<string>>, meta: Metadata)
  {
    && |docs| == |idx|
    && forall j | 0 <= j < |idx| :: idx[j] < |pages| && docs[j] == PageDocument(pages[idx[j]], idx[j] + 1, meta)
  }

  /**
   * `_load_pdf` makes one document per non-blank page, in page order, whose
   * text is that page's text and whose `page` is its 1-based number.
   */
  lemma {:induction false} PdfDocsByPage(pages: seq<Option<string>>, meta: Metadata)
    ensures PagesAgree(PdfDocs(pages, meta), TextPages(pages), pages, meta)
    decreases |pages|
  {
    if pages != [] {
      var n := |pages|;
      var init := pages[..n - 1];
      PdfDocsByPage(init, meta);
      AgreeOnLongerPages(PdfDocs(init, meta), TextPages(init), pages, meta);
      var extra: seq<nat> := if IsBlank(PageText(pages[n - 1])) then [] else [n - 1];
      LastPageAgrees(pages, meta);
      AgreeAppend(PdfDocs(init, meta), TextPages(init), PageDoc(pages[n - 1], n, meta), extra, pages, meta);
      assert PdfDocs(pages, meta) == PdfDocs(init, meta) + PageDoc(pages[n - 1], n, meta);
      assert TextPages(pages) == TextPages(init) + extra;
    }
  }

  lemma LastPageAgrees(pages: seq<Option<string>>, meta: Metadata)
    requires pages != []
    ensures var n := |pages|;
      PagesAgree(PageDoc(pages[n - 1], n, meta), if IsBlank(PageText(pages[n - 1])) then [] else [n - 1], pages, meta)
  {
  }

  lemma AgreeOnLongerPages(docs: seq<Document>, idx: seq<nat>, pages: seq<Option<string>>, meta: Metadata)
    requires pages != [] && PagesAgree(docs, idx, pages[..|pages| - 1], meta)
    ensures PagesAgree(docs, idx, pages, meta)
  {
    assert forall j | 0 <= j < |idx| :: pages[..|pages| - 1][idx[j]] == pages[idx[j]];
  }

  lemma AgreeAppend(docs: seq<Document>, idx: seq<nat>, docs': seq<Document>, idx': seq<nat>,
                    pages: seq<Option<string>>, meta: Metadata)
    requires PagesAgree(docs, idx, pages, meta) && PagesAgree(docs', idx', pages, meta)
    ensures PagesAgree(docs + docs', idx + idx', pages, meta)
  {
    forall j | 0 <= j < |idx + idx'|
      ensures (idx + idx')[j] < |pages|
      ensures (docs + docs')[j] == PageDocument(pages[(idx + idx')[j]], (idx + idx')[j] + 1, meta)
    {
      if j >= |idx| {
        assert (idx + idx')[j] == idx'[j - |idx|];
      }
    }
  }

  /** Every PDF document keeps the base metadata, with `page` added. */
  lemma {:induction false} PdfDocsKeep(pages: seq<Option<string>>, meta: Metadata)
    ensures forall d | d in PdfDocs(pages, meta) :: exists n :: d.metadata == meta["page" := Int(n)]
    decreases |pages|
  {
    if pages != [] {
      PdfDocsKeep(pages[..|pages| - 1], meta);
      var n := |pages|;
      assert forall d | d in PageDoc(pages[n - 1], n, meta) :: d.metadata == meta["page" := Int(n)];
    }
  }

  /** Documents whose metadata is the file's base metadata plus one more key keep its `source` and `hash`. */
  lemma TaggedKeepsBase(docs: seq<Document>, path: string, io: Io, key: string)
    requires key != "source" && key != "hash"
    requires forall d | d in docs :: exists n :: d.metadata == BaseMeta(path, io)[key := Int(n)]
    ensures forall d | d in docs :: FromFile(d, Basename(path), io.hashOf(path))
  {
    forall d | d in docs
      ensures FromFile(d, Basename(path), io.hashOf(path))
    {
      var n :| d.metadata == BaseMeta(path, io)[key := Int(n)];
    }
  }

  lemma CsvProvenance(path: string, io: Io)
    ensures forall d | d in CsvFileDocs(path, BaseMeta(path, io), io) :: FromFile(d, Basename(path), io.hashOf(path))
  {
    if io.havePandas && io.readCsv(path).Some? {
      var meta := BaseMeta(path, io);
      var rows := io.readCsv(path).value;
      assert forall d | d in CsvDocs(rows, meta) :: exists n :: d.metadata == meta["row" := Int(n)];
      TaggedKeepsBase(CsvDocs(rows, meta), path, io, "row");
    }
  }

  /** Every document of a file carries its basename as `source` and its hash. */
  lemma FileDocsProvenance(path: string, io: Io)
    ensures forall d | d in FileDocs(path, io) :: FromFile(d, Basename(path), io.hashOf(path))
  {
    var meta := BaseMeta(path, io);
    match FormatOf(Ext(path))
    case Pdf =>
      if io.havePdfplumber {
        PdfDocsKeep(io.pdfPages(path), meta);
        TaggedKeepsBase(PdfDocs(io.pdfPages(path), meta), path, io, "page");
      }
    case Csv =>
      CsvProvenance(path, io);
    case _ =>
  }

  /** A CSV row's cells that are all present read "col: val" in column order. */
  lemma {:induction false} CellsAllPresent(row: Row)
    requires forall i | 0 <= i < |row| :: row[i].1.Some?
    ensures Cells(row) == seq(|row|, i requires 0 <= i < |row| => row[i].0 + ": " + row[i].1.value)
    decreases |row|
  {
    if row != [] {
      var init := row[..|row| - 1];
      assert forall i | 0 <= i < |init| :: init[i] == row[i];
      CellsAllPresent(init);
    }
  }

  /** A row of two present cells reads "a: x \nb: y". */
  lemma TwoCellRow(a: string, x: string, b: string, y: string)
    ensures RowText([(a, Some(x)), (b, Some(y))]) == a + ": " + x + " \n" + b + ": " + y
  {
    var row: Row := [(a, Some(x)), (b, Some(y))];
    assert row[..1][..0] == [];
    assert Cells(row[..1]) == [a + ": " + x];
    var cells := [a + ": " + x, b + ": " + y];
    assert Cells(row) == cells;
    assert cells[1..] == [b + ": " + y];
    assert Join(cells, " \n") == (a + ": " + x) + " \n" + (b + ": " + y);
  }

  /** The rows of the CSV file "id,name / 1,Alice / 2,Bob" read "id: 1 \nname: Alice" and "id: 2 \nname: Bob". */
  lemma CsvExample()
    ensures RowText([("id", Some("1")), ("name", Some("Alice"))]) == "id: 1 \nname: Alice"
    ensures RowText([("id", Some("2")), ("name", Some("Bob"))]) == "id: 2 \nname: Bob"
  {
    TwoCellRow("id", "1", "name", "Alice");
    TwoCellRow("id", "2", "name", "Bob");
    assert "id" + ": " + "1" + " \n" + "name" + ": " + "Alice" == "id: 1 \nname: Alice";
    assert "id" + ": " + "2" + " \n" + "name" + ": " + "Bob" == "id: 2 \nname: Bob";
  }

  /** A cell pandas reads as NaN is left out of the row's text. */
  lemma CsvMissingCell()
    ensures RowText([("id", Some("3")), ("name", None)]) == "id: 3"
  {
    var r: Row := [("id", Some("3")), ("name", None)];
    assert r[..1][..0] == [];
    assert Cells(r[..1]) == ["id" + ": " + "3"];
    assert "id" + ": " + "3" == "id: 3";
  }

  /** A parsed CSV gives one document per row, with `row` counting from 0 and the base metadata kept. */
  lemma CsvOneDocPerRow(path: string, io: Io, rows: seq<Row>)
    requires Ext(path) == ".csv" && io.havePandas && io.readCsv(path) == Some(rows)
    ensures |FileDocs(path, io)| == |rows|
    ensures forall i | 0 <= i < |rows| ::
              && FileDocs(path, io)[i].pageContent == Join(Cells(rows[i]), " \n")
              && FileDocs(path, io)[i].metadata == BaseMeta(path, io)["row" := Int(i)]
  {
    assert FormatOf(Ext(path)) == Csv;
    assert FileDocs(path, io) == CsvDocs(rows, BaseMeta(path, io));
  }

  /** Without pandas, or when parsing fails, a CSV file is one plain-text document with the base metadata. */
  lemma CsvFallback(path: string, io: Io)
    requires Ext(path) == ".csv" && (!io.havePandas || io.readCsv(path).None?)
    ensures FileDocs(path, io) == [Document(io.readText(path), BaseMeta(path, io))]
  {
  }

  /** NonBlank keeps exactly the paragraphs that are not blank (their order: `NonBlankAppend`). */
  lemma {:induction false} NonBlankExact(paragraphs: seq<string>)
    ensures forall p :: p in NonBlank(paragraphs) <==> p in paragraphs && !IsBlank(p)
    ensures |NonBlank(paragraphs)| <= |paragraphs|
    decreases |paragraphs|
  {
    if paragraphs != [] {
      var init := paragraphs[..|paragraphs| - 1];
      NonBlankExact(init);
      assert paragraphs == init + [paragraphs[|paragraphs| - 1]];
    }
  }

  /** One paragraph is kept unless it is blank. */
  lemma NonBlankOne(p: string)
    ensures NonBlank([p]) == (if IsBlank(p) then [] else [p])
  {
    assert [p][..0] == [];
  }

  lemma NonBlankSnoc(init: seq<string>, last: string)
    ensures NonBlank(init + [last]) == NonBlank(init) + NonBlank([last])
  {
    var s := init + [last];
    assert s[..|s| - 1] == init;
    NonBlankOne(last);
  }

  /**
   * The paragraphs are filtered one by one and keep their order: filtering
   * `a + b` is filtering `a`, then `b`.
   */
  lemma {:induction false} NonBlankAppend(a: seq<string>, b: seq<string>)
    ensures NonBlank(a + b) == NonBlank(a) + NonBlank(b)
    decreases |b|
  {
    if b == [] {
      assert a + b == a;
    } else {
      var init := b[..|b| - 1];
      var last := b[|b| - 1];
      assert b == init + [last];
      assert a + b == (a + init) + [last];
      NonBlankAppend(a, init);
      NonBlankSnoc(a + init, last);
      NonBlankSnoc(init, last);
      Seqs.ConcatAssociative(NonBlank(a), NonBlank(init), NonBlank([last]));
    }
  }

  /** A .txt or .md file is exactly one document: its whole text, with the base metadata. */
  lemma PlainTextOneDocument(path: string, io: Io)
    requires Ext(path) == ".txt" || Ext(path) == ".md"
    ensures FileDocs(path, io) == [Document(io.readText(path), BaseMeta(path, io))]
  {
  }

  /** A DOCX file is exactly one document: its non-blank paragraphs joined by "\n", or "" without python-docx. */
  lemma DocxOneDocument(path: string, io: Io)
    requires Ext(path) == ".docx"
    ensures |FileDocs(path, io)| == 1
    ensures FileDocs(path, io)[0].pageContent
         == (if io.haveDocx then Join(NonBlank(io.docxParagraphs(path)), "\n") else "")
    ensures FileDocs(path, io)[0].metadata == BaseMeta(path, io)
  {
  }

  // ---------------------------------------------------------------------------
  // Lemmas: the walk

  /** Visiting a prefix of the walk yields a prefix of the documents and no more files. */
  lemma {:induction false} WalkPrefix(walk: seq<Level>, n: nat, ld: FileLoader)
    requires n <= |walk|
    ensures WalkDocs(walk[..n], ld) <= WalkDocs(walk, ld)
    ensures WalkCount(walk[..n], ld) <= WalkCount(walk, ld)
    decreases |walk|
  {
    if n < |walk| {
      var init := walk[..|walk| - 1];
      assert init[..n] == walk[..n];
      WalkPrefix(init, n, ld);
    } else {
      assert walk[..n] == walk;
    }
  }

  /**
   * Without `recursive` only the top level is loaded: its documents are the
   * start of what a recursive load returns, and it counts no more files.
   */
  lemma NonRecursiveTopLevel(walk: seq<Level>, ld: FileLoader)
    ensures WalkDocs(Visited(walk, false), ld)
         == (if walk == [] then [] else LevelDocs(walk[0].root, walk[0].files, ld))
    ensures WalkCount(Visited(walk, false), ld) == (if walk == [] then 0 else LevelCount(walk[0].files, ld))
    ensures WalkDocs(Visited(walk, false), ld) <= WalkDocs(Visited(walk, true), ld)
    ensures WalkCount(Visited(walk, false), ld) <= WalkCount(Visited(walk, true), ld)
  {
    if walk != [] {
      var top := walk[..1];
      assert top[..0] == [];
      WalkPrefix(walk, 1, ld);
    }
  }

  /** No file name of the walk contains '/'. */
  predicate PlainNames(levels: seq<Level>)
  {
    forall i, j | 0 <= i < |levels| && 0 <= j < |levels[i].files| :: '/' !in levels[i].files[j]
  }

  /** Each document of one level comes from a supported file of that level, named and hashed as that file. */
  lemma {:induction false} LevelProvenance(root: string, files: seq<string>, io: Io)
    requires forall j | 0 <= j < |files| :: '/' !in files[j]
    ensures forall d | d in LevelDocs(root, files, LoaderOf(io)) ::
              exists j :: 0 <= j < |files| && IsSupported(files[j])
                          && FromFile(d, files[j], io.hashOf(PathJoin(root, files[j])))
    decreases |files|
  {
    if files != [] {
      var init := files[..|files| - 1];
      var f := files[|files| - 1];
      assert forall j | 0 <= j < |init| :: init[j] == files[j];
      LevelProvenance(root, init, io);
      if IsSupported(f) {
        FileDocsProvenance(PathJoin(root, f), io);
        JoinKeepsName(root, f);
      }
    }
  }

  /**
   * Every loaded document names, as `source`, a supported file of a visited
   * level and carries that file's hash: nothing is loaded from elsewhere.
   */
  lemma {:induction false} WalkProvenance(levels: seq<Level>, io: Io)
    requires PlainNames(levels)
    ensures forall d | d in WalkDocs(levels, LoaderOf(io)) ::
              exists i, j :: 0 <= i < |levels| && 0 <= j < |levels[i].files| && IsSupported(levels[i].files[j])
                             && FromFile(d, levels[i].files[j], io.hashOf(PathJoin(levels[i].root, levels[i].files[j])))
    decreases |levels|
  {
    if levels != [] {
      var init := levels[..|levels| - 1];
      var l := levels[|levels| - 1];
      assert forall i | 0 <= i < |init| :: init[i] == levels[i];
      WalkProvenance(init, io);
      LevelProvenance(l.root, l.files, io);
      forall d | d in LevelDocs(l.root, l.files, LoaderOf(io))
        ensures exists i, j :: 0 <= i < |levels| && 0 <= j < |levels[i].files| && IsSupported(levels[i].files[j])
                               && FromFile(d, levels[i].files[j], io.hashOf(PathJoin(levels[i].root, levels[i].files[j])))
      {
        var j :| 0 <= j < |l.files| && IsSupported(l.files[j])
                 && FromFile(d, l.files[j], io.hashOf(PathJoin(l.root, l.files[j])));
        assert levels[|levels| - 1] == l;
      }
    }
  }
}
