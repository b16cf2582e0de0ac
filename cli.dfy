/**
 * The two commands of main.py: `run_indexing`, which loads, splits, embeds
 * and upserts a path's documents with early exits on missing configuration
 * or empty results, and the interactive loop of `run_query_mode`.
 */
module Cli {
  import opened Wrappers
  import opened Text
  import opened Documents
  import Database
  import DocumentLoader
  import TextSplitter

  // ---------------------------------------------------------------------------
  // The query loop

  /** What one `input(...)` call yields: a line, end of input (`EOFError`) or Ctrl-C (`KeyboardInterrupt`). */
  datatype Input = Line(text: string) | EndOfInput | Interrupt

  /** The input ends the session: end of input, an interrupt, or a line that lower-cases to `exit`. */
  predicate Stops(e: Input)
  {
    !e.Line? || Lower(e.text) == "exit"
  }

  /** The position of the first input that ends the session, or the number of inputs when none does. */
  function StopIndex(inputs: seq<Input>): (r: nat)
    ensures r <= |inputs|
    ensures forall j | 0 <= j < r :: !Stops(inputs[j])
    ensures r < |inputs| ==> Stops(inputs[r])
  {
    if inputs == [] then 0
    else if Stops(inputs[0]) then 0
    else 1 + StopIndex(inputs[1..])
  }

  /** The questions among `inputs`: the lines that are not blank and do not end the session. */
  function Asked(inputs: seq<Input>): seq<string>
  {
    if inputs == [] then []
    else
      var e := inputs[|inputs| - 1];
      Asked(inputs[..|inputs| - 1]) + (if e.Line? && !Stops(e) && !IsBlank(e.text) then [e.text] else [])
  }

  /** The questions a session with these inputs puts to the chain. */
  function Questions(inputs: seq<Input>): seq<string>
  {
    Asked(inputs[..StopIndex(inputs)])
  }

  /**
   * The `while True` loop of `run_query_mode`. Running out of `inputs` is end
   * of input. `answer` is the RAG chain; `read` is how many inputs were taken.
   */
  method QueryLoop(inputs: seq<Input>, answer: string -> string)
    returns (asked: seq<string>, answers: seq<string>, read: nat)
    ensures asked == Questions(inputs)
    ensures |answers| == |asked| && forall k | 0 <= k < |asked| :: answers[k] == answer(asked[k])
    ensures read == (if StopIndex(inputs) < |inputs| then StopIndex(inputs) + 1 else |inputs|)
  {
    asked, answers := [], [];
    var i := 0;
    while true
      invariant 0 <= i <= StopIndex(inputs)
      invariant asked == Asked(inputs[..i])
      invariant |answers| == |asked| && forall k | 0 <= k < |asked| :: answers[k] == answer(asked[k])
      decreases |inputs| - i
    {
      if i == |inputs| {
        break;
      }
      var e := inputs[i];
      assert inputs[..i + 1] == inputs[..i] + [e];
      i := i + 1;
      if !e.Line? {
        break;
      }
      var question := e.text;
      if Lower(question) == "exit" {
        break;
      }
      if IsBlank(question) {
        continue;
      }
      asked := asked + [question];
      answers := answers + [answer(question)];
    }
    read := i;
  }

  // ---------------------------------------------------------------------------
  // Lemmas about the query loop

  /** Every question put to the chain is a non-blank line that is not `exit` in any case. */
  lemma {:induction false} AskedAreQuestions(inputs: seq<Input>)
    ensures forall q | q in Asked(inputs) :: !IsBlank(q) && Lower(q) != "exit"
    decreases |inputs|
  {
    if inputs != [] {
      AskedAreQuestions(inputs[..|inputs| - 1]);
    }
  }

  /** A text is asked exactly when some input line carries it and it is not blank and not `exit`. */
  lemma {:induction false} AskedExactly(inputs: seq<Input>, q: string)
    ensures q in Asked(inputs) <==> (exists j | 0 <= j < |inputs| :: inputs[j] == Line(q)) && !IsBlank(q) && Lower(q) != "exit"
    decreases |inputs|
  {
    if inputs != [] {
      var init := inputs[..|inputs| - 1];
      AskedExactly(init, q);
      if exists j | 0 <= j < |inputs| :: inputs[j] == Line(q) {
        var j :| 0 <= j < |inputs| && inputs[j] == Line(q);
        if j < |init| {
          assert init[j] == Line(q);
        }
      }
      if exists j | 0 <= j < |init| :: init[j] == Line(q) {
        var j :| 0 <= j < |init| && init[j] == Line(q);
        assert inputs[j] == Line(q);
      }
    }
  }

  lemma {:induction false} StopIndexAppend(inputs: seq<Input>, rest: seq<Input>)
    requires StopIndex(inputs) < |inputs|
    ensures StopIndex(inputs + rest) == StopIndex(inputs)
    decreases |inputs|
  {
    if !Stops(inputs[0]) {
      assert (inputs + rest)[1..] == inputs[1..] + rest;
      StopIndexAppend(inputs[1..], rest);
    }
  }

  /** Nothing typed after `exit`, end of input or an interrupt is read: the session is the same whatever follows. */
  lemma IgnoresAfterStop(inputs: seq<Input>, rest: seq<Input>)
    requires StopIndex(inputs) < |inputs|
    ensures StopIndex(inputs + rest) == StopIndex(inputs)
    ensures Questions(inputs + rest) == Questions(inputs)
  {
    StopIndexAppend(inputs, rest);
    assert (inputs + rest)[..StopIndex(inputs)] == inputs[..StopIndex(inputs)];
  }

  /** `exit` ends the session whatever its case. */
  lemma ExitAnyCase()
    ensures Stops(Line("EXIT")) && Stops(Line("Exit"))
  {
    assert Lower("EXIT") == "exit";
    assert Lower("Exit") == "exit";
  }

  /**
   * The session ends on end of input, on an interrupt, and on the line "exit"
   * in any mix of cases, and on no other line.
   */
  lemma StopsExactly(e: Input)
    ensures Stops(e) <==> !e.Line? || (&& |e.text| == 4
                                       && (e.text[0] == 'e' || e.text[0] == 'E')
                                       && (e.text[1] == 'x' || e.text[1] == 'X')
                                       && (e.text[2] == 'i' || e.text[2] == 'I')
                                       && (e.text[3] == 't' || e.text[3] == 'T'))
  {
  }

  /** The line is compared before it is stripped: ` exit` is a question. */
  lemma PaddedExitIsAsked()
    ensures Questions([Line(" exit")]) == [" exit"]
  {
    assert !IsBlank(" exit") by { assert !IsSpace(" exit"[1]); }
    assert |Lower(" exit")| == 5;
    assert [Line(" exit")][..1] == [Line(" exit")];
  }

  // ---------------------------------------------------------------------------
  // Indexing

  /** The configuration `run_indexing` reads: whether pinecone-client imports, and two environment variables. */
  datatype Env = Env(pineconeInstalled: bool, apiKey: Option<string>, indexName: Option<string>)

  /** How `run_indexing` ends: one of its exceptions, one of its two early returns, or done. */
  datatype Outcome =
    | PineconeNotInstalled     // ImportError
    | ApiKeyMissing            // ValueError
    | IndexNameMissing         // ValueError
    | NoDocuments              // "No document objects were loaded. Exiting."
    | NoChunks                 // "No chunks were created from the documents. Exiting."
    | UpsertFailed(error: Database.ManagerError)
    | Indexed

  /** `os.getenv(name)` is truthy: the variable is set and not empty. */
  predicate IsSet(v: Option<string>)
  {
    v.Some? && v.value != ""
  }

  predicate Configured(env: Env)
  {
    env.pineconeInstalled && IsSet(env.apiKey) && IsSet(env.indexName)
  }

  /** The records of index `name` before the run: none when the service has no such index. */
  function RecordsBefore(indexes: map<string, Database.IndexHandle>, name: string): map<string, Database.Record>
    reads indexes.Values
  {
    if name in indexes then indexes[name].records else map[]
  }

  /**
   * `run_indexing(path, recursive)` against the service `client`. The
   * embedding model is `embed`, the character splitter `splitText`, and the
   * file system and parsers are `target` and `io`. `upsert` runs with its
   * default batch size of 100.
   */
  method RunIndexing(env: Env, client: Database.Client, target: DocumentLoader.Target, recursive: bool,
                     io: DocumentLoader.Io, splitText: string -> seq<string>,
                     embed: seq<Document> -> seq<Database.Item>)
    returns (outcome: Outcome)
    requires client.Valid()
    modifies client, client.indexes.Values
    ensures !env.pineconeInstalled ==> outcome == PineconeNotInstalled
    ensures env.pineconeInstalled && !IsSet(env.apiKey) ==> outcome == ApiKeyMissing
    ensures env.pineconeInstalled && IsSet(env.apiKey) && !IsSet(env.indexName) ==> outcome == IndexNameMissing
    ensures Configured(env) ==>
      var docs := DocumentLoader.Loaded(target, recursive, io);
      var chunks := TextSplitter.SplitAll(docs, splitText);
      var items := embed(chunks);
      var name := env.indexName.value;
      && (docs == [] ==> outcome == NoDocuments)
      && (docs != [] && chunks == [] ==> outcome == NoChunks)
      && (chunks != [] ==>
            ((outcome == UpsertFailed(Database.NoDimension))
               <==> (items != [] && name !in old(client.indexes) && |items[0].embedding| == 0))
            && (outcome == Indexed || outcome == UpsertFailed(Database.NoDimension)))
      && (outcome == Indexed && items != [] ==>
            && name in client.indexes
            && client.indexes[name].records
               == Database.Replay(old(RecordsBefore(client.indexes, name)),
                                  Database.UpsertCalls(name, items, name in old(client.indexes), 100)))
      && (outcome == Indexed && items == [] ==>
            unchanged(client) && forall h | h in old(client.indexes.Values) :: unchanged(h))
      && (forall n | n in old(client.indexes) && n != name :: unchanged(old(client.indexes)[n]))
    ensures outcome != Indexed ==> unchanged(client) && forall h | h in old(client.indexes.Values) :: unchanged(h)
  {
    if !env.pineconeInstalled {
      return PineconeNotInstalled;
    }
    if !IsSet(env.apiKey) {
      return ApiKeyMissing;
    }
    if !IsSet(env.indexName) {
      return IndexNameMissing;
    }
    var name := env.indexName.value;
    var created := Database.NewManager(client, name);
    var db := created.value;
    var docs, fileCount := DocumentLoader.Load(target, recursive, io);
    if docs == [] {
      return NoDocuments;
    }
    var chunks := TextSplitter.SplitDocuments(docs, splitText);
    if chunks == [] {
      return NoChunks;
    }
    var items := embed(chunks);
    var err := db.Upsert(items, 100);
    if err.Some? {
      return UpsertFailed(err.value);
    }
    outcome := Indexed;
  }
}
