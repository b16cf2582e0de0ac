/**
 * The `retriever` of main.py's query mode: the matches the index returns are
 * sorted by `(source, page, row, start_index)` with Python's stable `sorted`,
 * and their `page_content` texts are joined by "\n---\n" into the context.
 */
module Retrieval {
  import opened Wrappers
  import opened Documents
  import opened Text
  import Database
  import Seqs

  type Match = Database.Match

  /** The sort key `(source, page, row, start_index)` of a match. */
  datatype SortKey = SortKey(source: string, page: int, row: int, startIndex: int)

  /** What the retriever raises instead of returning a context. */
  datatype ContextError =
    | KeysNotComparable   // `sorted` compares a string with an integer: TypeError
    | MissingPageContent  // `match['metadata']['page_content']`: KeyError
    | PageContentNotText  // `str.join` on a non-string: TypeError

  /** The key fields present in `md` have the types the pipeline writes: `source` a string, the others integers. */
  predicate Typed(md: Metadata)
  {
    && ("source" in md ==> md["source"].Str?)
    && ("page" in md ==> md["page"].Int?)
    && ("row" in md ==> md["row"].Int?)
    && ("start_index" in md ==> md["start_index"].Int?)
  }

  predicate AllTyped(ms: seq<Match>)
  {
    forall m | m in ms :: Typed(m.metadata)
  }

  /** The key the retriever sorts by: each field read with `get`, missing ones defaulting to '', 0, 0, 0. */
  function KeyOf(m: Match): (k: SortKey)
    ensures Typed(m.metadata) ==>
      && k.source == (if "source" in m.metadata then m.metadata["source"].s else "")
      && k.page == (if "page" in m.metadata then m.metadata["page"].i else 0)
      && k.row == (if "row" in m.metadata then m.metadata["row"].i else 0)
      && k.startIndex == (if "start_index" in m.metadata then m.metadata["start_index"].i else 0)
  {
    var md := m.metadata;
    SortKey(StrField(md, "source"), IntField(md, "page"), IntField(md, "row"), IntField(md, "start_index"))
  }

  /** `md.get(k, '')` for a string field; a field of the other type never reaches the sort (see `Context`). */
  function StrField(md: Metadata, k: string): string
  {
    if k in md && md[k].Str? then md[k].s else ""
  }

  /** `md.get(k, 0)` for an integer field. */
  function IntField(md: Metadata, k: string): int
  {
    if k in md && md[k].Int? then md[k].i else 0
  }

  /** Python's `<` on the key tuples: the first field that differs decides. */
  predicate KeyLt(a: SortKey, b: SortKey)
  {
    if a.source != b.source then StrLe(a.source, b.source)
    else if a.page != b.page then a.page < b.page
    else if a.row != b.row then a.row < b.row
    else a.startIndex < b.startIndex
  }

  /** In ascending order of `key`: no element has a smaller key than one before it. */
  predicate Sorted(ms: seq<Match>, key: Match -> SortKey)
  {
    forall i, j | 0 <= i < j < |ms| :: !KeyLt(key(ms[j]), key(ms[i]))
  }

  /** `m` placed after every element of `s` whose key is not greater than its own. */
  function Insert(s: seq<Match>, m: Match, key: Match -> SortKey): (r: seq<Match>)
    ensures multiset(r) == multiset(s) + multiset{m}
    ensures forall x | x in r :: x in s || x == m
  {
    if s == [] then [m]
    else if KeyLt(key(m), key(s[0])) then [m] + s
    else
      assert multiset(s) == multiset{s[0]} + multiset(s[1..]) by { assert s == [s[0]] + s[1..]; }
      [s[0]] + Insert(s[1..], m, key)
  }

  /** `sorted(ms, key=key)`: a stable sort, written as an insertion sort. */
  function SortBy(ms: seq<Match>, key: Match -> SortKey): (r: seq<Match>)
    ensures multiset(r) == multiset(ms)
    ensures forall x | x in r :: x in ms
    ensures Sorted(r, key)
  {
    if ms == [] then []
    else
      assert ms == ms[..|ms| - 1] + [ms[|ms| - 1]];
      var init := SortBy(ms[..|ms| - 1], key);
      InsertSorted(init, ms[|ms| - 1], key);
      Insert(init, ms[|ms| - 1], key)
  }

  predicate HasText(m: Match)
  {
    "page_content" in m.metadata && m.metadata["page_content"].Str?
  }

  predicate AllHaveText(ms: seq<Match>)
  {
    forall m | m in ms :: HasText(m)
  }

  /** The `page_content` text of a match. */
  function TextOf(m: Match): string
    requires HasText(m)
  {
    m.metadata["page_content"].s
  }

  /** The `page_content` texts of `ms`, in order. */
  function Texts(ms: seq<Match>): seq<string>
    requires AllHaveText(ms)
  {
    if ms == [] then [] else assert ms[0] in ms; [TextOf(ms[0])] + Texts(ms[1..])
  }

  /**
   * What `retriever` returns for the matches the index gave it. Which error
   * it raises depends only on the matches, not on the order they came in.
   */
  function Context(ms: seq<Match>): (r: Result<string, ContextError>)
    ensures ms == [] ==> r == Success("")
    ensures !AllTyped(ms) ==> r == Failure(KeysNotComparable)
    ensures AllTyped(ms) && (exists m | m in ms :: "page_content" !in m.metadata) ==> r == Failure(MissingPageContent)
    ensures && AllTyped(ms) && (forall m | m in ms :: "page_content" in m.metadata)
            && (exists m | m in ms :: !m.metadata["page_content"].Str?)
            ==> r == Failure(PageContentNotText)
  {
    if !AllTyped(ms) then Failure(KeysNotComparable)
    else
      var sorted := SortBy(ms, KeyOf);
      SortKeepsMembers(ms, KeyOf);
      if exists m | m in sorted :: "page_content" !in m.metadata then Failure(MissingPageContent)
      else if exists m | m in sorted :: !m.metadata["page_content"].Str? then Failure(PageContentNotText)
      else Success(Join(Texts(sorted), "\n---\n"))
  }

  /** `retriever(query)` on the embedding of the query: the five best matches, then their context. */
  method Retrieve(db: Database.PineconeManager, queryVector: seq<real>)
    returns (matches: seq<Match>, context: Result<string, ContextError>)
    requires db.Valid()
    ensures db.index == null ==> matches == [] && context == Success("")
    ensures |matches| <= 5
    ensures db.index != null ==> forall m | m in matches ::
              m.id in db.index.records && db.index.records[m.id].metadata == m.metadata
    ensures context == Context(matches)
  {
    matches := db.Query(queryVector, 5);
    context := Context(matches);
  }

  // ---------------------------------------------------------------------------
  // The key order

  lemma KeyLtIrreflexive(a: SortKey)
    ensures !KeyLt(a, a)
  {
  }

  lemma KeyLtAsymmetric(a: SortKey, b: SortKey)
    requires KeyLt(a, b)
    ensures !KeyLt(b, a)
  {
    if a.source != b.source && StrLe(b.source, a.source) {
      StrLeAntisymmetric(a.source, b.source);
    }
  }

  lemma KeyLtTransitive(a: SortKey, b: SortKey, c: SortKey)
    requires KeyLt(a, b) && KeyLt(b, c)
    ensures KeyLt(a, c)
  {
    if a.source != b.source || b.source != c.source {
      if a.source == b.source {
      } else if b.source == c.source {
      } else {
        StrLeTransitive(a.source, b.source, c.source);
        if a.source == c.source {
          StrLeAntisymmetric(b.source, c.source);
        }
      }
    }
  }

  /** Any two different keys are ordered one way or the other. */
  lemma KeyLtTotal(a: SortKey, b: SortKey)
    requires a != b
    ensures KeyLt(a, b) || KeyLt(b, a)
  {
    StrLeTotal(a.source, b.source);
  }


  // ---------------------------------------------------------------------------
  // Sorted and a permutation

  /** A sorted sequence without its first element, which is no greater than the rest. */
  lemma SortedTail(s: seq<Match>, key: Match -> SortKey)
    requires Sorted(s, key) && s != []
    ensures Sorted(s[1..], key)
    ensures forall x | x in s[1..] :: !KeyLt(key(x), key(s[0]))
  {
    var t := s[1..];
    assert forall i, j | 0 <= i < j < |t| :: t[i] == s[i + 1] && t[j] == s[j + 1];
    forall x | x in t
      ensures !KeyLt(key(x), key(s[0]))
    {
      var j :| 0 <= j < |t| && t[j] == x;
      assert s[j + 1] == x;
    }
  }

  /** Putting `x` in front of a sorted sequence whose elements are no smaller keeps it sorted. */
  lemma ConsSorted(x: Match, s: seq<Match>, key: Match -> SortKey)
    requires Sorted(s, key) && forall y | y in s :: !KeyLt(key(y), key(x))
    ensures Sorted([x] + s, key)
  {
    var r := [x] + s;
    forall i, j | 0 <= i < j < |r|
      ensures !KeyLt(key(r[j]), key(r[i]))
    {
      assert r[j] == s[j - 1];
      if i > 0 {
        assert r[i] == s[i - 1];
      }
    }
  }

  /** A key below the first of a sorted sequence is below all of its keys. */
  lemma BelowHead(s: seq<Match>, m: Match, key: Match -> SortKey)
    requires Sorted(s, key) && s != [] && KeyLt(key(m), key(s[0]))
    ensures forall x | x in s :: KeyLt(key(m), key(x))
  {
    forall x | x in s
      ensures KeyLt(key(m), key(x))
    {
      var j :| 0 <= j < |s| && s[j] == x;
      if key(x) != key(s[0]) {
        KeyLtTotal(key(x), key(s[0]));
        KeyLtTransitive(key(m), key(s[0]), key(x));
      }
    }
  }

  lemma {:induction false} InsertSorted(s: seq<Match>, m: Match, key: Match -> SortKey)
    requires Sorted(s, key)
    ensures Sorted(Insert(s, m, key), key)
    decreases |s|
  {
    if s == [] {
    } else if KeyLt(key(m), key(s[0])) {
      BelowHead(s, m, key);
      forall y | y in s
        ensures !KeyLt(key(y), key(m))
      {
        KeyLtAsymmetric(key(m), key(y));
      }
      ConsSorted(m, s, key);
    } else {
      SortedTail(s, key);
      InsertSorted(s[1..], m, key);
      ConsSorted(s[0], Insert(s[1..], m, key), key);
    }
  }

  // ---------------------------------------------------------------------------
  // Stability

  /** The elements of `s` whose key is `k`, in their order in `s`. */
  function WithKey(s: seq<Match>, k: SortKey, key: Match -> SortKey): seq<Match>
  {
    if s == [] then []
    else (if key(s[0]) == k then [s[0]] else []) + WithKey(s[1..], k, key)
  }

  lemma {:induction false} WithKeyAppend(s: seq<Match>, t: seq<Match>, k: SortKey, key: Match -> SortKey)
    ensures WithKey(s + t, k, key) == WithKey(s, k, key) + WithKey(t, k, key)
    decreases |s|
  {
    if s != [] {
      assert (s + t)[1..] == s[1..] + t;
      WithKeyAppend(s[1..], t, k, key);
    } else {
      assert s + t == t;
    }
  }

  lemma {:induction false} WithKeyMember(s: seq<Match>, k: SortKey, key: Match -> SortKey, m: Match)
    ensures m in WithKey(s, k, key) <==> m in s && key(m) == k
    decreases |s|
  {
    if s != [] {
      WithKeyMember(s[1..], k, key, m);
      assert s == [s[0]] + s[1..];
    }
  }

  lemma WithKeyNone(s: seq<Match>, k: SortKey, key: Match -> SortKey)
    requires forall x | x in s :: key(x) != k
    ensures WithKey(s, k, key) == []
  {
    if WithKey(s, k, key) != [] {
      WithKeyMember(s, k, key, WithKey(s, k, key)[0]);
    }
  }

  /** `[m]` when `m` has key `k`, else nothing. */
  function Tie(m: Match, k: SortKey, key: Match -> SortKey): seq<Match>
  {
    if key(m) == k then [m] else []
  }

  lemma WithKeyCons(x: Match, s: seq<Match>, k: SortKey, key: Match -> SortKey)
    ensures WithKey([x] + s, k, key) == Tie(x, k, key) + WithKey(s, k, key)
  {
    assert ([x] + s)[1..] == s;
  }

  /** An element inserted in front of a sorted sequence has a key none of its elements has. */
  lemma InsertFrontStable(s: seq<Match>, m: Match, k: SortKey, key: Match -> SortKey)
    requires Sorted(s, key) && s != [] && KeyLt(key(m), key(s[0]))
    ensures WithKey([m] + s, k, key) == WithKey(s, k, key) + Tie(m, k, key)
  {
    WithKeyCons(m, s, k, key);
    if key(m) == k {
      BelowHead(s, m, key);
      KeyLtIrreflexive(key(m));
      WithKeyNone(s, k, key);
    }
  }

  /** Putting the same element in front of two sequences keeps a relation between their elements of key `k`. */
  lemma WithKeyBehind(x: Match, r: seq<Match>, t: seq<Match>, m: Match, k: SortKey, key: Match -> SortKey)
    requires WithKey(r, k, key) == WithKey(t, k, key) + Tie(m, k, key)
    ensures WithKey([x] + r, k, key) == WithKey([x] + t, k, key) + Tie(m, k, key)
  {
    WithKeyCons(x, r, k, key);
    WithKeyCons(x, t, k, key);
    Seqs.ConcatAssociative(Tie(x, k, key), WithKey(t, k, key), Tie(m, k, key));
  }

  /** Inserting behind the first element: the first element stays first among its key. */
  lemma InsertBehindStable(s: seq<Match>, m: Match, k: SortKey, key: Match -> SortKey)
    requires s != [] && !KeyLt(key(m), key(s[0]))
    requires WithKey(Insert(s[1..], m, key), k, key) == WithKey(s[1..], k, key) + Tie(m, k, key)
    ensures WithKey(Insert(s, m, key), k, key) == WithKey(s, k, key) + Tie(m, k, key)
  {
    WithKeyBehind(s[0], Insert(s[1..], m, key), s[1..], m, k, key);
    assert [s[0]] + s[1..] == s;
  }

  /** Inserting into a sorted sequence puts `m` after every element with the same key. */
  lemma {:induction false} InsertStable(s: seq<Match>, m: Match, k: SortKey, key: Match -> SortKey)
    requires Sorted(s, key)
    ensures WithKey(Insert(s, m, key), k, key) == WithKey(s, k, key) + Tie(m, k, key)
    decreases |s|
  {
    if s == [] {
      WithKeyCons(m, [], k, key);
      assert [m] + [] == [m];
    } else if KeyLt(key(m), key(s[0])) {
      InsertFrontStable(s, m, k, key);
    } else {
      SortedTail(s, key);
      InsertStable(s[1..], m, k, key);
      InsertBehindStable(s, m, k, key);
    }
  }

  /** Appending one element to a sequence appends it to the elements of its key. */
  lemma WithKeySnoc(init: seq<Match>, last: Match, k: SortKey, key: Match -> SortKey)
    ensures WithKey(init + [last], k, key) == WithKey(init, k, key) + Tie(last, k, key)
  {
    WithKeyAppend(init, [last], k, key);
    WithKeyCons(last, [], k, key);
    assert [last] + [] == [last];
  }

  /** One more element of the input: it goes behind the sorted ones that share its key. */
  lemma SortStableStep(init: seq<Match>, last: Match, k: SortKey, key: Match -> SortKey)
    requires WithKey(SortBy(init, key), k, key) == WithKey(init, k, key)
    ensures WithKey(SortBy(init + [last], key), k, key) == WithKey(init + [last], k, key)
  {
    var ms := init + [last];
    assert ms[..|ms| - 1] == init;
    assert SortBy(ms, key) == Insert(SortBy(init, key), last, key);
    InsertStable(SortBy(init, key), last, k, key);
    WithKeySnoc(init, last, k, key);
  }

  /** `sorted` is stable: the elements sharing a key keep the order they came in. */
  lemma {:induction false} SortStable(ms: seq<Match>, k: SortKey, key: Match -> SortKey)
    ensures WithKey(SortBy(ms, key), k, key) == WithKey(ms, k, key)
    decreases |ms|
  {
    if ms != [] {
      var init := ms[..|ms| - 1];
      assert ms == init + [ms[|ms| - 1]];
      SortStable(init, k, key);
      SortStableStep(init, ms[|ms| - 1], k, key);
    }
  }

  // ---------------------------------------------------------------------------
  // The order of the input matters only among ties

  /** The first element of a sorted `s` has a key no greater than the first of `t`, when both hold the same elements per key. */
  lemma SortedHeadKey(s: seq<Match>, t: seq<Match>, key: Match -> SortKey)
    requires Sorted(s, key) && s != [] && t != []
    requires forall k :: WithKey(s, k, key) == WithKey(t, k, key)
    ensures !KeyLt(key(t[0]), key(s[0]))
  {
    WithKeyMember(t, key(t[0]), key, t[0]);
    WithKeyMember(s, key(t[0]), key, t[0]);
    var i :| 0 <= i < |s| && s[i] == t[0];
    if i == 0 {
      KeyLtIrreflexive(key(s[0]));
    }
  }

  /** Removing the first elements of two sequences that agree per key, and begin with the same element, keeps them agreeing. */
  lemma AgreeTails(s: seq<Match>, t: seq<Match>, key: Match -> SortKey)
    requires s != [] && t != [] && s[0] == t[0]
    requires forall k :: WithKey(s, k, key) == WithKey(t, k, key)
    ensures forall k :: WithKey(s[1..], k, key) == WithKey(t[1..], k, key)
  {
    forall k
      ensures WithKey(s[1..], k, key) == WithKey(t[1..], k, key)
    {
      var x := if key(s[0]) == k then [s[0]] else [];
      assert WithKey(s, k, key) == x + WithKey(s[1..], k, key);
      assert WithKey(t, k, key) == x + WithKey(t[1..], k, key);
      assert (x + WithKey(s[1..], k, key))[|x|..] == WithKey(s[1..], k, key);
      assert (x + WithKey(t[1..], k, key))[|x|..] == WithKey(t[1..], k, key);
    }
  }

  /** Two sorted sequences that agree on the elements of every key, in order, are equal. */
  lemma {:induction false} SortedUnique(s: seq<Match>, t: seq<Match>, key: Match -> SortKey)
    requires Sorted(s, key) && Sorted(t, key)
    requires forall k :: WithKey(s, k, key) == WithKey(t, k, key)
    ensures s == t
    decreases |s|
  {
    if s == [] || t == [] {
      var u := if s == [] then t else s;
      if u != [] {
        WithKeyMember(u, key(u[0]), key, u[0]);
      }
    } else {
      SortedHeadKey(s, t, key);
      SortedHeadKey(t, s, key);
      if key(s[0]) != key(t[0]) {
        KeyLtTotal(key(s[0]), key(t[0]));
      }
      var k0 := key(s[0]);
      assert WithKey(s, k0, key)[0] == s[0];
      assert WithKey(t, k0, key)[0] == t[0];
      AgreeTails(s, t, key);
      SortedTail(s, key);
      SortedTail(t, key);
      SortedUnique(s[1..], t[1..], key);
      assert s == [s[0]] + s[1..] && t == [t[0]] + t[1..];
    }
  }

  /**
   * The retriever's order depends on the order the index returned the matches
   * in only among matches that share a key: inputs that agree there sort alike.
   */
  lemma SortDependsOnlyOnTies(a: seq<Match>, b: seq<Match>, key: Match -> SortKey)
    requires forall k :: WithKey(a, k, key) == WithKey(b, k, key)
    ensures SortBy(a, key) == SortBy(b, key)
  {
    forall k
      ensures WithKey(SortBy(a, key), k, key) == WithKey(SortBy(b, key), k, key)
    {
      SortStable(a, k, key);
      SortStable(b, k, key);
    }
    SortedUnique(SortBy(a, key), SortBy(b, key), key);
  }

  // ---------------------------------------------------------------------------
  // The context

  lemma {:induction false} TextsInsert(s: seq<Match>, m: Match, key: Match -> SortKey)
    requires AllHaveText(s) && HasText(m)
    ensures AllHaveText(Insert(s, m, key))
    ensures multiset(Texts(Insert(s, m, key))) == multiset(Texts(s)) + multiset{TextOf(m)}
    decreases |s|
  {
    if s != [] && !KeyLt(key(m), key(s[0])) {
      TextsInsert(s[1..], m, key);
    }
  }

  lemma {:induction false} TextsAppend(s: seq<Match>, t: seq<Match>)
    requires AllHaveText(s + t)
    ensures AllHaveText(s) && AllHaveText(t)
    ensures Texts(s + t) == Texts(s) + Texts(t)
    decreases |s|
  {
    if s != [] {
      assert (s + t)[1..] == s[1..] + t;
      TextsAppend(s[1..], t);
    } else {
      assert s + t == t;
    }
  }

  /** The sorted texts are the texts the index returned, rearranged. */
  lemma {:induction false} SortedTextsPermutation(ms: seq<Match>, key: Match -> SortKey)
    requires AllHaveText(ms)
    ensures AllHaveText(SortBy(ms, key))
    ensures multiset(Texts(SortBy(ms, key))) == multiset(Texts(ms))
    decreases |ms|
  {
    if ms != [] {
      var init := ms[..|ms| - 1];
      var last := ms[|ms| - 1];
      assert ms == init + [last];
      TextsAppend(init, [last]);
      SortedTextsPermutation(init, key);
      TextsInsert(SortBy(init, key), last, key);
    }
  }

  /** Sorting keeps the elements: the same ones are there before and after. */
  lemma SortKeepsMembers(ms: seq<Match>, key: Match -> SortKey)
    ensures forall m :: m in SortBy(ms, key) <==> m in ms
  {
    forall m | m in ms
      ensures m in SortBy(ms, key)
    {
      assert m in multiset(ms);
    }
  }

  /** The retriever yields a context exactly when the keys are comparable and every match carries a text. */
  lemma ContextSucceeds(ms: seq<Match>)
    ensures Context(ms).Success? <==> AllTyped(ms) && AllHaveText(ms)
  {
    SortKeepsMembers(ms, KeyOf);
  }

  /** The context joins the matches' texts in key order; they are the texts of the matches, rearranged. */
  lemma ContextJoinsSortedTexts(ms: seq<Match>)
    requires AllTyped(ms) && AllHaveText(ms)
    ensures AllHaveText(SortBy(ms, KeyOf))
    ensures Context(ms) == Success(Join(Texts(SortBy(ms, KeyOf)), "\n---\n"))
    ensures multiset(Texts(SortBy(ms, KeyOf))) == multiset(Texts(ms))
  {
    SortKeepsMembers(ms, KeyOf);
    SortedTextsPermutation(ms, KeyOf);
  }

  /** Two chunks the index returned out of source order come back in source order. */
  lemma TwoSourcesExample()
    ensures Context([SourceB(), SourceA()]) == Success("A\n---\nB")
  {
    var b, a := SourceB(), SourceA();
    TwoSourcesSorted();
    TwoSourcesTexts();
    TwoSourcesTyped();
    ContextJoinsSortedTexts([b, a]);
  }

  lemma TwoSourcesTyped()
    ensures AllTyped([SourceB(), SourceA()]) && AllHaveText([SourceB(), SourceA()])
  {
    var b, a := SourceB(), SourceA();
    assert Typed(a.metadata) && HasText(a);
    assert Typed(b.metadata) && HasText(b);
    assert forall m | m in [b, a] :: m == b || m == a;
  }

  lemma TwoSourcesTexts()
    ensures AllHaveText([SourceA(), SourceB()])
    ensures Join(Texts([SourceA(), SourceB()]), "\n---\n") == "A\n---\nB"
  {
    var b, a := SourceB(), SourceA();
    assert TextOf(a) == "A" && TextOf(b) == "B";
    assert [a, b][1..] == [b] && [b][1..] == [];
    assert Texts([b]) == ["B"];
    assert Texts([a, b]) == ["A", "B"];
    assert ["A", "B"][1..] == ["B"];
  }

  function SourceA(): Match
  {
    Database.Match("2", map["source" := Str("a"), "page_content" := Str("A")])
  }

  function SourceB(): Match
  {
    Database.Match("1", map["source" := Str("b"), "page_content" := Str("B")])
  }

  lemma TwoSourcesSorted()
    ensures SortBy([SourceB(), SourceA()], KeyOf) == [SourceA(), SourceB()]
  {
    var b, a := SourceB(), SourceA();
    assert KeyOf(a).source == "a" && KeyOf(b).source == "b";
    assert KeyLt(KeyOf(a), KeyOf(b));
    assert [b, a][..1] == [b];
    assert SortBy([b], KeyOf) == [b];
  }

  /** With no matches the context is empty. */
  lemma EmptyContext()
    ensures Context([]) == Success("")
  {
  }
}
