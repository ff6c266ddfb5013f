/** The collection and the upsert loop of `main`: `update_one` keyed by
    `_id` with `upsert=True`, and the count of newly inserted documents. */
module Store {
  import opened Options
  import opened Publication

  /** The collection, addressed by `_id`. */
  type Store = map<string, Record>

  /** Every document is stored under its own key. */
  predicate Keyed(s: Store)
  {
    forall k :: k in s ==> s[k].id == k
  }

  /** Keys of the documents in `docs`. */
  function IdSet(docs: seq<Record>): set<string>
  {
    set j | 0 <= j < |docs| :: docs[j].id
  }

  /** `update_one({'_id': doc._id}, {'$set': doc}, upsert=True)`: the stored
      document at `doc.id` becomes `doc`, and nothing else changes. */
  function Upsert(s: Store, doc: Record): (r: Store)
    ensures doc.id in r && r[doc.id] == doc
    ensures r.Keys == s.Keys + {doc.id}
    ensures forall k :: k in s && k != doc.id ==> r[k] == s[k]
    ensures Keyed(s) ==> Keyed(r)
  {
    s[doc.id := doc]
  }

  /** `upserted_id` of that call: the new key when a document was inserted,
      `None` when an existing one was matched. */
  function UpsertedId(s: Store, doc: Record): (r: Option<string>)
    ensures r.Some? <==> doc.id !in s
    ensures r.Some? ==> r.value == doc.id
  {
    if doc.id in s then None else Some(doc.id)
  }

  /** Python truthiness of `res.upserted_id`. */
  predicate Truthy(id: Option<string>): (b: bool)
    ensures id.Some? && |id.value| == 40 ==> b
    ensures id.None? ==> !b
  {
    id.Some? && id.value != ""
  }

  /** One iteration of the loop: upsert, then bump the counter if the result
      carries a truthy `upserted_id`. */
  function Step(s: Store, n: nat, doc: Record): (r: (Store, nat))
    ensures r.0 == Upsert(s, doc)
    ensures r.1 == if doc.id in s then n else n + 1
  {
    (Upsert(s, doc), if Truthy(UpsertedId(s, doc)) then n + 1 else n)
  }

  /** The whole loop over `docs`, starting from store `s` and a zero count. */
  function UpsertAll(s: Store, docs: seq<Record>): (r: (Store, nat))
    ensures s.Keys <= r.0.Keys
    ensures r.1 <= |docs|
  {
    if docs == [] then (s, 0)
    else
      var prev := UpsertAll(s, docs[..|docs| - 1]);
      Step(prev.0, prev.1, docs[|docs| - 1])
  }

  /** The script's loop, with the counter. */
  method IngestAll(s: Store, docs: seq<Record>) returns (store: Store, nInserted: nat)
    ensures (store, nInserted) == UpsertAll(s, docs)
    ensures store.Keys == s.Keys + IdSet(docs)
    ensures nInserted == |IdSet(docs) - s.Keys|
    ensures forall k :: k in s && k !in IdSet(docs) ==> store[k] == s[k]
    ensures Keyed(s) ==> Keyed(store)
  {
    store := s;
    nInserted := 0;
    var i := 0;
    while i < |docs|
      invariant 0 <= i <= |docs|
      invariant (store, nInserted) == UpsertAll(s, docs[..i])
    {
      assert docs[..i + 1][..i] == docs[..i];
      var doc := docs[i];
      var upserted := UpsertedId(store, doc);
      store := Upsert(store, doc);
      if Truthy(upserted) {
        nInserted := nInserted + 1;
      }
      i := i + 1;
    }
    assert docs[..i] == docs;
    UpsertAllKeys(s, docs);
    UpsertAllCount(s, docs);
  }

  lemma IdSetSnoc(docs: seq<Record>, d: Record)
    ensures IdSet(docs + [d]) == IdSet(docs) + {d.id}
  {
    var all := docs + [d];
    assert all[|docs|] == d;
    forall k | k in IdSet(docs)
      ensures k in IdSet(all)
    {
      var j :| 0 <= j < |docs| && docs[j].id == k;
      assert all[j] == docs[j];
    }
  }

  /** After the loop the keys are the old keys plus the documents' keys, every
      untouched document is unchanged, and keys still match documents. */
  lemma {:induction false} UpsertAllKeys(s: Store, docs: seq<Record>)
    ensures UpsertAll(s, docs).0.Keys == s.Keys + IdSet(docs)
    ensures forall k :: k in s && k !in IdSet(docs) ==> UpsertAll(s, docs).0[k] == s[k]
    ensures Keyed(s) ==> Keyed(UpsertAll(s, docs).0)
  {
    if docs != [] {
      var front := docs[..|docs| - 1];
      assert docs == front + [docs[|docs| - 1]];
      IdSetSnoc(front, docs[|docs| - 1]);
      UpsertAllKeys(s, front);
    }
  }

  /** The counter ends at the number of distinct keys among `docs` that were
      not in the collection before the loop. */
  lemma {:induction false} UpsertAllCount(s: Store, docs: seq<Record>)
    ensures UpsertAll(s, docs).1 == |IdSet(docs) - s.Keys|
  {
    if docs == [] {
      assert IdSet(docs) == {};
    } else {
      var front := docs[..|docs| - 1];
      var d := docs[|docs| - 1];
      assert docs == front + [d];
      IdSetSnoc(front, d);
      UpsertAllKeys(s, front);
      UpsertAllCount(s, front);
      var prev := UpsertAll(s, front);
      assert UpsertAll(s, docs) == Step(prev.0, prev.1, d);
      var inStore := d.id in prev.0;
      assert inStore <==> d.id in s.Keys || d.id in IdSet(front);
      assert UpsertAll(s, docs).1 == if inStore then prev.1 else prev.1 + 1;
      NewKeysSnoc(IdSet(front), s.Keys, d.id);
    }
  }

  lemma NewKeysSnoc(ids: set<string>, known: set<string>, k: string)
    ensures k in known || k in ids ==> |(ids + {k}) - known| == |ids - known|
    ensures k !in known && k !in ids ==> |(ids + {k}) - known| == |ids - known| + 1
  {
    if k !in known && k !in ids {
      assert (ids + {k}) - known == (ids - known) + {k};
    } else {
      assert (ids + {k}) - known == ids - known;
    }
  }

  /** Last writer wins: the stored document for a key is the last document in
      `docs` carrying that key. */
  lemma {:induction false} UpsertAllLastWins(s: Store, docs: seq<Record>, j: nat)
    requires j < |docs|
    requires forall j' :: j < j' < |docs| ==> docs[j'].id != docs[j].id
    ensures docs[j].id in UpsertAll(s, docs).0
    ensures UpsertAll(s, docs).0[docs[j].id] == docs[j]
  {
    var front := docs[..|docs| - 1];
    if j < |docs| - 1 {
      UpsertAllLastWins(s, front, j);
    }
  }

  /** Running the loop from any store is running it from the empty store and
      laying the result over the old contents. */
  lemma {:induction false} UpsertAllOverlay(s: Store, docs: seq<Record>)
    ensures UpsertAll(s, docs).0 == s + UpsertAll(map[], docs).0
  {
    if docs != [] {
      var front := docs[..|docs| - 1];
      var d := docs[|docs| - 1];
      UpsertAllOverlay(s, front);
      var a := UpsertAll(map[], front).0;
      assert (s + a)[d.id := d] == s + a[d.id := d];
    }
  }

  /** Re-running over the same documents changes nothing and inserts nothing. */
  lemma UpsertAllIdempotent(s: Store, docs: seq<Record>)
    ensures var first := UpsertAll(s, docs).0;
            UpsertAll(first, docs) == (first, 0)
  {
    var first := UpsertAll(s, docs).0;
    var latest := UpsertAll(map[], docs).0;
    UpsertAllOverlay(s, docs);
    UpsertAllOverlay(first, docs);
    assert (s + latest) + latest == s + latest;
    UpsertAllKeys(s, docs);
    UpsertAllCount(first, docs);
    assert IdSet(docs) - first.Keys == {};
  }
}
