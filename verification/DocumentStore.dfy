/** The in-memory document store and its staged transactions (storage/document/memory.go). */
module DocumentStore {
  import opened Wrappers
  import opened Strings

  type Bytes = seq<bv8>
  type Documents = map<string, Bytes>
  type Data = map<string, Documents>
  type Writes = map<string, map<string, Option<Bytes>>>

  datatype Document = Document(id: string, data: Bytes)

  /** `keep` stands for a query's field filter, evaluated on a payload. */
  datatype Op =
    | Get(col: string, id: string)
    | Insert(col: string, doc: Document)
    | Replace(col: string, doc: Document)
    | Delete(col: string, id: string)
    | Find(col: string, keep: Bytes -> bool)

  datatype Reply = Fetched(doc: Document) | Listed(docs: seq<Document>) | Succeeded | NotFound | AlreadyExists | IdRequired

  function Col(data: Data, c: string): Documents {
    if c in data then data[c] else map[]
  }

  function Staged(w: Writes, c: string): map<string, Option<Bytes>> {
    if c in w then w[c] else map[]
  }

  /** A collection as seen through staged writes: a staged payload replaces, a staged None deletes. */
  function Overlay(docs: Documents, staged: map<string, Option<Bytes>>): Documents {
    map id | id in docs.Keys + staged.Keys && (id in staged ==> staged[id].Some?) ::
      if id in staged then staged[id].value else docs[id]
  }

  function View(data: Data, w: Writes, c: string): Documents {
    Overlay(Col(data, c), Staged(w, c))
  }

  // ----- Listing -----

  lemma {:induction false} IdsExist(keys: set<string>)
    ensures exists ids :: Ascending(ids) && forall y :: y in ids <==> y in keys
    decreases |keys|
  {
    if keys == {} {
      var none: seq<string> := [];
      assert Ascending(none) && forall y :: y in none <==> y in keys;
    } else {
      var x :| x in keys;
      IdsExist(keys - {x});
      var rest :| Ascending(rest) && forall y :: y in rest <==> y in keys - {x};
      InsertCorrect(x, rest);
      var ids := Strings.Insert(x, rest);
      assert Ascending(ids) && forall y :: y in ids <==> y in keys;
    }
  }

  /** The ids in ascending order. */
  ghost function Ids(keys: set<string>): (ids: seq<string>)
    ensures Ascending(ids) && forall y :: y in ids <==> y in keys
  {
    IdsExist(keys);
    var ids :| Ascending(ids) && forall y :: y in ids <==> y in keys;
    ids
  }

  function Select(ids: seq<string>, docs: Documents, keep: Bytes -> bool): seq<Document>
    requires forall id | id in ids :: id in docs
  {
    if ids == [] then []
    else
      var id := ids[|ids| - 1];
      Select(ids[..|ids| - 1], docs, keep) + (if keep(docs[id]) then [Document(id, docs[id])] else [])
  }

  /** The matching documents in id order. */
  ghost function Matching(docs: Documents, keep: Bytes -> bool): seq<Document> {
    Select(Ids(docs.Keys), docs, keep)
  }

  // ----- What an operation answers and changes -----

  /** The reply depends only on the collection as it is seen. */
  ghost function ReplyOn(docs: Documents, op: Op): Reply {
    match op
    case Get(_, id) => if id in docs then Fetched(Document(id, docs[id])) else NotFound
    case Insert(_, doc) => if doc.id == "" then IdRequired else if doc.id in docs then AlreadyExists else Succeeded
    case Replace(_, doc) => if doc.id == "" then IdRequired else Succeeded
    case Delete(_, id) => if id in docs then Succeeded else NotFound
    case Find(_, keep) => Listed(Matching(docs, keep))
  }

  /** The write an operation makes, if it succeeds in making one. */
  ghost function WriteOn(docs: Documents, op: Op): Option<(string, Option<Bytes>)> {
    if ReplyOn(docs, op) != Succeeded then None
    else
      match op
      case Insert(_, doc) => Some((doc.id, Some(doc.data)))
      case Replace(_, doc) => Some((doc.id, Some(doc.data)))
      case Delete(_, id) => Some((id, None))
      case _ => None
  }

  /** One write to the backing store: deleting never creates a collection. */
  function WriteOne(data: Data, c: string, id: string, payload: Option<Bytes>): Data {
    if payload.None? then (if c in data then data[c := data[c] - {id}] else data)
    else data[c := Col(data, c)[id := payload.value]]
  }

  function StageOne(w: Writes, c: string, id: string, payload: Option<Bytes>): Writes {
    w[c := Staged(w, c)[id := payload]]
  }

  ghost function Direct(data: Data, op: Op): (Data, Reply) {
    var docs := Col(data, op.col);
    var write := WriteOn(docs, op);
    (if write.None? then data else WriteOne(data, op.col, write.value.0, write.value.1), ReplyOn(docs, op))
  }

  ghost function InTx(data: Data, w: Writes, op: Op): (Writes, Reply) {
    var docs := View(data, w, op.col);
    var write := WriteOn(docs, op);
    (if write.None? then w else StageOne(w, op.col, write.value.0, write.value.1), ReplyOn(docs, op))
  }

  ghost function DirectRun(data: Data, ops: seq<Op>): (Data, seq<Reply>) {
    if ops == [] then (data, [])
    else
      var (d, replies) := DirectRun(data, ops[..|ops| - 1]);
      var (d', r) := Direct(d, ops[|ops| - 1]);
      (d', replies + [r])
  }

  ghost function TxRun(data: Data, ops: seq<Op>): (Writes, seq<Reply>) {
    if ops == [] then (map[], [])
    else
      var (w, replies) := TxRun(data, ops[..|ops| - 1]);
      var (w', r) := InTx(data, w, ops[|ops| - 1]);
      (w', replies + [r])
  }

  predicate Creates(staged: map<string, Option<Bytes>>) {
    exists id | id in staged :: staged[id].Some?
  }

  /** The store after a commit: staged collections overlaid, the others untouched. */
  function Committed(data: Data, w: Writes): Data {
    map c | c in data.Keys + w.Keys && (c in data || Creates(w[c])) :: View(data, w, c)
  }

  // ----- Transactions behave like direct execution -----

  lemma StageShows(docs: Documents, staged: map<string, Option<Bytes>>, id: string, payload: Option<Bytes>)
    ensures Overlay(docs, staged[id := payload]) ==
            if payload.Some? then Overlay(docs, staged)[id := payload.value] else Overlay(docs, staged) - {id}
  {
  }

  lemma TxStepMatches(data: Data, w: Writes, direct: Data, op: Op)
    requires forall c :: View(data, w, c) == Col(direct, c)
    ensures InTx(data, w, op).1 == Direct(direct, op).1
    ensures forall c :: View(data, InTx(data, w, op).0, c) == Col(Direct(direct, op).0, c)
  {
    assert View(data, w, op.col) == Col(direct, op.col);
    var write := WriteOn(Col(direct, op.col), op);
    if write.Some? {
      StageShows(Col(data, op.col), Staged(w, op.col), write.value.0, write.value.1);
      forall c ensures View(data, InTx(data, w, op).0, c) == Col(Direct(direct, op).0, c) {
        if c != op.col {
          assert View(data, w, c) == Col(direct, c);
        }
      }
    }
  }

  /** Through its staged writes a transaction sees, and answers, exactly what direct execution would. */
  lemma {:induction false} TxRunMatches(data: Data, ops: seq<Op>)
    ensures TxRun(data, ops).1 == DirectRun(data, ops).1
    ensures forall c :: View(data, TxRun(data, ops).0, c) == Col(DirectRun(data, ops).0, c)
  {
    if ops == [] {
      forall c ensures View(data, map[], c) == Col(data, c) {
      }
    } else {
      TxRunMatches(data, ops[..|ops| - 1]);
      TxStepMatches(data, TxRun(data, ops[..|ops| - 1]).0, DirectRun(data, ops[..|ops| - 1]).0, ops[|ops| - 1]);
    }
  }

  lemma CommittedShows(data: Data, w: Writes, c: string)
    ensures Col(Committed(data, w), c) == View(data, w, c)
    ensures c !in w ==> (c in Committed(data, w) <==> c in data) && Col(Committed(data, w), c) == Col(data, c)
  {
    if c !in Committed(data, w) {
      assert View(data, w, c) == map[];
    }
  }

  /** Running operations in one transaction and committing gives every operation the reply, and every
      collection the documents, of running them directly. */
  lemma CommitEqualsDirect(data: Data, ops: seq<Op>, c: string)
    ensures TxRun(data, ops).1 == DirectRun(data, ops).1
    ensures Col(Committed(data, TxRun(data, ops).0), c) == Col(DirectRun(data, ops).0, c)
  {
    TxRunMatches(data, ops);
    CommittedShows(data, TxRun(data, ops).0, c);
    assert View(data, TxRun(data, ops).0, c) == Col(DirectRun(data, ops).0, c);
  }

  /** Some insert or replacement in the collection succeeds. */
  ghost predicate Puts(data: Data, ops: seq<Op>, c: string) {
    ops != [] &&
    (|| Puts(data, ops[..|ops| - 1], c)
     || (var op := ops[|ops| - 1];
         op.col == c && (op.Insert? || op.Replace?) && ReplyOn(Col(DirectRun(data, ops[..|ops| - 1]).0, c), op) == Succeeded))
  }

  lemma {:induction false} DirectHas(data: Data, ops: seq<Op>, c: string)
    ensures c in DirectRun(data, ops).0 <==> c in data || Puts(data, ops, c)
  {
    if ops != [] {
      DirectHas(data, ops[..|ops| - 1], c);
    }
  }

  lemma CommittedHasDocs(data: Data, w: Writes, c: string)
    ensures c in Committed(data, w) <==> c in data || View(data, w, c) != map[]
  {
    if c !in data && c in w {
      if Creates(w[c]) {
        var id :| id in w[c] && w[c][id].Some?;
        assert id in View(data, w, c);
      } else {
        assert View(data, w, c) == map[];
      }
    }
  }

  /** The two agree on which collections exist, except exactly for a new collection that was written to and
      ended up empty: directly it stays as an empty map, a commit never makes it. */
  lemma CollectionsDifferExactly(data: Data, ops: seq<Op>, c: string)
    ensures var direct, committed := DirectRun(data, ops).0, Committed(data, TxRun(data, ops).0);
            && (c in committed ==> c in direct)
            && (c in direct && c !in committed <==> c !in data && Puts(data, ops, c) && Col(direct, c) == map[])
  {
    DirectHas(data, ops, c);
    TxRunMatches(data, ops);
    CommittedHasDocs(data, TxRun(data, ops).0, c);
    assert View(data, TxRun(data, ops).0, c) == Col(DirectRun(data, ops).0, c);
  }

  /** Inserting and deleting one document is such a run. */
  lemma EmptyCollectionsDiffer()
    ensures var ops := [Insert("c", Document("1", [])), Delete("c", "1")];
            "c" in DirectRun(map[], ops).0 && "c" !in Committed(map[], TxRun(map[], ops).0)
  {
    var ins, del := Insert("c", Document("1", [])), Delete("c", "1");
    var ops := [ins, del];
    assert ops[..1] == [ins] && [ins][..0] == [];
    assert Col(map[], "c") == map[] && View(map[], map[], "c") == map[];
    var d1: Data := map["c" := map["1" := []]];
    assert DirectRun(map[], [ins]).0 == d1;
    assert DirectRun(map[], ops).0 == Direct(d1, del).0;
    var w1: Writes := map["c" := map["1" := Some([])]];
    assert TxRun(map[], [ins]).0 == w1;
    assert "1" in View(map[], w1, "c");
    assert TxRun(map[], ops).0 == InTx(map[], w1, del).0;
    var gone: map<string, Option<Bytes>> := map["1" := None];
    assert Staged(w1, "c")["1" := None] == gone;
    assert TxRun(map[], ops).0 == map["c" := gone];
  }

  // ----- The store -----

  class MemoryTx {
    var writes: Writes

    constructor ()
      ensures writes == map[]
    {
      writes := map[];
    }

    method Stage(c: string, id: string, payload: Option<Bytes>)
      modifies this
      ensures writes == StageOne(old(writes), c, id, payload)
    {
      if c !in writes {
        writes := writes[c := map[]];
      }
      writes := writes[c := writes[c][id := payload]];
    }
  }

  /** What the caller sees: through the transaction, if there is one. */
  ghost function Seen(data: Data, tx: MemoryTx?, c: string): Documents
    reads tx
  {
    if tx == null then Col(data, c) else View(data, tx.writes, c)
  }

  class InMemoryStore {
    var data: Data

    constructor ()
      ensures data == map[]
    {
      data := map[];
    }

    /** Exactly the write, to the transaction if there is one and to the store otherwise. */
    twostate predicate Wrote(tx: MemoryTx?, c: string, id: string, payload: Option<Bytes>)
      reads this, tx
    {
      if tx == null then data == WriteOne(old(data), c, id, payload)
      else data == old(data) && tx.writes == StageOne(old(tx.writes), c, id, payload)
    }

    twostate predicate Same(tx: MemoryTx?)
      reads this, tx
    {
      data == old(data) && (tx != null ==> tx.writes == old(tx.writes))
    }

    method GetDoc(tx: MemoryTx?, c: string, id: string) returns (r: Reply)
      ensures r == ReplyOn(Seen(data, tx, c), Get(c, id))
    {
      if tx != null && c in tx.writes && id in tx.writes[c] {
        var payload := tx.writes[c][id];
        if payload.None? {
          return NotFound;
        }
        return Fetched(Document(id, payload.value));
      }
      if c in data && id in data[c] {
        return Fetched(Document(id, data[c][id]));
      }
      return NotFound;
    }

    method WriteDoc(tx: MemoryTx?, c: string, doc: Document)
      modifies this, tx
      ensures Wrote(tx, c, doc.id, Some(doc.data))
    {
      if tx != null {
        tx.Stage(c, doc.id, Some(doc.data));
        return;
      }
      if c !in data {
        data := data[c := map[]];
      }
      data := data[c := data[c][doc.id := doc.data]];
    }

    method InsertDoc(tx: MemoryTx?, c: string, doc: Document) returns (r: Reply)
      modifies this, tx
      ensures r == ReplyOn(old(Seen(data, tx, c)), Insert(c, doc))
      ensures if r == Succeeded then Wrote(tx, c, doc.id, Some(doc.data)) else Same(tx)
    {
      if doc.id == "" {
        return IdRequired;
      }
      var existing := GetDoc(tx, c, doc.id);
      if existing.Fetched? {
        return AlreadyExists;
      }
      WriteDoc(tx, c, doc);
      return Succeeded;
    }

    method ReplaceDoc(tx: MemoryTx?, c: string, doc: Document) returns (r: Reply)
      modifies this, tx
      ensures r == ReplyOn(old(Seen(data, tx, c)), Replace(c, doc))
      ensures if r == Succeeded then Wrote(tx, c, doc.id, Some(doc.data)) else Same(tx)
    {
      if doc.id == "" {
        return IdRequired;
      }
      WriteDoc(tx, c, doc);
      return Succeeded;
    }

    method DeleteDoc(tx: MemoryTx?, c: string, id: string) returns (r: Reply)
      modifies this, tx
      ensures r == ReplyOn(old(Seen(data, tx, c)), Delete(c, id))
      ensures if r == Succeeded then Wrote(tx, c, id, None) else Same(tx)
    {
      if tx != null {
        var present := if c in tx.writes && id in tx.writes[c] then tx.writes[c][id].Some? else c in data && id in data[c];
        if !present {
          return NotFound;
        }
        tx.Stage(c, id, None);
        return Succeeded;
      }
      if c !in data || id !in data[c] {
        return NotFound;
      }
      data := data[c := data[c] - {id}];
      return Succeeded;
    }

    /** Lists the matching documents, as seen, in id order. */
    method FindDocs(tx: MemoryTx?, c: string, keep: Bytes -> bool) returns (r: Reply)
      ensures r == ReplyOn(Seen(data, tx, c), Find(c, keep))
    {
      var view := if c in data then data[c] else map[];
      OverlayNothing(view);
      if tx != null && c in tx.writes {
        view := OverlayAll(view, tx.writes[c]);
      }
      var docs := Listing(view, keep);
      return Listed(docs);
    }

    /** Overlays the staged writes in whatever order the map yields them. */
    method OverlayAll(docs: Documents, staged: map<string, Option<Bytes>>) returns (view: Documents)
      ensures view == Overlay(docs, staged)
    {
      view := docs;
      OverlayNothing(docs);
      ghost var done: map<string, Option<Bytes>> := map[];
      var todo := staged.Keys;
      while todo != {}
        invariant todo <= staged.Keys
        invariant done.Keys == staged.Keys - todo && forall id | id in done :: done[id] == staged[id]
        invariant view == Overlay(docs, done)
        decreases |todo|
      {
        var id :| id in todo;
        StageShows(docs, done, id, staged[id]);
        view := if staged[id].None? then view - {id} else view[id := staged[id].value];
        done := done[id := staged[id]];
        todo := todo - {id};
      }
      assert done == staged;
    }

    method Listing(view: Documents, keep: Bytes -> bool) returns (docs: seq<Document>)
      ensures docs == Matching(view, keep)
    {
      var ids: seq<string> := [];
      var todo := view.Keys;
      while todo != {}
        invariant todo <= view.Keys
        invariant forall id :: id in ids <==> id in view && id !in todo
        decreases |todo|
      {
        var id :| id in todo;
        ids := ids + [id];
        todo := todo - {id};
      }
      SortCorrect(ids);
      ids := Sort(ids);
      AscendingUnique(ids, Ids(view.Keys));
      docs := [];
      for n := 0 to |ids|
        invariant docs == Select(ids[..n], view, keep)
      {
        var id := ids[n];
        assert ids[..n + 1][..n] == ids[..n];
        if keep(view[id]) {
          docs := docs + [Document(id, view[id])];
        }
      }
      assert ids[..|ids|] == ids;
    }

    /** Applies the staged writes, collection by collection, in whatever order the maps yield them. */
    method Commit(tx: MemoryTx)
      modifies this
      ensures data == Committed(old(data), tx.writes)
    {
      ghost var done: Writes := map[];
      ghost var start := data;
      CommittedNothing(start);
      var cols := tx.writes.Keys;
      while cols != {}
        invariant cols <= tx.writes.Keys
        invariant done.Keys == tx.writes.Keys - cols && forall c | c in done :: done[c] == tx.writes[c]
        invariant data == Committed(start, done)
        decreases |cols|
      {
        var c :| c in cols;
        CommitOneMore(start, done, c, tx.writes[c]);
        CommitCollection(c, tx.writes[c]);
        done := done[c := tx.writes[c]];
        cols := cols - {c};
      }
      assert done == tx.writes;
    }

    method CommitCollection(c: string, staged: map<string, Option<Bytes>>)
      modifies this
      ensures data == CommittedOne(old(data), c, staged)
    {
      ghost var part: map<string, Option<Bytes>> := map[];
      CommittedOneNothing(data, c);
      var ids := staged.Keys;
      while ids != {}
        invariant ids <= staged.Keys
        invariant part.Keys == staged.Keys - ids && forall id | id in part :: part[id] == staged[id]
        invariant data == CommittedOne(old(data), c, part)
        decreases |ids|
      {
        var id :| id in ids;
        var payload := staged[id];
        CommittedOneMore(old(data), c, part, id, payload);
        if payload.None? {
          if c in data {
            data := data[c := data[c] - {id}];
          }
        } else {
          if c !in data {
            data := data[c := map[]];
          }
          data := data[c := data[c][id := payload.value]];
        }
        part := part[id := payload];
        ids := ids - {id};
      }
      assert part == staged;
    }

    /** One operation, inside or outside a transaction. */
    method Exec(tx: MemoryTx?, op: Op) returns (r: Reply)
      modifies this, tx
      ensures tx == null ==> (data, r) == Direct(old(data), op)
      ensures tx != null ==> data == old(data) && (tx.writes, r) == InTx(data, old(tx.writes), op)
    {
      match op
      case Get(c, id) => r := GetDoc(tx, c, id);
      case Insert(c, doc) => r := InsertDoc(tx, c, doc);
      case Replace(c, doc) => r := ReplaceDoc(tx, c, doc);
      case Delete(c, id) => r := DeleteDoc(tx, c, id);
      case Find(c, keep) => r := FindDocs(tx, c, keep);
    }

    /** Runs the operations in one transaction and commits them, unless the callback fails (by an error
        or a panic), in which case nothing happened. */
    method WithTx(ops: seq<Op>, succeeds: bool) returns (replies: seq<Reply>)
      modifies this
      ensures replies == DirectRun(old(data), ops).1
      ensures !succeeds ==> data == old(data)
      ensures succeeds ==> forall c :: Col(data, c) == Col(DirectRun(old(data), ops).0, c)
    {
      var tx := new MemoryTx();
      replies := [];
      for n := 0 to |ops|
        invariant data == old(data) && fresh(tx)
        invariant (tx.writes, replies) == TxRun(data, ops[..n])
      {
        var r := Exec(tx, ops[n]);
        assert ops[..n + 1][..n] == ops[..n];
        replies := replies + [r];
      }
      assert ops[..|ops|] == ops;
      forall c {
        CommitEqualsDirect(data, ops, c);
      }
      if !succeeds {
        return;
      }
      Commit(tx);
    }
  }

  lemma OverlayNothing(docs: Documents)
    ensures Overlay(docs, map[]) == docs
  {
  }

  lemma CommittedNothing(data: Data)
    ensures Committed(data, map[]) == data
  {
    assert forall c | c in data :: View(data, map[], c) == data[c];
  }

  /** The store after committing one collection's writes. */
  function CommittedOne(data: Data, c: string, staged: map<string, Option<Bytes>>): Data {
    if c in data || Creates(staged) then data[c := Overlay(Col(data, c), staged)] else data
  }

  lemma CommittedOneNothing(data: Data, c: string)
    ensures CommittedOne(data, c, map[]) == data
  {
    OverlayNothing(Col(data, c));
  }

  lemma CreatesMore(part: map<string, Option<Bytes>>, id: string, payload: Option<Bytes>)
    requires id !in part
    ensures Creates(part[id := payload]) <==> Creates(part) || payload.Some?
  {
    var more := part[id := payload];
    assert more[id] == payload;
    assert forall x | x in part :: more[x] == part[x];
  }

  lemma CommittedOneMore(data: Data, c: string, part: map<string, Option<Bytes>>, id: string, payload: Option<Bytes>)
    requires id !in part
    ensures CommittedOne(data, c, part[id := payload]) == WriteOne(CommittedOne(data, c, part), c, id, payload)
  {
    StageShows(Col(data, c), part, id, payload);
    CreatesMore(part, id, payload);
    if c !in data && !Creates(part) {
      assert Overlay(map[], part) == map[];
    }
  }

  lemma CommittedHas(data: Data, w: Writes, c: string)
    ensures c in Committed(data, w) <==> c in data || (c in w && Creates(w[c]))
    ensures c in Committed(data, w) ==> Committed(data, w)[c] == Overlay(Col(data, c), Staged(w, c))
  {
  }

  lemma CommittedOneHas(data: Data, c: string, staged: map<string, Option<Bytes>>, k: string)
    ensures k in CommittedOne(data, c, staged) <==> k in data || (k == c && Creates(staged))
    ensures k in CommittedOne(data, c, staged) ==>
              CommittedOne(data, c, staged)[k] == if k == c then Overlay(Col(data, c), staged) else data[k]
  {
  }

  lemma CommitOneMoreAt(data: Data, w: Writes, c: string, staged: map<string, Option<Bytes>>, k: string, before: Data, after: Data)
    requires c !in w && before == Committed(data, w) && after == Committed(data, w[c := staged])
    ensures k in after <==> k in CommittedOne(before, c, staged)
    ensures k in after ==> after[k] == CommittedOne(before, c, staged)[k]
  {
    var w' := w[c := staged];
    CommittedHas(data, w, k);
    CommittedHas(data, w', k);
    CommittedOneHas(before, c, staged, k);
    if k == c {
      CommittedShows(data, w, c);
      OverlayNothing(Col(data, c));
      assert Staged(w, c) == map[] && Staged(w', c) == staged;
    } else {
      assert Staged(w', k) == Staged(w, k);
    }
  }

  lemma CommitOneMore(data: Data, w: Writes, c: string, staged: map<string, Option<Bytes>>)
    requires c !in w
    ensures Committed(data, w[c := staged]) == CommittedOne(Committed(data, w), c, staged)
  {
    var before, after := Committed(data, w), Committed(data, w[c := staged]);
    var one := CommittedOne(before, c, staged);
    forall k ensures (k in after <==> k in one) && (k in after ==> after[k] == one[k]) {
      CommitOneMoreAt(data, w, c, staged, k, before, after);
    }
    SameMaps(after, one);
  }

  lemma SameMaps(a: Data, b: Data)
    requires forall k :: (k in a <==> k in b) && (k in a ==> a[k] == b[k])
    ensures a == b
  {
  }
}
