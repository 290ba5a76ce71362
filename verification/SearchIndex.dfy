/**
 The public search index of properties and of projects.  Both are kept by the same steps; a
 row's kind decides which statuses the public may see.
 */
module SearchIndex {
  import opened Common
  import opened Inventory

  type Id = nat

  datatype Row =
    | PropertyRow(status: PropertyStatus, approval: string, data: string)
    | ProjectRow(projectStatus: ProjectStatus, data: string)

  type Database = map<Id, Row>

  datatype Document = Document(id: Id, row: Row)
  type Index = map<Id, Document>

  const BATCH_SIZE := 500

  predicate Public(row: Row) {
    match row
    case PropertyRow(status, approval, _) => VisibleProperty(status, approval)
    case ProjectRow(status, _) => VisibleProject(status)
  }

  function PublicIds(db: Database): set<Id> {
    set id | id in db && Public(db[id])
  }

  /** What the index should hold: a document for each publicly visible row, and nothing else. */
  function PublicDocuments(db: Database): Index {
    map id | id in PublicIds(db) :: Document(id, db[id])
  }

  function Documents(db: Database, ids: seq<Id>): seq<Document> {
    if ids == [] then []
    else (if ids[0] in db then [Document(ids[0], db[ids[0]])] else []) + Documents(db, ids[1..])
  }

  /** Documents replace those with the same id. */
  function AddDocuments(index: Index, docs: seq<Document>): Index
    decreases |docs|
  {
    if docs == [] then index else AddDocuments(index[docs[0].id := docs[0]], docs[1..])
  }

  lemma {:induction false} AddAppend(index: Index, a: seq<Document>, b: seq<Document>)
    ensures AddDocuments(index, a + b) == AddDocuments(AddDocuments(index, a), b)
    decreases |a|
  {
    if a == [] {
      assert a + b == b;
    } else {
      assert (a + b)[1..] == a[1..] + b;
      AddAppend(index[a[0].id := a[0]], a[1..], b);
    }
  }

  /** Adding the documents of some rows sets their entries and no other. */
  predicate AddedAt(after: Index, before: Index, db: Database, ids: seq<Id>, id: Id) {
    if id in ids then id in db && id in after && after[id] == Document(id, db[id])
    else (id in after <==> id in before) && (id in before ==> after[id] == before[id])
  }

  lemma {:induction false} AddedRows(index: Index, db: Database, ids: seq<Id>, id: Id)
    requires forall id | id in ids :: id in db
    ensures AddedAt(AddDocuments(index, Documents(db, ids)), index, db, ids, id)
    decreases |ids|
  {
    if ids != [] {
      var first, rest := Document(ids[0], db[ids[0]]), ids[1..];
      assert ids == [ids[0]] + rest;
      assert Documents(db, ids) == [first] + Documents(db, rest);
      assert ([first] + Documents(db, rest))[1..] == Documents(db, rest);
      AddedRows(index[ids[0] := first], db, rest, id);
    }
  }

  lemma {:induction false} DocumentsAppend(db: Database, a: seq<Id>, b: seq<Id>)
    ensures Documents(db, a + b) == Documents(db, a) + Documents(db, b)
    decreases |a|
  {
    if a == [] {
      assert a + b == b;
    } else {
      DocumentsAppend(db, a[1..], b);
      var head := if a[0] in db then [Document(a[0], db[a[0]])] else [];
      assert (a + b)[1..] == a[1..] + b && (a + b)[0] == a[0];
      assert Documents(db, a + b) == head + Documents(db, a[1..] + b);
    }
  }

  // ----- Single rows -----

  /** The index after one row was looked at; a failure is only logged. */
  function AfterIndexing(db: Database, index: Index, id: Id, up: bool): Index {
    if !up then index
    else if id in PublicIds(db) then index[id := Document(id, db[id])]
    else index - {id}
  }

  predicate AgreeAt(index: Index, wanted: Index, id: Id) {
    if id in wanted then id in index && index[id] == wanted[id] else id !in index
  }

  /** The index is right everywhere except perhaps at these rows. */
  ghost predicate RightBut(db: Database, index: Index, dirty: set<Id>) {
    forall id | id !in dirty :: AgreeAt(index, PublicDocuments(db), id)
  }

  lemma RightMeansEqual(db: Database, index: Index)
    ensures RightBut(db, index, {}) <==> index == PublicDocuments(db)
  {
    var wanted := PublicDocuments(db);
    if RightBut(db, index, {}) {
      assert forall id :: AgreeAt(index, wanted, id);
      assert index.Keys == wanted.Keys by {
        forall id ensures id in index <==> id in wanted { assert AgreeAt(index, wanted, id); }
      }
      forall id | id in index ensures index[id] == wanted[id] { assert AgreeAt(index, wanted, id); }
    }
  }

  /** One row changed in any way; indexing it restores the equality. */
  lemma IndexingRestores(db: Database, db': Database, id: Id)
    requires db - {id} == db' - {id}
    ensures AfterIndexing(db', PublicDocuments(db), id, true) == PublicDocuments(db')
  {
    forall k | k != id
      ensures k in db <==> k in db'
      ensures k in db ==> db[k] == db'[k]
    {
      assert k in db <==> k in (db - {id});
      assert k in db' <==> k in (db' - {id});
      assert k in db ==> (db - {id})[k] == (db' - {id})[k];
    }
    var after := AfterIndexing(db', PublicDocuments(db), id, true);
    assert RightBut(db', after, {}) by {
      forall k ensures AgreeAt(after, PublicDocuments(db'), k) {}
    }
    RightMeansEqual(db', after);
  }

  // ----- Rebuilding -----

  /** Where the k-th query starts. */
  function Offset(k: nat): nat {
    if k == 0 then 0 else Offset(k - 1) + BATCH_SIZE
  }

  lemma {:induction false} OffsetIs(k: nat)
    ensures Offset(k) == k * 500
  {
    if k > 0 {
      OffsetIs(k - 1);
    }
  }

  /** The rows that a query finds in its order of the visible rows. */
  function Batch(order: seq<Id>, from: nat): seq<Id> {
    if from >= |order| then [] else order[from..if from + BATCH_SIZE <= |order| then from + BATCH_SIZE else |order|]
  }

  function Fetched(orders: nat -> seq<Id>, batches: nat): seq<Id> {
    if batches == 0 then [] else Fetched(orders, batches - 1) + Batch(orders(batches - 1), Offset(batches - 1))
  }

  /** Every query returns the rows in the same order. */
  function Stable(order: seq<Id>): nat -> seq<Id> {
    _ => order
  }

  function BatchCount(rows: nat): nat {
    if rows == 0 then 0 else if rows <= BATCH_SIZE then 1 else 1 + BatchCount(rows - BATCH_SIZE)
  }

  lemma {:induction false} MoreBatches(rows: nat, k: nat)
    ensures Offset(k) < rows <==> k < BatchCount(rows)
    decreases k
  {
    if k > 0 && rows > BATCH_SIZE {
      MoreBatches(rows - BATCH_SIZE, k - 1);
    }
  }

  /** The rows seen by the first k queries. */
  function Progress(rows: nat, k: nat): nat {
    if Offset(k) <= rows then Offset(k) else rows
  }

  /** A query comes back empty, or short, only when everything has been seen. */
  lemma BatchSize(order: seq<Id>, k: nat)
    ensures var rows := |order|; var n := |Batch(order, Offset(k))|;
            && n == Progress(rows, k + 1) - Progress(rows, k)
            && (n > 0 <==> k < BatchCount(rows))
            && (n < BATCH_SIZE ==> BatchCount(rows) <= k + 1 && Progress(rows, k + 1) == rows)
            && (n == 0 ==> Progress(rows, k) == rows)
  {
    MoreBatches(|order|, k);
    MoreBatches(|order|, k + 1);
  }

  ghost predicate Lists(order: seq<Id>, ids: set<Id>) {
    |order| == |ids| && (forall id :: id in order <==> id in ids)
  }

  lemma BatchExtends(order: seq<Id>, k: nat)
    ensures order[..Progress(|order|, k)] + Batch(order, Offset(k)) == order[..Progress(|order|, k + 1)]
  {
    var from, to := Progress(|order|, k), Progress(|order|, k + 1);
    assert Batch(order, Offset(k)) == order[from..to];
    assert order[..from] + order[from..to] == order[..to];
  }

  /** In one stable order the batches are that order: every visible row is visited exactly once. */
  lemma {:induction false} StableOrderVisitsOnce(order: seq<Id>, batches: nat)
    ensures Fetched(Stable(order), batches) == order[..Progress(|order|, batches)]
  {
    if batches > 0 {
      StableOrderVisitsOnce(order, batches - 1);
      BatchExtends(order, batches - 1);
    }
  }

  lemma WholeTableFetched(order: seq<Id>)
    ensures Fetched(Stable(order), BatchCount(|order|)) == order
  {
    StableOrderVisitsOnce(order, BatchCount(|order|));
    MoreBatches(|order|, BatchCount(|order|));
    assert order[..|order|] == order;
  }

  /** Whatever the orders are, only visible rows are fetched. */
  lemma {:induction false} FetchedAreListed(orders: nat -> seq<Id>, ids: set<Id>, batches: nat, id: Id)
    requires forall k: nat :: Lists(orders(k), ids)
    requires id in Fetched(orders, batches)
    ensures id in ids
  {
    var earlier, order := Fetched(orders, batches - 1), orders(batches - 1);
    var batch := Batch(order, Offset(batches - 1));
    assert id in earlier + batch;
    if id in earlier {
      FetchedAreListed(orders, ids, batches - 1, id);
    } else {
      BatchIsPart(order, Offset(batches - 1), id);
      assert Lists(order, ids);
    }
  }

  lemma BatchIsPart(order: seq<Id>, from: nat, id: Id)
    requires id in Batch(order, from)
    ensures id in order
  {}

  /** The index after some batches of a rebuild. */
  function Rebuilt(db: Database, index: Index, orders: nat -> seq<Id>, cleared: bool, batches: nat): Index
  {
    AddDocuments(if cleared then map[] else index, Documents(db, Fetched(orders, batches)))
  }

  /** The index already held this row's document, and kept it because clearing failed. */
  predicate AlreadyRight(db: Database, index: Index, cleared: bool, id: Id) {
    !cleared && id in index && id in db && index[id] == Document(id, db[id])
  }

  /** What a rebuild leaves at one row. */
  lemma RebuiltAt(db: Database, index: Index, orders: nat -> seq<Id>, cleared: bool, batches: nat, id: Id)
    requires forall k: nat :: Lists(orders(k), PublicIds(db))
    ensures AgreeAt(Rebuilt(db, index, orders, cleared, batches), PublicDocuments(db), id)
            <==> if id in PublicIds(db) then id in Fetched(orders, batches) || AlreadyRight(db, index, cleared, id)
                 else cleared || id !in index
  {
    forall x | x in Fetched(orders, batches) ensures x in PublicIds(db) {
      FetchedAreListed(orders, PublicIds(db), batches, x);
    }
    AddedRows(if cleared then map[] else index, db, Fetched(orders, batches), id);
  }

  /**
   In whatever order each query returned the rows, and after however many batches, the index is
   exactly the public documents if and only if nothing stale was left behind -- a failed clearing
   is ignored -- and every visible row was fetched by some query or was right already.
   */
  lemma RebuildIsRightIff(db: Database, index: Index, orders: nat -> seq<Id>, cleared: bool, batches: nat)
    requires forall k: nat :: Lists(orders(k), PublicIds(db))
    ensures Rebuilt(db, index, orders, cleared, batches) == PublicDocuments(db)
            <==> && (cleared || index.Keys <= PublicIds(db))
                 && forall id | id in PublicIds(db) ::
                      id in Fetched(orders, batches) || AlreadyRight(db, index, cleared, id)
  {
    var rebuilt := Rebuilt(db, index, orders, cleared, batches);
    RightMeansEqual(db, rebuilt);
    forall id
      ensures AgreeAt(rebuilt, PublicDocuments(db), id)
              <==> if id in PublicIds(db) then id in Fetched(orders, batches) || AlreadyRight(db, index, cleared, id)
                   else cleared || id !in index
    {
      RebuiltAt(db, index, orders, cleared, batches, id);
    }
  }

  /** Over one stable order every row is fetched, and only a failed clearing can leave something wrong. */
  lemma StableRebuildIsRightIff(db: Database, index: Index, order: seq<Id>, cleared: bool)
    requires Lists(order, PublicIds(db))
    ensures Rebuilt(db, index, Stable(order), cleared, BatchCount(|PublicIds(db)|)) == PublicDocuments(db)
            <==> cleared || index.Keys <= PublicIds(db)
  {
    WholeTableFetched(order);
    RebuildIsRightIff(db, index, Stable(order), cleared, BatchCount(|PublicIds(db)|));
  }

  lemma {:induction false} OrderOf(ids: set<Id>) returns (order: seq<Id>)
    ensures Lists(order, ids) && forall i, j | 0 <= i < j < |order| :: order[i] != order[j]
    decreases |ids|
  {
    if ids == {} {
      order := [];
    } else {
      var id :| id in ids;
      var rest := OrderOf(ids - {id});
      order := rest + [id];
    }
  }

  /** The same order with its first row and the first row of the second batch exchanged. */
  function Exchanged(order: seq<Id>): seq<Id>
    requires |order| > BATCH_SIZE
  {
    order[0 := order[BATCH_SIZE]][BATCH_SIZE := order[0]]
  }

  function Shifting(order: seq<Id>): nat -> seq<Id>
    requires |order| > BATCH_SIZE
  {
    k => if k == 0 then order else Exchanged(order)
  }

  lemma ShiftingLists(order: seq<Id>, ids: set<Id>, k: nat)
    requires Lists(order, ids) && |order| > BATCH_SIZE
    ensures Lists(Shifting(order)(k), ids)
  {
    var other := Exchanged(order);
    forall id ensures id in other <==> id in ids {
      if id in ids {
        var i :| 0 <= i < |order| && order[i] == id;
        assert other[if i == 0 then BATCH_SIZE else if i == BATCH_SIZE then 0 else i] == id;
      }
    }
  }

  lemma ExchangedMisses(order: seq<Id>, from: nat)
    requires |order| > BATCH_SIZE && forall i, j | 0 <= i < j < |order| :: order[i] != order[j]
    requires from >= BATCH_SIZE
    ensures order[BATCH_SIZE] !in Batch(Exchanged(order), from)
  {
    var other := Exchanged(order);
    forall i | from <= i < |other| ensures other[i] != order[BATCH_SIZE] {
      assert other[i] == if i == BATCH_SIZE then order[0] else order[i];
    }
  }

  /** The first row of the second batch moves to the front before the second query, and is never fetched. */
  lemma {:induction false} ShiftingMisses(order: seq<Id>, batches: nat)
    requires |order| > BATCH_SIZE && forall i, j | 0 <= i < j < |order| :: order[i] != order[j]
    ensures order[BATCH_SIZE] !in Fetched(Shifting(order), batches)
  {
    if batches > 0 {
      ShiftingMisses(order, batches - 1);
      var k := batches - 1;
      assert k > 0 ==> Offset(k) >= BATCH_SIZE;
      if k == 0 {
        assert order[BATCH_SIZE] !in order[..BATCH_SIZE];
      } else {
        ExchangedMisses(order, Offset(k));
      }
    }
  }

  /**
   So a rebuild may rely on any orders whatever exactly when one batch holds all visible rows;
   with more, two different orders can make it miss one.
   */
  lemma AnyOrderIsRightIff(db: Database, index: Index)
    ensures (forall orders: nat -> seq<Id> | (forall k: nat :: Lists(orders(k), PublicIds(db))) ::
               Rebuilt(db, index, orders, true, BatchCount(|PublicIds(db)|)) == PublicDocuments(db))
            <==> |PublicIds(db)| <= 500
  {
    var ids := PublicIds(db);
    var n := BatchCount(|ids|);
    if |ids| <= BATCH_SIZE {
      forall orders: nat -> seq<Id> | forall k: nat :: Lists(orders(k), ids)
        ensures Rebuilt(db, index, orders, true, n) == PublicDocuments(db)
      {
        assert Lists(orders(0), ids);
        OneBatchFetchesAll(orders, |ids|);
        RebuildIsRightIff(db, index, orders, true, n);
      }
    } else {
      var orders := UnstableOrderMissesRows(db, index);
    }
  }

  lemma OneBatchFetchesAll(orders: nat -> seq<Id>, rows: nat)
    requires |orders(0)| == rows <= BATCH_SIZE
    ensures Fetched(orders, BatchCount(rows)) == orders(0)
  {
    assert Fetched(orders, 0) == [];
    assert orders(0)[0..] == orders(0);
  }

  /** With more rows than one batch there are orders over which a visible row is missed. */
  lemma UnstableOrderMissesRows(db: Database, index: Index) returns (orders: nat -> seq<Id>)
    requires |PublicIds(db)| > BATCH_SIZE
    ensures forall k: nat :: Lists(orders(k), PublicIds(db))
    ensures exists id | id in PublicIds(db) :: id !in Fetched(orders, BatchCount(|PublicIds(db)|))
    ensures Rebuilt(db, index, orders, true, BatchCount(|PublicIds(db)|)) != PublicDocuments(db)
  {
    var order := OrderOf(PublicIds(db));
    orders := Shifting(order);
    forall k: nat ensures Lists(orders(k), PublicIds(db)) {
      ShiftingLists(order, PublicIds(db), k);
    }
    ShiftingMisses(order, BatchCount(|PublicIds(db)|));
    assert order[BATCH_SIZE] in order;
    RebuildIsRightIff(db, index, orders, true, BatchCount(|PublicIds(db)|));
  }

  // ----- Runs -----

  datatype Op =
    | ChangeRow(id: Id, row: Option<Row>)
    | IndexRow(id: Id, up: bool)
    | DeleteRow(id: Id, up: bool)
    /** Any number of batches: an outage may stop a rebuild early. */
    | Rebuild(orders: nat -> seq<Id>, cleared: bool, batches: nat)

  datatype State = State(db: Database, index: Index)

  ghost predicate Possible(s: State, op: Op) {
    op.Rebuild? ==> forall k: nat :: Lists(op.orders(k), PublicIds(s.db))
  }

  ghost function Step(s: State, op: Op): State {
    match op
    case ChangeRow(id, row) => s.(db := match row case Some(r) => s.db[id := r] case None => s.db - {id})
    case IndexRow(id, up) => s.(index := AfterIndexing(s.db, s.index, id, up))
    case DeleteRow(id, up) => s.(index := if up then s.index - {id} else s.index)
    case Rebuild(orders, cleared, batches) => s.(index := Rebuilt(s.db, s.index, orders, cleared, batches))
  }

  /** The rows whose last change the index may not have seen yet. */
  function Dirty(s: State, dirty: set<Id>, op: Op): set<Id> {
    match op
    case ChangeRow(id, _) => dirty + {id}
    case IndexRow(id, up) => if up then dirty - {id} else dirty
    case DeleteRow(id, up) =>
      if !up then dirty else if id in PublicIds(s.db) then dirty + {id} else dirty - {id}
    case Rebuild(orders, cleared, batches) =>
      var missed := set id | id in PublicIds(s.db) && id !in Fetched(orders, batches);
      if cleared then missed else dirty - (PublicIds(s.db) - missed)
  }

  lemma StepKeepsRight(s: State, dirty: set<Id>, op: Op)
    requires RightBut(s.db, s.index, dirty) && Possible(s, op)
    ensures RightBut(Step(s, op).db, Step(s, op).index, Dirty(s, dirty, op))
  {
    var t, dirty' := Step(s, op), Dirty(s, dirty, op);
    forall k | k !in dirty'
      ensures AgreeAt(t.index, PublicDocuments(t.db), k)
    {
      assert k !in dirty ==> AgreeAt(s.index, PublicDocuments(s.db), k);
      if op.Rebuild? {
        RebuiltAt(s.db, s.index, op.orders, op.cleared, op.batches, k);
      }
    }
  }

  ghost predicate Feasible(s: State, ops: seq<Op>)
    decreases |ops|
  {
    ops != [] ==> Possible(s, ops[0]) && Feasible(Step(s, ops[0]), ops[1..])
  }

  ghost function Run(s: State, ops: seq<Op>): State
    requires Feasible(s, ops)
    decreases |ops|
  {
    if ops == [] then s else Run(Step(s, ops[0]), ops[1..])
  }

  ghost function DirtyAfter(s: State, dirty: set<Id>, ops: seq<Op>): set<Id>
    requires Feasible(s, ops)
    decreases |ops|
  {
    if ops == [] then dirty else DirtyAfter(Step(s, ops[0]), Dirty(s, dirty, ops[0]), ops[1..])
  }

  /**
   After any run the index equals the public rows at every row indexed since its last change,
   whatever failed elsewhere; when nothing is pending the two are equal.
   */
  lemma {:induction false} IndexFollowsDatabase(s: State, dirty: set<Id>, ops: seq<Op>)
    requires RightBut(s.db, s.index, dirty) && Feasible(s, ops)
    ensures RightBut(Run(s, ops).db, Run(s, ops).index, DirtyAfter(s, dirty, ops))
    ensures DirtyAfter(s, dirty, ops) == {} ==> Run(s, ops).index == PublicDocuments(Run(s, ops).db)
    decreases |ops|
  {
    if ops == [] {
      if dirty == {} {
        RightMeansEqual(s.db, s.index);
      }
    } else {
      StepKeepsRight(s, dirty, ops[0]);
      IndexFollowsDatabase(Step(s, ops[0]), Dirty(s, dirty, ops[0]), ops[1..]);
    }
  }

  /** What the index holds of a row, and when it must hold nothing. */
  ghost predicate ShowsRow(db: Database, index: Index, id: Id) {
    var public := id in db && match db[id]
                              case PropertyRow(status, approval, _) =>
                                status in {Available, Sold, Rented} && approval == "Approved"
                              case ProjectRow(status, _) => status in {Published, Booked};
    if public then id in index && index[id] == Document(id, db[id]) else id !in index
  }

  lemma ShowsRowIff(db: Database, index: Index, id: Id)
    ensures ShowsRow(db, index, id) <==> AgreeAt(index, PublicDocuments(db), id)
  {}

  /** Nothing touches the row, and no rebuild starts. */
  ghost predicate LeavesAlone(op: Op, id: Id) {
    match op
    case ChangeRow(k, _) => k != id
    case DeleteRow(k, _) => k != id
    case IndexRow(_, _) => true
    case Rebuild(_, _, _) => false
  }

  /**
   Once a row is indexed, the index shows it exactly if it is public, as it is, until the row is
   changed or deleted or a rebuild starts, whatever happens to other rows.
   */
  lemma IndexedRowIsShown(s: State, id: Id, ops: seq<Op>)
    requires Feasible(s, [IndexRow(id, true)] + ops) && forall op | op in ops :: LeavesAlone(op, id)
    ensures var t := Run(s, [IndexRow(id, true)] + ops); ShowsRow(t.db, t.index, id)
  {
    var t := Step(s, IndexRow(id, true));
    assert ([IndexRow(id, true)] + ops)[1..] == ops;
    ShowsRowIff(t.db, t.index, id);
    ShownStays(t, id, ops);
  }

  lemma {:induction false} ShownStays(s: State, id: Id, ops: seq<Op>)
    requires Feasible(s, ops) && ShowsRow(s.db, s.index, id) && forall op | op in ops :: LeavesAlone(op, id)
    ensures ShowsRow(Run(s, ops).db, Run(s, ops).index, id)
    decreases |ops|
  {
    if ops != [] {
      assert LeavesAlone(ops[0], id);
      ShowsRowIff(s.db, s.index, id);
      ShowsRowIff(Step(s, ops[0]).db, Step(s, ops[0]).index, id);
      ShownStays(Step(s, ops[0]), id, ops[1..]);
    }
  }

  /** After a whole rebuild over a cleared index and one stable order every row is shown as it should be. */
  lemma RebuiltIndexShowsAll(s: State, order: seq<Id>, id: Id)
    requires Lists(order, PublicIds(s.db))
    ensures var t := Step(s, Rebuild(Stable(order), true, BatchCount(|PublicIds(s.db)|)));
            t.db == s.db && ShowsRow(t.db, t.index, id)
  {
    var t := Step(s, Rebuild(Stable(order), true, BatchCount(|PublicIds(s.db)|)));
    StableRebuildIsRightIff(s.db, s.index, order, true);
    ShowsRowIff(t.db, t.index, id);
  }

  // ----- The service -----

  /** A rebuild stops at the first batch that the index refuses, if there is one. */
  function BatchesDone(rows: nat, outage: Option<nat>): nat {
    if outage.Some? && outage.value < BatchCount(rows) then outage.value else BatchCount(rows)
  }

  datatype RebuildError = NotEnabled | Outage

  class SearchService {
    var enabled: bool
    var index: Index

    constructor (enabled: bool)
      ensures this.enabled == enabled && index == map[]
    {
      this.enabled := enabled;
      index := map[];
    }

    method Delete(id: Id, up: bool)
      modifies this`index
      ensures index == if enabled && up then old(index) - {id} else old(index)
    {
      if !enabled {
        return;
      }
      if up {
        index := index - {id};
      }
    }

    method IndexOne(db: Database, id: Id, up: bool)
      modifies this`index
      ensures index == if enabled then AfterIndexing(db, old(index), id, up) else old(index)
      ensures !up ==> index == old(index)
      ensures index - {id} == old(index) - {id}
    {
      if !enabled {
        return;
      }
      if id !in db {
        Delete(id, up);
        return;
      }
      if !Public(db[id]) {
        Delete(id, up);
        return;
      }
      if up {
        index := AddDocuments(index, [Document(id, db[id])]);
        assert [Document(id, db[id])][1..] == [];
        assert AddDocuments(old(index)[id := Document(id, db[id])], []) == index;
      }
    }

    method ReindexAll(db: Database, orders: nat -> seq<Id>, cleared: bool, outage: Option<nat>)
      returns (r: Result<nat, RebuildError>)
      requires forall k: nat :: Lists(orders(k), PublicIds(db))
      modifies this`index
      ensures !enabled ==> r == Err(NotEnabled) && index == old(index)
      ensures enabled ==>
                var done := BatchesDone(|PublicIds(db)|, outage);
                && r == (if done < BatchCount(|PublicIds(db)|) then Err(Outage) else Ok(|PublicIds(db)|))
                && index == Rebuilt(db, old(index), orders, cleared, done)
      ensures r == Err(Outage) <==> enabled && outage.Some? && outage.value * 500 < |PublicIds(db)|
      ensures r == Err(Outage) ==> index == Rebuilt(db, old(index), orders, cleared, outage.value)
    {
      if !enabled {
        return Err(NotEnabled);
      }
      if cleared {
        index := map[];
      }
      assert forall k: nat :: Lists(orders(k), PublicIds(db)) ==> |orders(k)| == |PublicIds(db)|;
      r := AddBatches(db, orders, outage, old(index), cleared, |PublicIds(db)|);
      if outage.Some? {
        OffsetIs(outage.value);
        MoreBatches(|PublicIds(db)|, outage.value);
      }
    }

    /** The loop of a rebuild that started from `before`, over `total` rows. */
    method AddBatches(db: Database, orders: nat -> seq<Id>, outage: Option<nat>, ghost before: Index,
                      ghost cleared: bool, ghost total: nat)
      returns (r: Result<nat, RebuildError>)
      requires forall k: nat :: |orders(k)| == total
      requires index == Rebuilt(db, before, orders, cleared, 0)
      modifies this`index
      ensures r == (if BatchesDone(total, outage) < BatchCount(total) then Err(Outage) else Ok(total))
      ensures index == Rebuilt(db, before, orders, cleared, BatchesDone(total, outage))
    {
      var offset, totalIndexed, query := 0, 0, 0;
      while true
        invariant offset == Offset(query)
        invariant totalIndexed == Progress(total, query)
        invariant query <= BatchesDone(total, outage)
        invariant index == Rebuilt(db, before, orders, cleared, query)
        decreases BatchCount(total) - query
      {
        var order := orders(query);
        BatchSize(order, query);
        var rows := Batch(order, offset);
        if |rows| == 0 {
          break;
        }
        if outage == Some(query) {
          assert query == BatchesDone(total, outage);
          return Err(Outage);
        }
        AddBatch(db, before, orders, cleared, query);
        index := AddDocuments(index, Documents(db, rows));
        totalIndexed := totalIndexed + |rows|;
        offset := offset + BATCH_SIZE;
        query := query + 1;
        if |rows| < BATCH_SIZE {
          break;
        }
      }
      assert query == BatchCount(total) && query == BatchesDone(total, outage);
      return Ok(totalIndexed);
    }
  }

  lemma AddBatch(db: Database, index: Index, orders: nat -> seq<Id>, cleared: bool, k: nat)
    ensures Rebuilt(db, index, orders, cleared, k + 1)
         == AddDocuments(Rebuilt(db, index, orders, cleared, k), Documents(db, Batch(orders(k), Offset(k))))
  {
    var a, b := Fetched(orders, k), Batch(orders(k), Offset(k));
    DocumentsAppend(db, a, b);
    AddAppend(if cleared then map[] else index, Documents(db, a), Documents(db, b));
  }
}
